/**
 * The `InputGroup` component's logic: the rendered `type` of its input from the declared
 * type and the local `showPass` flag, the `minLength` attribute, and the visibility toggle,
 * which exists only for password inputs.
 */
module InputGroup {
  import Wrappers

  /** The `type` values an `InputGroup` accepts, which are also the types it renders. */
  datatype InputType = EmailType | PasswordType | TextType

  /** The password length the browser enforces on a password input, in UTF-16 code units. */
  const PasswordMinLength: nat := 6

  /** One mounted `InputGroup`: its declared type and its `showPass` state. */
  datatype Group = Group(declared: InputType, showPass: bool)

  /** A freshly mounted group: the password is hidden. */
  function Mount(t: InputType): (g: Group)
    ensures g.declared == t && !g.showPass
  {
    Group(t, false)
  }

  /** The `type` attribute of the rendered input. */
  function RenderedType(g: Group): (r: InputType)
    ensures g.declared == PasswordType ==> (r == TextType <==> g.showPass)
    ensures g.declared == PasswordType ==> r != EmailType
    ensures g.declared != PasswordType ==> r == g.declared
  {
    if g.declared == PasswordType then (if g.showPass then TextType else PasswordType)
    else g.declared
  }

  /** The `minLength` attribute: present, and 6, only on a password input. */
  function MinLength(t: InputType): (r: Wrappers.Option<nat>)
    ensures r.Some? <==> t == PasswordType
    ensures r.Some? ==> r.value == PasswordMinLength
  {
    if t == PasswordType then Wrappers.Some(PasswordMinLength) else Wrappers.None
  }

  /** Whether the visibility icon is rendered: exactly on the inputs that carry `minLength`. */
  function HasToggle(t: InputType): (r: bool)
    ensures r <==> MinLength(t).Some?
    ensures r ==> RenderedType(Group(t, true)) != RenderedType(Group(t, false))
    ensures !r ==> RenderedType(Group(t, true)) == RenderedType(Group(t, false))
  {
    t == PasswordType
  }

  /** A click on the visibility icon, which only a password input renders. */
  function Toggle(g: Group): (r: Group)
    requires HasToggle(g.declared)
    ensures r.declared == g.declared && r.showPass == !g.showPass
    ensures RenderedType(r) != RenderedType(g)
  {
    g.(showPass := !g.showPass)
  }

  /** A freshly mounted password input renders as a password input. */
  lemma MountedPasswordHidden()
    ensures RenderedType(Mount(PasswordType)) == PasswordType
  {
  }

  /** Toggling twice restores the group, so the rendered type returns to what it was. */
  lemma ToggleTwiceRestores(g: Group)
    requires HasToggle(g.declared)
    ensures Toggle(Toggle(g)) == g
    ensures RenderedType(Toggle(Toggle(g))) == RenderedType(g)
  {
  }

  /** Other declared types render unchanged whatever `showPass` holds. */
  lemma ShowPassIrrelevantElsewhere(t: InputType, a: bool, b: bool)
    requires t != PasswordType
    ensures RenderedType(Group(t, a)) == RenderedType(Group(t, b)) == t
  {
  }
}
