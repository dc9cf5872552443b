/**
 * JavaScript strings are sequences of UTF-16 code units, so `s.length` counts a
 * character outside the Basic Multilingual Plane twice. Dafny's `char` is a Unicode
 * scalar value, so the JavaScript length is defined here explicitly.
 */
module JsString {

  /** The number of UTF-16 code units that encode `c`. */
  function CodeUnits(c: char): (n: nat)
    ensures n == 1 || n == 2
    ensures n == 2 <==> c as int >= 0x1_0000
  {
    if c as int < 0x1_0000 then 1 else 2
  }

  /** A string all of whose characters lie in the Basic Multilingual Plane. */
  predicate AllBmp(s: string) {
    forall i :: 0 <= i < |s| ==> s[i] as int < 0x1_0000
  }

  /** The value of JavaScript's `s.length`. */
  function Length(s: string): (n: nat)
    ensures |s| <= n <= 2 * |s|
    ensures n == 0 <==> s == ""
    ensures AllBmp(s) ==> n == |s|
  {
    if s == [] then 0
    else
      assert AllBmp(s) ==> AllBmp(s[1..]) by {
        if AllBmp(s) {
          forall i | 0 <= i < |s[1..]| ensures s[1..][i] as int < 0x1_0000 {
            assert s[1..][i] == s[i + 1];
          }
        }
      }
      CodeUnits(s[0]) + Length(s[1..])
  }

  /** The length of a one-character string is that character's number of code units. */
  lemma LengthChar(c: char)
    ensures Length([c]) == CodeUnits(c)
  {
  }

  /** The length of a concatenation is the sum of the lengths, so every character contributes its code units. */
  lemma {:induction false} LengthAppend(a: string, b: string)
    ensures Length(a + b) == Length(a) + Length(b)
    decreases |a|
  {
    if a == [] {
      assert a + b == b;
    } else {
      assert (a + b)[0] == a[0];
      assert (a + b)[1..] == a[1..] + b;
      LengthAppend(a[1..], b);
    }
  }
}
