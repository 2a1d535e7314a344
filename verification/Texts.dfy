/** The string operations of Python that matter for credential values and codes, on ASCII text. */
module Texts {

  predicate IsSpace(c: char) {
    9 <= c as int <= 13 || 28 <= c as int <= 32
  }

  function StripLeft(s: string): string {
    if s != [] && IsSpace(s[0]) then StripLeft(s[1..]) else s
  }

  function StripRight(s: string): string {
    if s != [] && IsSpace(s[|s| - 1]) then StripRight(s[..|s| - 1]) else s
  }

  function UpperChar(c: char): char {
    if 'a' <= c <= 'z' then (c as int - 32) as char else c
  }

  function Upper(s: string): (u: string)
    ensures |u| == |s|
  {
    seq(|s|, i requires 0 <= i < |s| => UpperChar(s[i]))
  }

  /** credential_value.strip().upper(). */
  function Normalized(s: string): string {
    Upper(StripRight(StripLeft(s)))
  }

  /** The result of strip: no space at either end, and nothing but spaces taken away. */
  ghost predicate IsStripped(s: string, t: string) {
    && (t != [] ==> !IsSpace(t[0]) && !IsSpace(t[|t| - 1]))
    && exists a, b :: IsCut(s, t, a, b)
  }

  ghost predicate IsCut(s: string, t: string, a: nat, b: nat) {
    && a <= b <= |s| && t == s[a..b]
    && (forall k | 0 <= k < a :: IsSpace(s[k])) && (forall k | b <= k < |s| :: IsSpace(s[k]))
  }

  lemma {:induction false} StripLeftIs(s: string) returns (a: nat)
    ensures a <= |s| && StripLeft(s) == s[a..] && (forall k | 0 <= k < a :: IsSpace(s[k]))
    ensures StripLeft(s) != [] ==> !IsSpace(StripLeft(s)[0])
  {
    a := 0;
    if s != [] && IsSpace(s[0]) {
      a := StripLeftIs(s[1..]);
      a := a + 1;
      assert forall k | 1 <= k < a :: s[k] == s[1..][k - 1];
    }
  }

  lemma {:induction false} StripRightIs(s: string) returns (b: nat)
    ensures b <= |s| && StripRight(s) == s[..b] && (forall k | b <= k < |s| :: IsSpace(s[k]))
    ensures StripRight(s) != [] ==> !IsSpace(StripRight(s)[|StripRight(s)| - 1])
  {
    b := |s|;
    if s != [] && IsSpace(s[|s| - 1]) {
      b := StripRightIs(s[..|s| - 1]);
    }
  }

  /** Normalising strips and then puts every letter into upper case. */
  lemma NormalizedIs(s: string)
    ensures exists t :: IsStripped(s, t) && |Normalized(s)| == |t| && forall k | 0 <= k < |t| ::
                          Normalized(s)[k] == UpperChar(t[k])
  {
    hide IsStripped, StripLeft, StripRight, UpperChar;
    StripIs(s);
    var t := StripRight(StripLeft(s));
    assert forall k | 0 <= k < |t| :: Normalized(s)[k] == UpperChar(t[k]);
  }

  lemma StripIs(s: string)
    ensures IsStripped(s, StripRight(StripLeft(s)))
  {
    hide IsSpace, StripLeft, StripRight;
    var left, t := StripLeft(s), StripRight(StripLeft(s));
    var a := StripLeftIs(s);
    var b := StripRightIs(left);
    if t != [] {
      assert t[0] == left[0];
    }
    forall k | a + b <= k < |s|
      ensures IsSpace(s[k])
    {
      assert left[k - a] == s[k];
    }
    assert IsCut(s, t, a, a + b);
  }

  const LOWER := "abcdefghijklmnopqrstuvwxyz"
  const UPPER := "ABCDEFGHIJKLMNOPQRSTUVWXYZ"

  /** The k-th small letter becomes the k-th capital letter. */
  lemma SmallBecomesCapital(k: nat)
    requires k < 26
    ensures UpperChar(LOWER[k]) == UPPER[k]
  {
  }

  /** Any other character stays. */
  lemma OthersStay(c: char)
    ensures c in LOWER || UpperChar(c) == c
  {
    if 'a' <= c <= 'z' {
      assert LOWER[c as int - 'a' as int] == c;
    }
  }

  /** The white space of ASCII, as Python has it. */
  lemma SpacesAre(c: char)
    ensures IsSpace(c) <==> c as int in {9, 10, 11, 12, 13, 28, 29, 30, 31, 32}
  {
  }
}
