/**
 * String helpers the components rely on: JavaScript's `String.prototype.replace`
 * with a string pattern (only the first occurrence is replaced) and the decimal
 * rendering of a non-negative integer inside a template literal.
 */
module Text {

  /** `pat` occurs in `s` starting at index `k`. */
  predicate OccursAt(s: string, pat: string, k: int) {
    0 <= k && k + |pat| <= |s| && s[k..k + |pat|] == pat
  }

  /** `k` is the first index at which `pat` occurs in `s`. */
  predicate FirstOccurrence(s: string, pat: string, k: int) {
    OccursAt(s, pat, k) && forall j :: 0 <= j < k ==> !OccursAt(s, pat, j)
  }

  /** Occurrences in the tail of `s` are the occurrences in `s` after its first character. */
  lemma OccursInTail(s: string, pat: string, k: int)
    requires |s| > 0
    ensures OccursAt(s[1..], pat, k) <==> 1 <= k + 1 && OccursAt(s, pat, k + 1)
  {
    if 0 <= k && k + 1 + |pat| <= |s| {
      assert s[1..][k..] == s[k + 1..];
      assert s[1..][k..k + |pat|] == s[1..][k..][..|pat|];
      assert s[k + 1..k + 1 + |pat|] == s[k + 1..][..|pat|];
    }
  }

  /**
   * `s.replace(pat, rep)` for a replacement without `$` patterns: the first
   * occurrence of `pat` is replaced, or nothing when there is none.
   */
  function ReplaceFirst(s: string, pat: string, rep: string): (r: string)
    requires |pat| > 0
    ensures (forall k :: 0 <= k <= |s| - |pat| ==> !OccursAt(s, pat, k)) ==> r == s
    ensures forall k :: FirstOccurrence(s, pat, k) ==> r == s[..k] + rep + s[k + |pat|..]
    decreases |s|
  {
    if |s| < |pat| then s
    else if s[..|pat|] == pat then
      assert OccursAt(s, pat, 0);
      rep + s[|pat|..]
    else
      assert !OccursAt(s, pat, 0);
      var tail := ReplaceFirst(s[1..], pat, rep);
      assert (forall k :: 0 <= k <= |s| - |pat| ==> !OccursAt(s, pat, k)) ==> [s[0]] + tail == s by {
        if forall k :: 0 <= k <= |s| - |pat| ==> !OccursAt(s, pat, k) {
          ReplaceFirstStepAbsent(s, pat, rep, tail);
        }
      }
      assert forall k :: FirstOccurrence(s, pat, k) ==> [s[0]] + tail == s[..k] + rep + s[k + |pat|..] by {
        forall k | FirstOccurrence(s, pat, k) ensures [s[0]] + tail == s[..k] + rep + s[k + |pat|..] {
          ReplaceFirstStepAt(s, pat, rep, tail, k);
        }
      }
      [s[0]] + tail
  }

  /** The recursive case of `ReplaceFirst` when `pat` does not occur at all. */
  lemma ReplaceFirstStepAbsent(s: string, pat: string, rep: string, tail: string)
    requires |pat| > 0 && |s| >= |pat|
    requires (forall k :: 0 <= k <= |s| - 1 - |pat| ==> !OccursAt(s[1..], pat, k)) ==> tail == s[1..]
    requires forall k :: 0 <= k <= |s| - |pat| ==> !OccursAt(s, pat, k)
    ensures [s[0]] + tail == s
  {
    forall k | 0 <= k <= |s| - 1 - |pat| ensures !OccursAt(s[1..], pat, k) {
      OccursInTail(s, pat, k);
    }
    assert [s[0]] + s[1..] == s;
  }

  /** The recursive case of `ReplaceFirst` when the first occurrence is at `k`. */
  lemma ReplaceFirstStepAt(s: string, pat: string, rep: string, tail: string, k: int)
    requires |pat| > 0 && |s| >= |pat| && !OccursAt(s, pat, 0)
    requires FirstOccurrence(s[1..], pat, k - 1) ==> tail == s[1..][..k - 1] + rep + s[1..][k - 1 + |pat|..]
    requires FirstOccurrence(s, pat, k)
    ensures [s[0]] + tail == s[..k] + rep + s[k + |pat|..]
  {
    assert k >= 1;
    OccursInTail(s, pat, k - 1);
    forall j | 0 <= j < k - 1 ensures !OccursAt(s[1..], pat, j) {
      OccursInTail(s, pat, j);
      assert !OccursAt(s, pat, j + 1);
    }
    assert FirstOccurrence(s[1..], pat, k - 1);
    assert s[..k] == [s[0]] + s[1..][..k - 1];
    assert s[k + |pat|..] == s[1..][k - 1 + |pat|..];
  }

  /** The character of a decimal digit. */
  function DigitChar(d: nat): (c: char)
    requires d < 10
    ensures '0' <= c <= '9'
  {
    "0123456789"[d]
  }

  /** The digit a decimal character stands for. */
  function DigitValue(c: char): (d: nat)
    requires '0' <= c <= '9'
    ensures d < 10 && DigitChar(d) == c
  {
    c as int - '0' as int
  }

  predicate IsDecimal(s: string) {
    |s| > 0 && forall i :: 0 <= i < |s| ==> '0' <= s[i] <= '9'
  }

  /** The decimal rendering of `n`, as JavaScript writes a non-negative integer into a string. */
  function NatToString(n: nat): (s: string)
    ensures IsDecimal(s)
    ensures n < 10 <==> |s| == 1
  {
    if n < 10 then [DigitChar(n)] else NatToString(n / 10) + [DigitChar(n % 10)]
  }

  /** The value of a string of decimal digits, read most significant digit first. */
  function ParseNat(s: string): nat
    requires forall i :: 0 <= i < |s| ==> '0' <= s[i] <= '9'
  {
    if |s| == 0 then 0 else ParseNat(s[..|s| - 1]) * 10 + DigitValue(s[|s| - 1])
  }

  /** Reading back a rendered number gives the number. */
  lemma {:induction false} ParseNatToString(n: nat)
    ensures ParseNat(NatToString(n)) == n
  {
    if n >= 10 {
      var s := NatToString(n);
      assert s[..|s| - 1] == NatToString(n / 10);
      ParseNatToString(n / 10);
      assert DigitValue(s[|s| - 1]) == n % 10;
    }
  }

  /** Different numbers render to different strings. */
  lemma {:induction false} NatToStringInjective(m: nat, n: nat)
    requires NatToString(m) == NatToString(n)
    ensures m == n
  {
    ParseNatToString(m);
    ParseNatToString(n);
  }
}
