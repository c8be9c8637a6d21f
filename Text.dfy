/**
 * The two text operations rule 1 applies to the `ACTIVATION COMPLETE`
 * column: a substring test (`str.contains`) and the extraction of the first
 * run of decimal digits (`str.extract(r'(\d+)')`) read as a number.
 */
module Text {
  import opened Wrappers

  predicate IsDigit(c: char) {
    '0' <= c <= '9'
  }

  function DigitValue(c: char): nat
    requires IsDigit(c)
  {
    (c as int) - ('0' as int)
  }

  predicate AllDigits(d: string) {
    forall k :: 0 <= k < |d| ==> IsDigit(d[k])
  }

  /** `p` occurs in `s` as a contiguous piece, scanning start positions left to right. */
  predicate Contains(s: string, p: string)
    ensures Contains(s, p) ==> |p| <= |s|
    decreases |s|
  {
    (|p| <= |s| && s[..|p|] == p) || (|s| > 0 && Contains(s[1..], p))
  }

  /** `p` sits in `s` starting at position `i`. */
  predicate OccursAt(s: string, p: string, i: int) {
    0 <= i <= |s| - |p| && s[i..i + |p|] == p
  }

  /** The scan of Contains finds `p` exactly when `p` sits at some position of `s`. */
  lemma {:induction false} ContainsIffOccurs(s: string, p: string)
    ensures Contains(s, p) <==> exists i :: OccursAt(s, p, i)
    decreases |s|
  {
    if |p| <= |s| && s[..|p|] == p {
      assert OccursAt(s, p, 0);
    } else if |s| > 0 {
      ContainsIffOccurs(s[1..], p);
      if Contains(s[1..], p) {
        var j :| OccursAt(s[1..], p, j);
        SliceOfTail(s, j, j + |p|);
        assert OccursAt(s, p, j + 1);
      }
      if i :| OccursAt(s, p, i) {
        assert i != 0;
        SliceOfTail(s, i - 1, i - 1 + |p|);
        assert OccursAt(s[1..], p, i - 1);
      }
    }
  }

  lemma SliceOfTail(s: string, a: int, b: int)
    requires 0 <= a <= b <= |s| - 1
    ensures s[1..][a..b] == s[a + 1..b + 1]
  {
  }

  /** The longest prefix of `s` made only of digits (the greedy `\d+`). */
  function LeadingDigits(s: string): (d: string)
    ensures |d| <= |s| && d == s[..|d|]
    ensures AllDigits(d)
    ensures |d| == |s| || !IsDigit(s[|d|])
  {
    if |s| > 0 && IsDigit(s[0]) then [s[0]] + LeadingDigits(s[1..]) else []
  }

  /** A digit string read in base ten, most significant digit first (`float("045")`). */
  function DecimalValue(d: string): (v: nat)
    requires AllDigits(d)
    ensures v == 0 <==> forall k :: 0 <= k < |d| ==> d[k] == '0'
  {
    if d == [] then 0
    else
      var init := d[..|d| - 1];
      assert forall k :: 0 <= k < |init| ==> init[k] == d[k];
      10 * DecimalValue(init) + DigitValue(d[|d| - 1])
  }

  /** Leading zeros do not change the number a digit run is read as. */
  lemma {:induction false} LeadingZeroIgnored(d: string)
    requires AllDigits(d)
    ensures AllDigits(['0'] + d) && DecimalValue(['0'] + d) == DecimalValue(d)
  {
    if d != [] {
      var z := ['0'] + d;
      assert z[..|z| - 1] == ['0'] + d[..|d| - 1];
      LeadingZeroIgnored(d[..|d| - 1]);
    }
  }

  /** The first maximal run of digits in `s`, read as a number; None when `s` holds no digit. */
  function FirstDigitRun(s: string): (r: Option<nat>)
    ensures r.None? <==> forall k :: 0 <= k < |s| ==> !IsDigit(s[k])
  {
    if |s| == 0 then None
    else if IsDigit(s[0]) then Some(DecimalValue(LeadingDigits(s)))
    else FirstDigitRun(s[1..])
  }

  /** FirstDigitRun reads the run that starts at the first digit of `s`, and no later one. */
  lemma {:induction false} FirstDigitRunStartsAtFirstDigit(s: string, i: nat)
    requires i < |s| && IsDigit(s[i])
    requires forall k :: 0 <= k < i ==> !IsDigit(s[k])
    ensures FirstDigitRun(s) == Some(DecimalValue(LeadingDigits(s[i..])))
  {
    if i == 0 {
      assert s[0..] == s;
    } else {
      assert s[1..][i - 1..] == s[i..];
      FirstDigitRunStartsAtFirstDigit(s[1..], i - 1);
    }
  }

  /** `str.extract(...).astype(float).fillna(0)`: the first digit run, or 0 when there is none. */
  function ExtractedNumber(s: string): (n: nat)
    ensures (forall k :: 0 <= k < |s| ==> !IsDigit(s[k])) ==> n == 0
  {
    match FirstDigitRun(s)
    case None => 0
    case Some(v) => v
  }

  /** A text starting with `p` contains `p`. */
  lemma ContainsPrefix(p: string, s: string)
    ensures Contains(p + s, p)
  {
    assert (p + s)[..|p|] == p;
  }

  /** A text that lacks some character of `p` does not contain `p`. */
  lemma MissingCharNotContained(s: string, p: string, c: char)
    requires c in p && c !in s
    ensures !Contains(s, p)
  {
    ContainsIffOccurs(s, p);
  }

  /** A maximal digit run `d` after digit-free text `p` is the run FirstDigitRun reads. */
  lemma FirstDigitRunAfter(p: string, d: string, rest: string)
    requires forall k :: 0 <= k < |p| ==> !IsDigit(p[k])
    requires d != [] && AllDigits(d)
    requires rest == [] || !IsDigit(rest[0])
    ensures AllDigits(d) && FirstDigitRun(p + d + rest) == Some(DecimalValue(d))
  {
    var s := p + d + rest;
    assert s[|p|..] == d + rest;
    assert s[|p|] == d[0];
    assert forall k :: 0 <= k < |p| ==> s[k] == p[k];
    FirstDigitRunStartsAtFirstDigit(s, |p|);
    LeadingDigitsOfRun(d, rest);
  }

  lemma {:induction false} LeadingDigitsOfRun(d: string, rest: string)
    requires AllDigits(d)
    requires rest == [] || !IsDigit(rest[0])
    ensures LeadingDigits(d + rest) == d
  {
    if d != [] {
      assert (d + rest)[1..] == d[1..] + rest;
      LeadingDigitsOfRun(d[1..], rest);
    } else {
      assert d + rest == rest;
    }
  }

  lemma OneDigit(a: char)
    requires IsDigit(a)
    ensures AllDigits([a]) && DecimalValue([a]) == DigitValue(a)
  {
    assert [a][..0] == [];
  }

  /** A two-digit run is read as tens and units. */
  lemma TwoDigits(a: char, b: char)
    requires IsDigit(a) && IsDigit(b)
    ensures AllDigits([a, b]) && DecimalValue([a, b]) == 10 * DigitValue(a) + DigitValue(b)
  {
    assert [a, b][..1] == [a];
    OneDigit(a);
  }
}
