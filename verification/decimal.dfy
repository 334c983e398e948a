/** Decimal digit strings as the scraper reads and writes them: the character
    class `\d`, `str.isdigit`, `int(s)` on a run of digits, and `str(n)` on a
    page number. Digits are the ASCII characters '0' to '9'. */
module Decimal {
  import opened Wrappers

  predicate IsDigit(c: char) {
    '0' <= c <= '9'
  }

  predicate AllDigits(s: string) {
    forall i :: 0 <= i < |s| ==> IsDigit(s[i])
  }

  /** `s.isdigit()`: true only for a non-empty string of digits. */
  predicate IsDigitString(s: string) {
    |s| > 0 && AllDigits(s)
  }

  predicate HasDigit(s: string) {
    exists i :: 0 <= i < |s| && IsDigit(s[i])
  }

  function DigitValue(c: char): (d: nat)
    requires IsDigit(c)
    ensures d < 10
  {
    c as int - '0' as int
  }

  function DigitChar(d: nat): (c: char)
    requires d < 10
    ensures IsDigit(c) && DigitValue(c) == d
  {
    ('0' as int + d) as char
  }

  /** 10 to the power `k`. */
  function Pow10(k: nat): (p: nat)
    ensures p >= 1
  {
    if k == 0 then 1 else 10 * Pow10(k - 1)
  }

  /** `int(s)` for a string of digits; leading zeros are allowed. The empty
      string, which `int` rejects and no caller passes, is given 0 so that
      `ValueAppend` can split at any point. A string of k digits denotes a number below
      10^k, and one of at least 10^(k-1) when it does not start with '0'. */
  function Value(s: string): (v: nat)
    requires AllDigits(s)
    ensures v < Pow10(|s|)
    ensures |s| > 0 && s[0] != '0' ==> Pow10(|s| - 1) <= v
  {
    if s == [] then 0
    else
      var p := s[..|s| - 1];
      assert |p| > 0 ==> p[0] == s[0];
      Value(p) * 10 + DigitValue(s[|s| - 1])
  }

  lemma AllDigitsAppend(p: string, q: string)
    requires AllDigits(p) && AllDigits(q)
    ensures AllDigits(p + q)
  {
    var pq := p + q;
    forall i | 0 <= i < |pq| ensures IsDigit(pq[i]) {
      if i >= |p| { assert pq[i] == q[i - |p|]; }
    }
  }

  lemma Regroup(a: int, b: int, c: int, d: int)
    ensures (a * b + c) * 10 + d == a * (b * 10) + (c * 10 + d)
  {
  }

  /** Reading a string of digits in two parts: the digits of `q` are the
      low-order ones. */
  lemma {:induction false} ValueAppend(p: string, q: string)
    requires AllDigits(p) && AllDigits(q)
    ensures AllDigits(p + q)
    ensures Value(p + q) == Value(p) * Pow10(|q|) + Value(q)
    decreases |q|
  {
    AllDigitsAppend(p, q);
    var pq := p + q;
    if q == [] {
      assert pq == p;
    } else {
      var q' := q[..|q| - 1];
      assert pq[..|pq| - 1] == p + q';
      ValueAppend(p, q');
      var d := DigitValue(q[|q| - 1]);
      assert Value(pq) == Value(p + q') * 10 + d;
      assert Value(q) == Value(q') * 10 + d;
      assert Pow10(|q|) == Pow10(|q'|) * 10;
      Regroup(Value(p), Pow10(|q'|), Value(q'), d);
    }
  }

  /** Leading zeros do not change the value: `int("007") == 7`. */
  lemma LeadingZeroIgnored(s: string)
    requires AllDigits(s)
    ensures AllDigits(['0'] + s)
    ensures Value(['0'] + s) == Value(s)
  {
    assert Value(['0']) == 0 by {
      assert ['0'][..0] == [];
    }
    ValueAppend(['0'], s);
  }

  /** The form `str(n)` produces: digits only, no leading zero except in "0". */
  predicate IsCanonical(s: string) {
    IsDigitString(s) && (s[0] == '0' ==> |s| == 1)
  }

  /** `str(n)` for a natural number. */
  function ToDecimal(n: nat): (s: string)
    ensures IsCanonical(s)
    ensures s[0] == '0' <==> n == 0
  {
    if n < 10 then [DigitChar(n)] else ToDecimal(n / 10) + [DigitChar(n % 10)]
  }

  /** Reading back what `str` wrote gives the number again. */
  lemma {:induction false} ValueOfToDecimal(n: nat)
    ensures Value(ToDecimal(n)) == n
  {
    var s := ToDecimal(n);
    if n >= 10 {
      assert s[..|s| - 1] == ToDecimal(n / 10);
      ValueOfToDecimal(n / 10);
    }
  }

  /** A digit string without a leading zero has a positive value. */
  lemma {:induction false} ValuePositive(s: string)
    requires IsDigitString(s) && s[0] != '0'
    ensures Value(s) >= 1
  {
    if |s| > 1 {
      var p := s[..|s| - 1];
      assert p[0] == s[0];
      ValuePositive(p);
    }
  }

  /** Writing back what was read gives the string again, when it was in
      canonical form. */
  lemma {:induction false} ToDecimalOfValue(s: string)
    requires IsCanonical(s)
    ensures ToDecimal(Value(s)) == s
  {
    var last := s[|s| - 1];
    if |s| == 1 {
      assert s == [last];
    } else {
      var p := s[..|s| - 1];
      assert p[0] == s[0];
      ValuePositive(p);
      ToDecimalOfValue(p);
      assert s == p + [last];
    }
  }

  /** Distinct numbers have distinct decimal forms. */
  lemma ToDecimalInjective(m: nat, n: nat)
    requires ToDecimal(m) == ToDecimal(n)
    ensures m == n
  {
    ValueOfToDecimal(m);
    ValueOfToDecimal(n);
  }

  /** A half-open span `[start, end)` of a string. */
  datatype Run = Run(start: nat, end: nat)

  /** `[start, end)` is the leftmost maximal run of digits in `s`: nothing
      before it is a digit, all of it is, and it stops at the end of `s` or
      at a non-digit. */
  predicate IsFirstRun(s: string, start: nat, end: nat) {
    && start < end <= |s|
    && (forall i :: 0 <= i < start ==> !IsDigit(s[i]))
    && (forall i :: start <= i < end ==> IsDigit(s[i]))
    && (end == |s| || !IsDigit(s[end]))
  }

  /** Where the run of digits starting at `i` stops. */
  function RunEnd(s: string, i: nat): (e: nat)
    requires i <= |s|
    ensures i <= e <= |s|
    ensures forall k :: i <= k < e ==> IsDigit(s[k])
    ensures e == |s| || !IsDigit(s[e])
    decreases |s| - i
  {
    if i < |s| && IsDigit(s[i]) then RunEnd(s, i + 1) else i
  }

  function FirstRunFrom(s: string, i: nat): (r: Option<Run>)
    requires i <= |s|
    requires forall k :: 0 <= k < i ==> !IsDigit(s[k])
    ensures r.Some? ==> IsFirstRun(s, r.value.start, r.value.end)
    ensures r.None? ==> forall k :: 0 <= k < |s| ==> !IsDigit(s[k])
    decreases |s| - i
  {
    if i == |s| then None
    else if IsDigit(s[i]) then Some(Run(i, RunEnd(s, i)))
    else FirstRunFrom(s, i + 1)
  }

  /** `re.search(r"\d+", s)`: the leftmost maximal run of digits, if any. */
  function FirstRun(s: string): (r: Option<Run>)
    ensures r.Some? ==> IsFirstRun(s, r.value.start, r.value.end)
    ensures r.None? <==> !HasDigit(s)
  {
    var r := FirstRunFrom(s, 0);
    assert r.Some? ==> IsDigit(s[r.value.start]);
    r
  }

  /** There is at most one leftmost maximal run. */
  lemma FirstRunUnique(s: string, a: nat, b: nat, c: nat, d: nat)
    requires IsFirstRun(s, a, b) && IsFirstRun(s, c, d)
    ensures a == c && b == d
  {
    assert IsDigit(s[a]) && IsDigit(s[c]);
    if b < |s| {
      assert !IsDigit(s[b]);
    }
    if d < |s| {
      assert !IsDigit(s[d]);
    }
  }

  /** `FirstRun` finds exactly the leftmost maximal run. */
  lemma FirstRunExact(s: string, start: nat, end: nat)
    ensures FirstRun(s) == Some(Run(start, end)) <==> IsFirstRun(s, start, end)
  {
    if IsFirstRun(s, start, end) {
      assert IsDigit(s[start]);
      var r := FirstRun(s);
      FirstRunUnique(s, start, end, r.value.start, r.value.end);
    }
  }

  /** `int(re.search(r"\d+", s).group(0))`, or None when nothing matches. */
  function FirstNumber(s: string): (r: Option<nat>)
    ensures r.None? <==> !HasDigit(s)
  {
    match FirstRun(s)
    case None => None
    case Some(run) =>
      var digits := s[run.start..run.end];
      assert AllDigits(digits) by {
        forall i | 0 <= i < |digits| ensures IsDigit(digits[i]) {
          assert digits[i] == s[run.start + i];
        }
      }
      Some(Value(digits))
  }

  /** The number found is the value of the leftmost maximal digit run. */
  lemma FirstNumberOfRun(s: string, start: nat, end: nat)
    requires IsFirstRun(s, start, end)
    ensures AllDigits(s[start..end])
    ensures FirstNumber(s) == Some(Value(s[start..end]))
  {
    FirstRunExact(s, start, end);
    assert AllDigits(s[start..end]) by {
      forall i | 0 <= i < end - start ensures IsDigit(s[start..end][i]) {
        assert s[start..end][i] == s[start + i];
      }
    }
  }
}
