/** Decimal notation of natural numbers, as Python's `str(int)` and Go's `strconv.FormatUint`
    write it, and its reading back. */
module Decimal {

  predicate IsDigit(c: char) {
    '0' <= c <= '9'
  }

  predicate AllDigits(s: string) {
    forall i :: 0 <= i < |s| ==> IsDigit(s[i])
  }

  function DigitChar(d: nat): (c: char)
    requires d < 10
    ensures IsDigit(c) && DigitValue(c) == d
  {
    '0' + d as char
  }

  function DigitValue(c: char): (d: nat)
    requires IsDigit(c)
    ensures d < 10
  {
    (c as int) - ('0' as int)
  }

  function Format(n: nat): string {
    if n < 10 then [DigitChar(n)] else Format(n / 10) + [DigitChar(n % 10)]
  }

  function Parse(s: string): nat
    requires AllDigits(s)
  {
    if s == "" then 0 else 10 * Parse(s[..|s| - 1]) + DigitValue(s[|s| - 1])
  }

  function Pow10(k: nat): (p: nat)
    ensures p > 0
  {
    if k == 0 then 1 else 10 * Pow10(k - 1)
  }

  /** Reading back what was written gives the number again; no leading zero is written. */
  lemma {:induction false} ParseFormat(n: nat)
    ensures Format(n) != "" && AllDigits(Format(n)) && Parse(Format(n)) == n
    ensures Format(n)[0] == '0' <==> n == 0
  {
    if n >= 10 {
      ParseFormat(n / 10);
      var s := Format(n);
      assert s[..|s| - 1] == Format(n / 10);
    } else {
      assert Format(n)[..0] == "";
    }
  }

  lemma {:induction false} FormatInjective(m: nat, n: nat)
    ensures Format(m) == Format(n) <==> m == n
  {
    ParseFormat(m);
    ParseFormat(n);
  }

  /** A number below 10^k takes at most k digits. */
  lemma {:induction false} FormatLength(n: nat, k: nat)
    requires k >= 1 && n < Pow10(k)
    ensures 1 <= |Format(n)| <= k
  {
    if n >= 10 {
      FormatLength(n / 10, k - 1);
    }
  }

  lemma {:induction false} Regroup(x: nat, p: nat, y: nat, d: nat)
    ensures 10 * (x * p + y) + d == x * (10 * p) + (10 * y + d)
  {
  }

  /** Positional value of a concatenation. */
  lemma {:induction false} ParseConcat(a: string, b: string)
    requires AllDigits(a) && AllDigits(b)
    ensures AllDigits(a + b) && Parse(a + b) == Parse(a) * Pow10(|b|) + Parse(b)
  {
    if b == "" {
      assert a + b == a;
    } else {
      var b' := b[..|b| - 1];
      ParseConcat(a, b');
      assert (a + b)[..|a + b| - 1] == a + b';
      Regroup(Parse(a), Pow10(|b'|), Parse(b'), DigitValue(b[|b| - 1]));
    }
  }

  function Zeros(k: nat): (s: string)
    ensures |s| == k
  {
    seq(k, i => '0')
  }

  lemma {:induction false} ParseZeros(k: nat)
    ensures AllDigits(Zeros(k)) && Parse(Zeros(k)) == 0
  {
    if k > 0 {
      assert Zeros(k)[..k - 1] == Zeros(k - 1);
      ParseZeros(k - 1);
    }
  }

  /** Zero padding on the left, Go's `%0<k>d`: the value stays, the width is at least k. */
  function Padded(n: nat, k: nat): string {
    Zeros(if |Format(n)| < k then k - |Format(n)| else 0) + Format(n)
  }

  lemma {:induction false} ParseZeroPrefixed(z: nat, s: string)
    requires AllDigits(s)
    ensures AllDigits(Zeros(z) + s) && Parse(Zeros(z) + s) == Parse(s)
  {
    ParseZeros(z);
    ParseConcat(Zeros(z), s);
  }

  lemma {:induction false} ParsePadded(n: nat, k: nat)
    requires k >= 1 && n < Pow10(k)
    ensures AllDigits(Padded(n, k)) && |Padded(n, k)| == k && Parse(Padded(n, k)) == n
  {
    FormatLength(n, k);
    ParseFormat(n);
    ParseZeroPrefixed(k - |Format(n)|, Format(n));
  }

  /** Signed notation: a minus sign before the digits of the absolute value. */
  function FormatInt(v: int): string {
    if v < 0 then "-" + Format(-v) else Format(v)
  }
}
