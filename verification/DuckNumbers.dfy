/** How DECIMAL and HUGEINT values are printed, in Go's 64-bit arithmetic (duckdb/duckdb.go). */
module DuckNumbers {
  import opened Decimal
  import opened Options

  const TWO63 := 0x8000_0000_0000_0000
  const TWO64 := 0x1_0000_0000_0000_0000

  type int64 = x: int | -TWO63 <= x < TWO63
  type uint64 = x: int | 0 <= x < TWO64

  const MIN: int64 := -TWO63

  function Neg(x: int): int {
    -x
  }

  function Wrap(x: int): int64 {
    (x + TWO63) % TWO64 - TWO63
  }

  /** Go's `/` and `%` truncate toward zero. */
  function Quotient(a: int, d: int): int
    requires d > 0
  {
    if a < 0 then Neg(Neg(a) / d) else a / d
  }

  function Remainder(a: int, d: int): int
    requires d > 0
  {
    if a < 0 then Neg(Neg(a) % d) else a % d
  }

  // ---- DECIMAL ----

  /** Sign, whole part, point, and the fraction with zeros in front up to `scale` digits. */
  function Assemble(sign: string, whole: string, fraction: string, scale: nat): string {
    sign + whole + "." + Zeros(if |fraction| < scale then scale - |fraction| else 0) + fraction
  }

  function Sign(v: int): string {
    if v < 0 then "-" else ""
  }

  /** The magnitude as the code computes it: negation wraps around. */
  function Magnitude(v: int64): int64 {
    if v < 0 then Wrap(Neg(v)) else v
  }

  function DecimalText(v: int64, scale: nat): string {
    Assemble(Sign(v), FormatInt(Quotient(Magnitude(v), Pow10(scale))),
             FormatInt(Remainder(Magnitude(v), Pow10(scale))), scale)
  }

  /** The formatting part of `readDecimalValue`. DuckDB keeps at most 18 digits in 64 bits. */
  method ReadDecimalValue(v: int64, scale: nat) returns (text: string)
    requires 1 <= scale <= 18
    ensures text == DecimalText(v, scale)
  {
    var negative := v < 0;
    var intVal := v;
    if negative {
      intVal := Wrap(Neg(intVal));
    }
    var divisor := PowerOfTen(scale);
    var whole := Quotient(intVal, divisor);
    var frac := Remainder(intVal, divisor);
    text := WriteParts(negative, FormatInt(whole), FormatInt(frac), scale);
  }

  /** The divisor loop; no product overflows. */
  method PowerOfTen(scale: nat) returns (divisor: int)
    requires scale <= 18
    ensures divisor == Pow10(scale)
  {
    divisor := 1;
    for i := 0 to scale
      invariant divisor == Pow10(i)
    {
      Pow10Fits(i + 1);
      divisor := Wrap(divisor * 10);
    }
  }

  /** The writes to the string builder. */
  method WriteParts(negative: bool, whole: string, fracStr: string, scale: nat) returns (result: string)
    ensures result == Assemble(if negative then "-" else "", whole, fracStr, scale)
  {
    result := "";
    if negative {
      result := result + "-";
    }
    result := result + whole;
    result := result + ".";
    ghost var head := result;
    var i := |fracStr|;
    while i < scale
      invariant |fracStr| <= i && (if |fracStr| < scale then i <= scale else i == |fracStr|)
      invariant result == head + Zeros(i - |fracStr|)
    {
      assert Zeros(i - |fracStr|) + ['0'] == Zeros(i + 1 - |fracStr|);
      result := result + ['0'];
      i := i + 1;
    }
    ghost var zeros := Zeros(if |fracStr| < scale then scale - |fracStr| else 0);
    assert result == head + zeros;
    assert head == (if negative then "-" else "") + whole + ".";
    result := result + fracStr;
  }

  lemma {:induction false} Pow10Grows(i: nat, j: nat)
    requires i <= j
    ensures Pow10(i) <= Pow10(j)
  {
    if i < j {
      Pow10Grows(i, j - 1);
    }
  }

  lemma {:induction false} Pow10Eighteen()
    ensures Pow10(18) == 1_000_000_000_000_000_000
    ensures Pow10(19) == 10_000_000_000_000_000_000
    ensures Pow10(20) == 100_000_000_000_000_000_000
  {
    assert Pow10(4) == 10_000;
    assert Pow10(8) == 100_000_000;
    assert Pow10(12) == 1_000_000_000_000;
    assert Pow10(16) == 10_000_000_000_000_000;
  }

  lemma {:induction false} Pow10Fits(i: nat)
    requires i <= 18
    ensures Pow10(i) < TWO63 && Wrap(Pow10(i)) == Pow10(i)
  {
    Pow10Grows(i, 18);
    Pow10Eighteen();
  }

  /** Reads `w.f` with exactly `scale` fraction digits as a multiple of 10^-scale. */
  function ParseBody(body: string, scale: nat): Option<nat> {
    if |body| < scale + 2 then None
    else
      var dot := |body| - scale - 1;
      if body[dot] == '.' && AllDigits(body[..dot]) && AllDigits(body[dot + 1..])
      then Some(Parse(body[..dot] + body[dot + 1..])) else None
  }

  /** Reads `-w.f` or `w.f`. */
  function ParseDecimal(s: string, scale: nat): Option<int> {
    if s != "" && s[0] == '-' then
      match ParseBody(s[1..], scale) case None => None case Some(n) => Some(Neg(n))
    else
      match ParseBody(s, scale) case None => None case Some(n) => Some(n)
  }

  lemma {:induction false} BodySlices(w: string, f: string)
    ensures var body := w + "." + f;
      |body| == |w| + 1 + |f| && body[..|w|] == w && body[|w|] == '.' && body[|w| + 1..] == f
  {
  }

  lemma {:induction false} ParseParts(w: string, f: string, scale: nat)
    requires w != "" && AllDigits(w) && AllDigits(f) && |f| == scale
    ensures ParseBody(w + "." + f, scale) == Some(Parse(w + f))
  {
    BodySlices(w, f);
  }

  lemma {:induction false} ParsePositive(body: string, scale: nat, n: nat)
    requires body != "" && body[0] != '-' && ParseBody(body, scale) == Some(n)
    ensures ParseDecimal(body, scale) == Some(n)
  {
  }

  lemma {:induction false} ParseNegative(body: string, scale: nat, n: nat)
    requires ParseBody(body, scale) == Some(n)
    ensures ParseDecimal("-" + body, scale) == Some(Neg(n))
  {
    assert ("-" + body)[1..] == body;
  }

  lemma {:induction false} SignFirst(sign: string, w: string, f: string)
    ensures sign + w + "." + f == sign + (w + "." + f)
    ensures "" + (w + "." + f) == w + "." + f
  {
  }

  lemma {:induction false} ParseSigned(v: int, w: string, f: string, scale: nat)
    requires w != "" && AllDigits(w) && AllDigits(f) && |f| == scale
    requires AllDigits(w + f) && Parse(w + f) == if v < 0 then Neg(v) else v
    ensures ParseDecimal(Sign(v) + w + "." + f, scale) == Some(v)
  {
    ParseParts(w, f, scale);
    SignFirst(Sign(v), w, f);
    if v < 0 {
      ParseNegative(w + "." + f, scale, Parse(w + f));
    } else {
      assert IsDigit(w[0]);
      ParsePositive(w + "." + f, scale, Parse(w + f));
    }
  }

  lemma {:induction false} MagnitudeExact(v: int64)
    requires v != MIN
    ensures Magnitude(v) == if v < 0 then Neg(v) else v
  {
  }

  lemma {:induction false} AssemblePadded(sign: string, whole: string, r: nat, scale: nat)
    ensures Assemble(sign, whole, Format(r), scale) == sign + whole + "." + Padded(r, scale)
  {
  }

  lemma {:induction false} DivisionParts(m: nat, d: nat)
    requires d > 0
    ensures m == (m / d) * d + m % d && m / d >= 0 && 0 <= m % d < d
    ensures Quotient(m, d) == m / d && Remainder(m, d) == m % d
  {
  }

  /** The text reads back as the value exactly when the value can be negated: one minus sign at most,
      exactly `scale` fraction digits, and all digits together are the integer. */
  lemma {:induction false} DecimalRoundTrip(v: int64, scale: nat)
    requires 1 <= scale <= 18
    ensures ParseDecimal(DecimalText(v, scale), scale) == Some(v) <==> v != MIN
  {
    if v == MIN {
      SmallestHasTwoSigns(scale);
    } else {
      MagnitudeExact(v);
      DivisionParts(Magnitude(v), Pow10(scale));
      var q: nat, r: nat := Magnitude(v) / Pow10(scale), Magnitude(v) % Pow10(scale);
      DecimalOfParts(v, scale, q, r);
    }
  }

  lemma {:induction false} DecimalOfParts(v: int64, scale: nat, q: nat, r: nat)
    requires 1 <= scale && r < Pow10(scale) && q * Pow10(scale) + r == if v < 0 then Neg(v) else v
    requires q == Quotient(Magnitude(v), Pow10(scale)) && r == Remainder(Magnitude(v), Pow10(scale))
    ensures ParseDecimal(DecimalText(v, scale), scale) == Some(v)
  {
    AssemblePadded(Sign(v), Format(q), r, scale);
    ParseFormat(q);
    ParsePadded(r, scale);
    ParseConcat(Format(q), Padded(r, scale));
    ParseSigned(v, Format(q), Padded(r, scale), scale);
  }

  /** The smallest int64 is its own negation and prints with two minus signs. */
  lemma {:induction false} SmallestHasTwoSigns(scale: nat)
    requires 1 <= scale <= 18
    ensures ParseDecimal(DecimalText(MIN, scale), scale) == None
  {
    var d := Pow10(scale);
    Pow10Fits(scale);
    assert Magnitude(MIN) == MIN;
    NegativeQuotient(TWO63, d);
    TwoSigns(FormatInt(Quotient(MIN, d)), FormatInt(Remainder(MIN, d)), scale);
  }

  /** The text has a sign exactly for a negative value. */
  lemma {:induction false} DecimalSigned(v: int64, scale: nat)
    requires 1 <= scale <= 18
    ensures var s := DecimalText(v, scale); s != "" && (s[0] == '-' <==> v < 0)
  {
    var s, d := DecimalText(v, scale), Pow10(scale);
    var whole := FormatInt(Quotient(Magnitude(v), d));
    if v >= 0 {
      DivisionParts(v, d);
      ParseFormat(v / d);
      assert s[0] == whole[0] && IsDigit(whole[0]);
    } else {
      assert s[0] == Sign(v)[0];
    }
  }

  lemma {:induction false} TwoSigned(whole: string, fraction: string, scale: nat)
    ensures Assemble("-", "-" + whole, fraction, scale)
         == "--" + whole + "." + Zeros(if |fraction| < scale then scale - |fraction| else 0) + fraction
  {
    assert "-" + ("-" + whole) == "--" + whole;
  }

  /** What is printed for the smallest int64: a minus sign in front of the signed quotient, and one in
      front of the fraction's digits. */
  lemma {:induction false} SmallestText(scale: nat, whole: nat, rest: nat)
    requires 1 <= scale <= 18 && whole == TWO63 / Pow10(scale) && rest == TWO63 % Pow10(scale)
    ensures var fraction := if rest == 0 then "0" else "-" + Format(rest);
      DecimalText(MIN, scale)
      == "--" + Format(whole) + "." + Zeros(if |fraction| < scale then scale - |fraction| else 0) + fraction
  {
    var d := Pow10(scale);
    Pow10Fits(scale);
    NegativeQuotient(TWO63, d);
    assert Magnitude(MIN) == MIN && Quotient(MIN, d) == Neg(whole) && Remainder(MIN, d) == Neg(rest);
    assert FormatInt(Neg(whole)) == "-" + Format(whole);
    SmallestFraction(rest);
    TwoSigned(Format(whole), FormatInt(Neg(rest)), scale);
  }

  lemma {:induction false} SmallestFraction(rest: nat)
    ensures FormatInt(Neg(rest)) == if rest == 0 then "0" else "-" + Format(rest)
  {
  }

  lemma {:induction false} NegativeQuotient(n: int, d: int)
    requires 0 < d <= n
    ensures n / d >= 1 && FormatInt(Quotient(-n, d))[0] == '-'
  {
    assert n / d >= 1;
  }

  lemma {:induction false} TwoSigns(whole: string, fraction: string, scale: nat)
    requires whole != "" && whole[0] == '-'
    ensures ParseDecimal(Assemble("-", whole, fraction, scale), scale) == None
  {
    var s := Assemble("-", whole, fraction, scale);
    assert s[0] == '-' && s[1] == whole[0];
    var body := s[1..];
    assert body[0] == '-';
    if |body| >= scale + 2 {
      assert !IsDigit(body[..|body| - scale - 1][0]);
    }
  }

  // ---- HUGEINT ----

  /** `hugeintToString`; `^x` on uint64 is 2^64 - 1 - x. */
  function HugeintText(upper: int64, lower: uint64): string {
    if upper == 0 then Format(lower)
    else if upper < 0 then
      if lower == 0 then "-" + FormatInt(Wrap(Neg(upper))) + "0000000000000000000"
      else
        var negLower := (TWO64 - 1 - lower + 1) % TWO64;
        var flipped := TWO64 - 1 - (upper + TWO64);
        var negUpper := if negLower == 0 then (flipped + 1) % TWO64 else flipped;
        if negUpper == 0 then "-" + Format(negLower)
        else "-" + Format(negUpper) + Padded(negLower, 20)
    else Format(upper) + Padded(lower, 20)
  }

  /** The text is the decimal notation of an integer, leading zeros allowed. */
  predicate Denotes(s: string, v: int) {
    if s != "" && s[0] == '-' then |s| > 1 && AllDigits(s[1..]) && v == Neg(Parse(s[1..]))
    else s != "" && AllDigits(s) && v == Parse(s)
  }

  lemma {:induction false} ParseTwoParts(high: nat, low: nat)
    requires low < TWO64
    ensures var s := Format(high) + Padded(low, 20);
      s != "" && s[0] != '-' && AllDigits(s) && Parse(s) == high * Pow10(20) + low
  {
    Pow10Eighteen();
    ParseFormat(high);
    ParsePadded(low, 20);
    ParseConcat(Format(high), Padded(low, 20));
    assert IsDigit(Format(high)[0]);
  }

  lemma {:induction false} NegatedText(s: string, v: int)
    requires s != "" && AllDigits(s)
    ensures Denotes("-" + s, v) <==> v == Neg(Parse(s))
  {
    assert ("-" + s)[1..] == s;
  }

  lemma {:induction false} Associate(a: string, b: string, c: string)
    ensures a + b + c == a + (b + c)
  {
  }

  lemma {:induction false} NegatedUpper(upper: int64)
    requires upper < 0
    ensures FormatInt(Wrap(Neg(upper))) == (if upper == MIN then "-" else "") + Format(Neg(upper))
  {
    WrapNegated(upper);
    assert "" + Format(Neg(upper)) == Format(Neg(upper));
  }

  lemma {:induction false} WrapNegated(upper: int64)
    requires upper < 0
    ensures Wrap(Neg(upper)) == if upper == MIN then MIN else Neg(upper)
  {
  }

  lemma {:induction false} RoundUpperText(upper: int64)
    requires upper < 0
    ensures !Denotes("-" + FormatInt(Wrap(Neg(upper))) + "0000000000000000000", upper * TWO64)
  {
    var digits := Format(Neg(upper));
    NegatedUpper(upper);
    if upper == MIN {
      TwoMinuses(digits, "0000000000000000000", upper * TWO64);
    } else {
      assert "" + digits == digits;
      OneMinus(Neg(upper));
    }
  }

  lemma {:induction false} OneMinus(n: nat)
    requires n > 0
    ensures !Denotes("-" + Format(n) + "0000000000000000000", Neg(n * TWO64))
  {
    RoundDigits(n);
    Associate("-", Format(n), "0000000000000000000");
    NegatedText(Format(n) + "0000000000000000000", Neg(n * TWO64));
  }

  lemma {:induction false} TwoMinuses(digits: string, zeros: string, v: int)
    ensures !Denotes("-" + ("-" + digits) + zeros, v)
  {
    var s := "-" + ("-" + digits) + zeros;
    assert s[0] == '-' && s[1..][0] == '-';
  }

  lemma {:induction false} RoundDigits(n: nat)
    requires n > 0
    ensures AllDigits(Format(n) + "0000000000000000000")
    ensures Parse(Format(n) + "0000000000000000000") != n * TWO64
  {
    var zeros := "0000000000000000000";
    ParseFormat(n);
    assert zeros == Zeros(19);
    ParseZeros(19);
    ParseConcat(Format(n), zeros);
    Pow10Eighteen();
  }

  /** Both words of a negative value, -(high * 2^64 + low) with low > 0. */
  lemma {:induction false} NegativeParts(high: nat, low: nat)
    requires 0 < low < TWO64
    ensures var text := "-" + if high == 0 then Format(low) else Format(high) + Padded(low, 20);
      Denotes(text, Neg(high * TWO64 + low)) <==> high == 0
  {
    if high == 0 {
      ParseFormat(low);
      NegatedText(Format(low), Neg(low));
    } else {
      ParseTwoParts(high, low);
      NegatedText(Format(high) + Padded(low, 20), Neg(high * TWO64 + low));
      Pow10Eighteen();
    }
  }

  /** Two's complement negation over both words, the lower one not 0. */
  lemma {:induction false} NegatedWords(upper: int64, lower: uint64)
    requires upper < 0 < lower
    ensures (TWO64 - 1 - lower + 1) % TWO64 == TWO64 - lower
    ensures TWO64 - 1 - (upper + TWO64) == Neg(upper) - 1
  {
  }

  lemma {:induction false} NegativeText(upper: int64, lower: uint64)
    requires upper < 0 < lower
    ensures var high, low := Neg(upper) - 1, TWO64 - lower;
      HugeintText(upper, lower) == "-" + if high == 0 then Format(low) else Format(high) + Padded(low, 20)
  {
    NegatedWords(upper, lower);
    Associate("-", Format(Neg(upper) - 1), Padded(TWO64 - lower, 20));
  }

  lemma {:induction false} NegativeUpper(upper: int64, lower: uint64)
    requires upper < 0 < lower
    ensures Denotes(HugeintText(upper, lower), upper * TWO64 + lower) <==> upper == -1
  {
    var high, low := Neg(upper) - 1, TWO64 - lower;
    NegativeParts(high, low);
    NegativeText(upper, lower);
    assert upper * TWO64 + lower == Neg(high * TWO64 + low);
  }

  lemma {:induction false} ZeroUpper(lower: uint64)
    ensures Denotes(HugeintText(0, lower), lower)
  {
    ParseFormat(lower);
    assert IsDigit(Format(lower)[0]);
  }

  lemma {:induction false} PositiveUpper(upper: int64, lower: uint64)
    requires upper > 0
    ensures !Denotes(HugeintText(upper, lower), upper * TWO64 + lower)
  {
    ParseTwoParts(upper, lower);
    Pow10Eighteen();
  }

  /** The text denotes upper * 2^64 + lower exactly when that is below 2^64 in absolute value: the
      code joins the two words in base 10^20 (10^19 for round negative values), not 2^64. */
  lemma {:induction false} HugeintExact(upper: int64, lower: uint64)
    ensures Denotes(HugeintText(upper, lower), upper * TWO64 + lower)
       <==> -TWO64 < upper * TWO64 + lower < TWO64
  {
    if upper == 0 {
      ZeroUpper(lower);
    } else if upper > 0 {
      PositiveUpper(upper, lower);
    } else if lower == 0 {
      RoundUpperText(upper);
    } else {
      NegativeUpper(upper, lower);
    }
  }

  /** The words, or those of the absolute value, joined in base `p`; a negative multiple of 2^64 in
      base `q`. */
  function Joined(upper: int64, lower: uint64, p: nat, q: nat): int {
    if upper >= 0 then upper * p + lower
    else if lower > 0 then Neg((Neg(upper) - 1) * p + (TWO64 - lower))
    else Neg(Neg(upper) * q)
  }

  /** What the text denotes: the words joined in base 10^20 and 10^19. The text for -2^127 has two signs
      and denotes nothing. */
  lemma {:induction false} HugeintDenotes(upper: int64, lower: uint64, p: nat, q: nat)
    requires p == Pow10(20) && q == Pow10(19) && (upper > MIN || lower > 0)
    ensures Denotes(HugeintText(upper, lower), Joined(upper, lower, p, q))
  {
    if upper == 0 {
      ZeroUpper(lower);
    } else if upper > 0 {
      ParseTwoParts(upper, lower);
    } else if lower > 0 {
      NegativeText(upper, lower);
      NegativeDenotes(Neg(upper) - 1, TWO64 - lower, p);
    } else {
      RoundUpperDenotes(upper, q);
    }
  }

  lemma {:induction false} RoundUpperDenotes(upper: int64, q: nat)
    requires MIN < upper < 0 && q == Pow10(19)
    ensures Denotes(HugeintText(upper, 0), Neg(Neg(upper) * q))
  {
    NegatedUpper(upper);
    RoundDenotes(Neg(upper), q);
    assert "" + Format(Neg(upper)) == Format(Neg(upper));
  }

  lemma {:induction false} NegativeDenotes(high: nat, low: nat, p: nat)
    requires 0 < low < TWO64 && p == Pow10(20)
    ensures var text := "-" + if high == 0 then Format(low) else Format(high) + Padded(low, 20);
      Denotes(text, Neg(high * p + low))
  {
    if high == 0 {
      ParseFormat(low);
      NegatedText(Format(low), Neg(low));
    } else {
      ParseTwoParts(high, low);
      NegatedText(Format(high) + Padded(low, 20), Neg(high * p + low));
    }
  }

  lemma {:induction false} RoundDenotes(n: nat, p: nat)
    requires n > 0 && p == Pow10(19)
    ensures Denotes("-" + Format(n) + "0000000000000000000", Neg(n * p))
  {
    var zeros := "0000000000000000000";
    ParseFormat(n);
    assert zeros == Zeros(19);
    ParseZeros(19);
    ParseConcat(Format(n), zeros);
    Associate("-", Format(n), zeros);
    NegatedText(Format(n) + zeros, Neg(n * p));
  }

  /** 2^64, upper 1 and lower 0, prints as 10^20. */
  lemma {:induction false} HugeintOfTwo64()
    ensures Denotes(HugeintText(1, 0), Pow10(20)) && Pow10(20) != TWO64
    ensures !Denotes(HugeintText(1, 0), TWO64)
  {
    ParseTwoParts(1, 0);
    Pow10Eighteen();
    HugeintExact(1, 0);
  }
}
