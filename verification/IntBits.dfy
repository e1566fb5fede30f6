/** Integer operators as Python defines them on unbounded integers, and how they relate to 64-bit
    words. */
module IntBits {
  import opened Arithmetic

  datatype BitOp = BitOr | BitAnd | BitXor

  function OnBits(op: BitOp, x: int, y: int): (r: int)
    requires x in {0, 1} && y in {0, 1}
    ensures r in {0, 1}
  {
    match op
    case BitOr => if x == 1 || y == 1 then 1 else 0
    case BitAnd => if x == 1 && y == 1 then 1 else 0
    case BitXor => if x != y then 1 else 0
  }

  function Magnitude(a: int): nat {
    if a >= 0 then a else -a - 1
  }

  /** `|`, `&` and `^` on two's complement of unbounded width: 0 and -1 repeat their bit forever. */
  function Bitwise(op: BitOp, a: int, b: int): int
    decreases Magnitude(a) + Magnitude(b)
  {
    if a in {0, -1} && b in {0, -1} then -OnBits(op, -a, -b)
    else 2 * Bitwise(op, a / 2, b / 2) + OnBits(op, a % 2, b % 2)
  }

  function Pow2(k: nat): (p: nat)
    ensures p > 0
  {
    if k == 0 then 1 else 2 * Pow2(k - 1)
  }

  /** C's `/`, as the evaluator writes it: the quotient of the absolute values with the sign. */
  function TruncatedDiv(a: int, b: int): int
    requires b != 0
  {
    var q := Abs(a) / Abs(b);
    if (a < 0) != (b < 0) then -q else q
  }

  /** Python's `%`: the remainder has the sign of the divisor. */
  function FloorMod(a: int, b: int): int
    requires b != 0
  {
    if b > 0 then a % b else -((-a) % (-b))
  }

  /** C's `%`: what truncated division leaves over (section 6.5.5 of ISO/IEC 9899:2011). */
  function CRemainder(a: int, b: int): int
    requires b != 0
  {
    a - TruncatedDiv(a, b) * b
  }

  lemma {:induction false} NegatedProduct(x: int, y: int)
    ensures (-x) * y == -(x * y) && x * (-y) == -(x * y) && (-x) * (-y) == x * y
  {
  }

  function Abs(a: int): nat {
    if a < 0 then -a else a
  }

  lemma {:induction false} DivisionTheorem(m: nat, n: nat)
    requires n > 0
    ensures m == (m / n) * n + m % n
  {
  }

  lemma {:induction false} TruncatedProduct(a: int, b: int)
    requires b != 0
    ensures var whole := (Abs(a) / Abs(b)) * Abs(b); TruncatedDiv(a, b) * b == if a < 0 then -whole else whole
  {
    var q, n := Abs(a) / Abs(b), Abs(b);
    NegatedProduct(q, n);
    if b < 0 {
      assert b == -n;
      assert TruncatedDiv(a, b) * b == if a < 0 then q * (-n) else (-q) * (-n);
    } else {
      assert b == n;
      assert TruncatedDiv(a, b) * b == if a < 0 then (-q) * n else q * n;
    }
  }

  lemma {:induction false} CRemainderValue(a: int, b: int)
    requires b != 0
    ensures CRemainder(a, b) == if a < 0 then -(Abs(a) % Abs(b)) else Abs(a) % Abs(b)
  {
    DivisionTheorem(Abs(a), Abs(b));
    TruncatedProduct(a, b);
  }

  lemma {:induction false} FloorModValue(a: int, b: int)
    requires b != 0
    ensures var r, n := Abs(a) % Abs(b), Abs(b);
      FloorMod(a, b) == if r == 0 then 0
                        else if a >= 0 then (if b > 0 then r else r - n)
                        else (if b > 0 then n - r else -r)
    ensures a % b == 0 <==> Abs(a) % Abs(b) == 0
  {
    NegatedRemainder(Abs(a), Abs(b));
    SignedDivisor(a, b);
  }

  /** The evaluator's `%` is C's exactly when the remainder is zero or the signs agree. */
  lemma {:induction false} ModuloMeetsC(a: int, b: int)
    requires b != 0
    ensures FloorMod(a, b) == CRemainder(a, b) <==> a % b == 0 || (a < 0 <==> b < 0)
  {
    CRemainderValue(a, b);
    FloorModValue(a, b);
  }

  lemma {:induction false} NegatedRemainder(m: int, n: int)
    requires n > 0
    ensures (-m) % n == if m % n == 0 then 0 else n - m % n
  {
    var q, r := m / n, m % n;
    if r == 0 {
      assert -m == (-q) * n + 0;
      QuotientUnique(-m, n, -q, 0);
    } else {
      assert -m == (-q - 1) * n + (n - r);
      QuotientUnique(-m, n, -q - 1, n - r);
    }
  }

  lemma {:induction false} SignedDivisor(a: int, b: int)
    requires b != 0
    ensures a % b == a % (if b < 0 then -b else b)
  {
    if b < 0 {
      var q := a / b;
      assert a == (-q) * (-b) + a % b;
      QuotientUnique(a, -b, -q, a % b);
    }
  }

  lemma {:induction false} QuotientUnique(a: int, n: int, q: int, r: int)
    requires n > 0 && a == q * n + r && 0 <= r < n
    ensures a / n == q && a % n == r
  {
    var d := a / n - q;
    assert d * n == r - a % n;
    ProductSign(d, n);
  }

  // ---- congruence modulo 2^k ----

  predicate Congruent(a: int, b: int, n: nat) {
    n > 0 && a % n == b % n
  }

  lemma {:induction false} CongruentBy(a: int, b: int, n: nat, k: int)
    requires n > 0 && a == b + k * n
    ensures Congruent(a, b, n)
  {
    assert a == (k + b / n) * n + b % n;
    QuotientUnique(a, n, k + b / n, b % n);
  }

  lemma {:induction false} CongruentWitness(a: int, b: int, n: nat) returns (k: int)
    requires Congruent(a, b, n)
    ensures a == b + k * n
  {
    k := a / n - b / n;
    assert k * n == (a / n) * n - (b / n) * n;
  }

  lemma {:induction false} CongruentSum(a: int, a': int, b: int, b': int, n: nat)
    requires Congruent(a, a', n) && Congruent(b, b', n)
    ensures Congruent(a + b, a' + b', n) && Congruent(a - b, a' - b', n)
  {
    var j := CongruentWitness(a, a', n);
    var k := CongruentWitness(b, b', n);
    assert (j + k) * n == j * n + k * n && (j - k) * n == j * n - k * n;
    CongruentBy(a + b, a' + b', n, j + k);
    CongruentBy(a - b, a' - b', n, j - k);
  }

  lemma {:induction false} CongruentScaled(a: int, a': int, b: int, n: nat)
    requires Congruent(a, a', n)
    ensures Congruent(a * b, a' * b, n)
  {
    var j := CongruentWitness(a, a', n);
    assert (a' + j * n) * b == a' * b + (j * b) * n;
    CongruentBy(a * b, a' * b, n, j * b);
  }

  lemma {:induction false} CongruentProduct(a: int, a': int, b: int, b': int, n: nat)
    requires Congruent(a, a', n) && Congruent(b, b', n)
    ensures Congruent(a * b, a' * b', n)
  {
    CongruentScaled(a, a', b, n);
    CongruentScaled(b, b', a', n);
  }

  lemma {:induction false} ModCongruent(a: int, n: nat)
    requires n > 0
    ensures Congruent(a % n, a, n)
  {
    QuotientUnique(a % n, n, 0, a % n);
  }

  /** Splitting off the low bit: a mod 2^(k+1) is twice the upper part mod 2^k plus the bit. */
  lemma {:induction false} LowBit(a: int, k: nat)
    ensures a % Pow2(k + 1) == 2 * ((a / 2) % Pow2(k)) + a % 2
  {
    var p := Pow2(k);
    var h := a / 2;
    assert a == 2 * h + a % 2 && h == (h / p) * p + h % p;
    assert a == (h / p) * (2 * p) + (2 * (h % p) + a % 2);
    QuotientUnique(a, 2 * p, h / p, 2 * (h % p) + a % 2);
  }

  lemma {:induction false} CongruentHalves(a: int, b: int, k: nat)
    ensures Congruent(a, b, Pow2(k + 1)) <==> a % 2 == b % 2 && Congruent(a / 2, b / 2, Pow2(k))
  {
    LowBit(a, k);
    LowBit(b, k);
  }

  lemma {:induction false} BitwiseHalves(op: BitOp, a: int, b: int)
    ensures Bitwise(op, a, b) / 2 == Bitwise(op, a / 2, b / 2)
    ensures Bitwise(op, a, b) % 2 == OnBits(op, a % 2, b % 2)
  {
    if a in {0, -1} && b in {0, -1} {
      assert a / 2 == a && b / 2 == b;
    }
  }

  lemma {:induction false} CongruentFromHalves(a: int, b: int, g: int, h: int, k: nat)
    requires a / 2 == g && b / 2 == h && a % 2 == b % 2 && Congruent(g, h, Pow2(k))
    ensures Congruent(a, b, Pow2(k + 1))
  {
    CongruentHalves(a, b, k);
  }

  /** Bitwise operators depend, modulo 2^k, only on their operands modulo 2^k. */
  lemma {:induction false} BitwiseCongruent(op: BitOp, a: int, a': int, b: int, b': int, k: nat)
    requires Congruent(a, a', Pow2(k)) && Congruent(b, b', Pow2(k))
    ensures Congruent(Bitwise(op, a, b), Bitwise(op, a', b'), Pow2(k))
    decreases k
  {
    if k == 0 {
      assert Bitwise(op, a, b) % 1 == 0 && Bitwise(op, a', b') % 1 == 0;
    } else {
      var g, h := a / 2, b / 2;
      var g', h' := a' / 2, b' / 2;
      assert a % 2 == a' % 2 && Congruent(g, g', Pow2(k - 1)) by { CongruentHalves(a, a', k - 1); }
      assert b % 2 == b' % 2 && Congruent(h, h', Pow2(k - 1)) by { CongruentHalves(b, b', k - 1); }
      BitwiseCongruent(op, g, g', h, h', k - 1);
      BitwiseHalves(op, a, b);
      BitwiseHalves(op, a', b');
      CongruentFromHalves(Bitwise(op, a, b), Bitwise(op, a', b'), Bitwise(op, g, h), Bitwise(op, g', h'), k - 1);
    }
  }

  // ---- single bits ----

  /** Bit `k` of a two's complement number of unbounded width. */
  function Bit(x: int, k: nat): int {
    (x / Pow2(k)) % 2
  }

  lemma {:induction false} DivideTwice(x: int, k: nat)
    ensures x / Pow2(k + 1) == (x / 2) / Pow2(k)
  {
    var p, h := Pow2(k), x / 2;
    assert x == 2 * h + x % 2 && h == (h / p) * p + h % p;
    assert x == (h / p) * (2 * p) + (2 * (h % p) + x % 2);
    QuotientUnique(x, 2 * p, h / p, 2 * (h % p) + x % 2);
  }

  lemma {:induction false} BitHalves(x: int, k: nat)
    ensures Bit(x, 0) == x % 2 && Bit(x, k + 1) == Bit(x / 2, k)
  {
    DivideTwice(x, k);
  }

  /** How `|`, `&` and `^` combine two bits. */
  predicate Combines(op: BitOp, x: int, y: int, r: int) {
    match op
    case BitOr => r == 1 <==> x == 1 || y == 1
    case BitAnd => r == 1 <==> x == 1 && y == 1
    case BitXor => r == 1 <==> (x == 1 && y == 0) || (x == 0 && y == 1)
  }

  /** Each bit of the result is that combination of the operands' bits. */
  lemma {:induction false} BitwiseExact(op: BitOp, a: int, b: int, k: nat)
    ensures Combines(op, Bit(a, k), Bit(b, k), Bit(Bitwise(op, a, b), k))
    decreases k
  {
    BitwiseHalves(op, a, b);
    if k == 0 {
      BitHalves(a, 0);
      BitHalves(b, 0);
      BitHalves(Bitwise(op, a, b), 0);
    } else {
      BitwiseExact(op, a / 2, b / 2, k - 1);
      BitHalves(a, k - 1);
      BitHalves(b, k - 1);
      BitHalves(Bitwise(op, a, b), k - 1);
    }
  }

  lemma {:induction false} ComplementBits(a: int, k: nat)
    ensures Bit(-a - 1, k) == 1 - Bit(a, k)
    decreases k
  {
    if k == 0 {
      BitHalves(a, 0);
      BitHalves(-a - 1, 0);
    } else {
      assert (-a - 1) / 2 == -(a / 2) - 1;
      ComplementBits(a / 2, k - 1);
      BitHalves(a, k - 1);
      BitHalves(-a - 1, k - 1);
    }
  }

  /** Multiplying by a power of two moves the bits up. */
  lemma {:induction false} ShiftLeftBits(a: int, n: nat, k: nat)
    ensures Bit(a * Pow2(n), k) == if k < n then 0 else Bit(a, k - n)
    decreases n
  {
    if n > 0 {
      var half := a * Pow2(n - 1);
      assert a * Pow2(n) == 2 * half && (2 * half) / 2 == half && (2 * half) % 2 == 0;
      BitHalves(2 * half, if k == 0 then 0 else k - 1);
      if k > 0 {
        ShiftLeftBits(a, n - 1, k - 1);
      }
    } else {
      assert a * Pow2(0) == a;
    }
  }

  /** Dividing by a power of two moves them down. */
  lemma {:induction false} ShiftRightBits(a: int, n: nat, k: nat)
    ensures Bit(a / Pow2(n), k) == Bit(a, k + n)
    decreases n
  {
    if n > 0 {
      DivideTwice(a, n - 1);
      ShiftRightBits(a / 2, n - 1, k);
      BitHalves(a, k + n - 1);
    }
  }

  /** Truncated division: what is left over is smaller than the divisor and has the dividend's sign
      (section 6.5.5 of ISO/IEC 9899:2011). */
  lemma {:induction false} TruncatedExact(a: int, b: int)
    requires b != 0
    ensures Abs(CRemainder(a, b)) < Abs(b) && a == TruncatedDiv(a, b) * b + CRemainder(a, b)
    ensures (CRemainder(a, b) > 0 ==> a > 0) && (CRemainder(a, b) < 0 ==> a < 0)
  {
    CRemainderValue(a, b);
  }

  /** The modulo has the sign of the divisor and differs from the dividend by a multiple of it. */
  lemma {:induction false} FloorModExact(a: int, b: int) returns (q: int)
    requires b != 0
    ensures a == q * b + FloorMod(a, b) && (if b > 0 then 0 <= FloorMod(a, b) < b else b < FloorMod(a, b) <= 0)
  {
    q := if b > 0 then a / b else (-a) / (-b);
    if b < 0 {
      assert -a == q * (-b) + (-a) % (-b);
      NegatedProduct(q, b);
    }
  }
}
