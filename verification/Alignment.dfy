/** Rounding up to an alignment, and divisibility (src/purego_gen/abi_layout.py, `_align_up`). */
module Alignment {
  import opened Arithmetic

  function Max(a: int, b: int): int {
    if a >= b then a else b
  }

  function AlignUp(value: int, alignment: int): int
    requires alignment > 0
  {
    ((value + alignment - 1) / alignment) * alignment
  }

  predicate Divides(d: int, n: int)
    requires d > 0
  {
    n % d == 0
  }

  lemma {:induction false} MultipleDivides(k: int, d: int)
    requires d > 0
    ensures (k * d) % d == 0 && (k * d) / d == k
  {
    var q, r := (k * d) / d, (k * d) % d;
    assert (k - q) * d == r;
    ProductSign(k - q, d);
  }

  lemma {:induction false} AlignUpBounds(value: int, alignment: int)
    requires alignment > 0
    ensures Divides(alignment, AlignUp(value, alignment))
    ensures value <= AlignUp(value, alignment) < value + alignment
    ensures AlignUp(value, alignment) == value <==> Divides(alignment, value)
  {
    var q := (value + alignment - 1) / alignment;
    MultipleDivides(q, alignment);
    if Divides(alignment, value) {
      ProductSign(value / alignment - q, alignment);
    }
  }

  /** The result is the least multiple of the alignment that is not below the value. */
  lemma {:induction false} AlignUpLeast(value: int, alignment: int)
    requires alignment > 0
    ensures Divides(alignment, AlignUp(value, alignment)) && value <= AlignUp(value, alignment)
    ensures forall m :: m >= value && Divides(alignment, m) ==> m >= AlignUp(value, alignment)
  {
    AlignUpBounds(value, alignment);
    var q := (value + alignment - 1) / alignment;
    forall m | m >= value && Divides(alignment, m)
      ensures m >= AlignUp(value, alignment)
    {
      var k := m / alignment;
      assert m == k * alignment;
      ProductSign(k - q, alignment);
    }
  }

  lemma {:induction false} DividesTransitive(a: int, b: int, c: int)
    requires a > 0 && b > 0
    requires Divides(a, b) && Divides(b, c)
    ensures Divides(a, c)
  {
    var j, k := b / a, c / b;
    assert c == k * (j * a) == (k * j) * a;
    MultipleDivides(k * j, a);
  }

  predicate PowerOfTwo(n: int)
    decreases n
  {
    n == 1 || (n > 1 && n % 2 == 0 && PowerOfTwo(n / 2))
  }

  /** Of two powers of two the smaller divides the larger. */
  lemma {:induction false} PowersDivide(a: int, b: int)
    requires PowerOfTwo(a) && PowerOfTwo(b) && a <= b
    ensures a > 0 && Divides(a, b)
    decreases a
  {
    if a > 1 {
      PowersDivide(a / 2, b / 2);
      var k := (b / 2) / (a / 2);
      assert b == k * (a / 2) * 2 == k * a;
      MultipleDivides(k, a);
    }
  }
}
