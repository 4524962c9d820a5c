/** Multiplication of fixed-width integers that refuses to overflow. */
module CheckedMultiply {
  import opened Bits

  datatype Integral = Integral(bits: nat, signed: bool) {
    predicate Valid() {
      bits >= 1
    }

    function Max(): int
      requires Valid()
    {
      (if signed then Pow2(bits - 1) else Pow2(bits)) - 1
    }

    function Min(): int
      requires Valid()
    {
      if signed then 0 - Pow2(bits - 1) else 0
    }

    predicate Has(n: int)
      requires Valid()
    {
      Min() <= n <= Max()
    }
  }

  function Abs(n: int): nat {
    if n < 0 then -n else n
  }

  /** Division that rounds toward zero. */
  function TruncDiv(n: int, d: int): int
    requires d > 0
  {
    if n < 0 then -((-n) / d) else n / d
  }

  /** The test that a product would overflow, by division. */
  predicate OverflowCheck(t: Integral, a: int, b: int)
    requires t.Valid() && a != 0
  {
    if !t.signed then a > 0 && t.Max() / a < b
    else if (a > 0) == (b > 0) then TruncDiv(t.Max(), Abs(a)) < Abs(b)
    else TruncDiv(t.Min(), Abs(a)) > 0 - Abs(b)
  }

  lemma DivisionBounds(m: nat, x: nat, y: nat)
    requires x > 0
    ensures m / x < y <==> x * y > m
  {
    var q, r := m / x, m % x;
    assert m == x * q + r && 0 <= r < x;
    if q < y {
      assert x * (q + 1) <= x * y;
    } else {
      assert x * y <= x * q;
    }
  }

  lemma ProductSign(a: int, b: int)
    ensures Abs(a * b) == Abs(a) * Abs(b)
    ensures a != 0 && b != 0 ==> ((a > 0) == (b > 0) <==> a * b > 0)
  {
  }

  /** On operands that are neither zero nor the least value, the test is exact. */
  lemma OverflowCheckExact(t: Integral, a: int, b: int)
    requires t.Valid() && t.Has(a) && t.Has(b) && a != 0 && b != 0
    requires t.signed ==> a != t.Min() && b != t.Min()
    ensures OverflowCheck(t, a, b) <==> !t.Has(a * b)
  {
    ProductSign(a, b);
    DivisionBounds(t.Max(), Abs(a), Abs(b));
    if t.signed { DivisionBounds(-t.Min(), Abs(a), Abs(b)); }
  }

  lemma Scaled(p: nat, b: int)
    ensures b >= 2 ==> p * b >= 2 * p
    ensures b <= -1 ==> p * b <= -(p as int)
  {
  }

  /** The least value times anything but zero and one overflows. */
  lemma LeastOverflows(t: Integral, a: int, b: int)
    requires t.Valid() && t.Has(a) && t.Has(b) && t.signed && a == t.Min() && b != 0 && b != 1
    ensures !t.Has(a * b)
  {
    var p := Pow2(t.bits - 1);
    assert a * b == -(p * b);
    Scaled(p, b);
  }

  /** Multiplies `a` by `b` if and only if the product fits the type, and otherwise leaves
      it as it was. */
  method Multiply(t: Integral, a: int, b: int) returns (ok: bool, r: int)
    requires t.Valid() && t.Has(a) && t.Has(b)
    ensures ok <==> t.Has(a * b)
    ensures r == if ok then a * b else a
  {
    if a == 0 || b == 0 || a == 1 || b == 1 {
      return true, a * b;
    }
    if a == t.Min() || b == t.Min() {
      if a == t.Min() { LeastOverflows(t, a, b); } else { LeastOverflows(t, b, a); }
      return false, a;
    }
    OverflowCheckExact(t, a, b);
    if OverflowCheck(t, a, b) {
      return false, a;
    }
    return true, a * b;
  }
}
