/** Bit strings as holders of numbers. */
module BitStringNumbers {
  import opened Bits
  import opened BitStrings

  /** The width a bit string takes for a number when none is given. */
  function DefaultWidth(number: nat, lb: nat): nat {
    var w := CeilLog2(if number > 1 then number else 1);
    if w < lb then lb else w
  }

  /** What a bit string of w bits holds after a number was stored in it. */
  function Held(number: nat, w: nat): nat {
    if w <= 64 then Low(number, w) else 0
  }

  /** Zero, and any other number whose default width is at most 64, if it is not a power of
      two or the least size of the string has a bit to spare. */
  predicate FitsDefaultWidth(number: nat, lb: nat) {
    number == 0 || (DefaultWidth(number, lb) <= 64 && (!IsPow2(number) || lb > CeilLog2(number)))
  }

  /** These are exactly the numbers that a string of the default width holds. */
  lemma DefaultWidthExact(number: nat, lb: nat)
    ensures Held(number, DefaultWidth(number, lb)) == number <==> FitsDefaultWidth(number, lb)
  {
    var w := DefaultWidth(number, lb);
    if number > 0 && lb > CeilLog2(number) { Pow2Strict(CeilLog2(number), lb); }
    Pow2Def(0);
    assert number > 0 ==> (number < Pow2(w) <==> !IsPow2(number) || lb > CeilLog2(number));
    HeldExact(number, w);
  }

  lemma HeldExact(number: nat, w: nat)
    ensures Held(number, w) == number <==> number == 0 || (w <= 64 && number < Pow2(w))
  {
    hide Low, Pow2;
    if w <= 64 {
      LowIsRemainder(number, w);
      var m: nat := Pow2(w);
      assert number % m == number <==> number < m;
    }
  }

  class BitString {
    const lb: nat
    const ub: nat
    var nofBits: nat
    var octets: array<byte>

    ghost predicate Valid()
      reads this
    {
      octets.Length == CeilOctets(nofBits)
    }

    constructor (lb: nat, ub: nat)
      ensures Valid() && fresh(octets) && this.lb == lb && this.ub == ub && nofBits == lb
      ensures forall i | 0 <= i < octets.Length :: octets[i] == 0
    {
      this.lb, this.ub, nofBits := lb, ub, lb;
      octets := new byte[CeilOctets(lb)](_ => 0);
    }

    /** Resizing always resets the content. */
    method Resize(n: nat)
      modifies this
      ensures Valid() && fresh(octets) && nofBits == n
      ensures forall i | 0 <= i < octets.Length :: octets[i] == 0
    {
      nofBits := n;
      octets := new byte[CeilOctets(n)](_ => 0);
    }

    /** Stores a number in a given number of bits; more than the upper bound are refused,
        and more than 64 leave zeros. */
    method FromNumberBits(number: nat, n: nat)
      requires Valid()
      modifies this, octets
      ensures Valid()
      ensures n > ub ==> nofBits == old(nofBits) && octets == old(octets) && octets[..] == old(octets[..])
      ensures n <= ub ==> nofBits == n && fresh(octets) && LittleEndian(octets[..]) == Held(number, n)
    {
      if n > ub {
        return;
      }
      Resize(n);
      ZeroNumber(octets[..]);
      BitStrings.FromNumber(octets, number, n);
    }

    /** Stores a number in as many bits as its default width. */
    method FromNumber(number: nat)
      requires Valid()
      modifies this, octets
      ensures Valid()
      ensures var w := DefaultWidth(number, lb);
              if w > ub then nofBits == old(nofBits) && octets == old(octets) && octets[..] == old(octets[..])
              else nofBits == w && fresh(octets) && LittleEndian(octets[..]) == Held(number, w)
    {
      var log := CeilLog2(if number > 1 then number else 1);
      var n := if log < lb then lb else log;
      FromNumberBits(number, n);
    }

    method ToNumber() returns (number: nat)
      requires Valid()
      ensures number == if nofBits > 64 then 0 else LittleEndian(octets[..])
    {
      number := BitStrings.ToNumber(octets[..], nofBits);
    }
  }

  /** A number stored in a new bit string and taken out again comes back if and only if it is
      zero, or the upper bound admits its default width and the width holds it. */
  method StoreAndTake(number: nat, lb: nat, ub: nat) returns (back: nat)
    ensures back == if DefaultWidth(number, lb) > ub then 0 else Held(number, DefaultWidth(number, lb))
    ensures back == number <==> number == 0 || (DefaultWidth(number, lb) <= ub && FitsDefaultWidth(number, lb))
  {
    var b := new BitString(lb, ub);
    ZeroNumber(b.octets[..]);
    b.FromNumber(number);
    back := b.ToNumber();
    DefaultWidthExact(number, lb);
  }
}
