/** INTEGER, bounded lengths and ENUMERATED (X.691 sections 10.8, 12 and 13). */
module Integers {
  import opened Bits
  import opened Per
  import opened BitRefs
  import opened Lengths
  import opened Numbers

  // Unconstrained whole numbers.

  /** ceil((log2(n) + 1) / 8): the least number of octets L with n <= 2^(8L - 1). */
  function UnconstrainedOctets(n: nat): (k: nat)
    requires n >= 1
    ensures k >= 1 && n <= Pow2(8 * k - 1)
    ensures k > 1 ==> Pow2(8 * (k - 1) - 1) < n
  {
    var l := CeilLog2(n);
    var k := CeilOctets(l + 1);
    Pow2Monotone(l, 8 * k - 1);
    assert k > 1 ==> Pow2(8 * (k - 1) - 1) < n by {
      if k > 1 { Pow2Monotone(8 * (k - 1) - 1, l - 1); }
    }
    k
  }

  /** Octet length and octets of a number outside its bounds or without any. */
  function EncodeUnconstrained(n: int, aligned: bool, pos: nat): Encoding {
    if n < 1 then EncodeUndefined
    else
      var len := UnconstrainedOctets(n);
      if 8 * len >= 64 then EncodeUndefined
      else
        var length :- EncodeLength(len, aligned, pos);
        Encoded(length + (PadIf(aligned, pos + |length|) + NatBits(n, 8 * len)))
  }

  ghost function DecodeUnconstrained(t: IntType, s: seq<bool>, pos: nat, aligned: bool): Decoding<int>
    requires t.Valid()
  {
    var (len, p) :- DecodeLength(s, pos, aligned);
    ReadInt(t, s, AlignIf(aligned, p), 8 * len)
  }

  /** The octets hold the number, and fit its type exactly up to half its unsigned range. */
  lemma UnconstrainedFits(t: IntType, n: nat)
    requires t.Valid() && n >= 1
    ensures n < Pow2(8 * UnconstrainedOctets(n))
    ensures 8 * UnconstrainedOctets(n) <= t.Width() <==> n <= Pow2(t.Width() - 1)
  {
    var k := UnconstrainedOctets(n);
    Pow2Strict(8 * k - 1, 8 * k);
    if k <= t.octets {
      Pow2Monotone(8 * k - 1, t.Width() - 1);
    } else {
      Pow2Monotone(t.Width() - 1, 8 * (k - 1) - 1);
    }
  }

  /** The wire form: where the octets are found and what they hold. */
  lemma UnconstrainedWire(s: seq<bool>, pos: nat, n: nat, aligned: bool)
    requires EncodeUnconstrained(n, aligned, pos).Encoded? && At(s, pos, EncodeUnconstrained(n, aligned, pos).bits)
    ensures var len := UnconstrainedOctets(n);
            var d := DecodeLength(s, pos, aligned);
            && d.Decoded? && d.value == len
            && Read(s, AlignIf(aligned, d.pos), 8 * len)
               == Decoded(n, pos + |EncodeUnconstrained(n, aligned, pos).bits|)
  {
    hide At, AlignUp, PadBits, EncodeLength, DecodeLength, Read, NatBits;
    var len := UnconstrainedOctets(n);
    var length := EncodeLength(len, aligned, pos).bits;
    var p := pos + |length|;
    var pad := PadIf(aligned, p);
    AtSplit(s, pos, length, pad + NatBits(n, 8 * len));
    LengthRoundTrip(s, pos, len, aligned);
    AtSplit(s, p, pad, NatBits(n, 8 * len));
    Pow2Strict(8 * len - 1, 8 * len);
    ReadBack(s, p + |pad|, n, 8 * len);
  }

  /** A number of either sign of type is read back when it is at most half the unsigned
      range, and otherwise the reader's width assertion fails. */
  lemma UnconstrainedRoundTrip(t: IntType, s: seq<bool>, pos: nat, n: int, aligned: bool)
    requires t.Valid() && t.Has(n)
    requires EncodeUnconstrained(n, aligned, pos).Encoded? && At(s, pos, EncodeUnconstrained(n, aligned, pos).bits)
    ensures DecodeUnconstrained(t, s, pos, aligned)
         == if n <= Pow2(t.Width() - 1) then Decoded(n, pos + |EncodeUnconstrained(n, aligned, pos).bits|)
            else DecodeUndefined
  {
    UnconstrainedWire(s, pos, n, aligned);
    UnconstrainedFits(t, n);
    WrapExact(t, n);
  }

  // INTEGER.

  predicate LowerBounded(t: IntType, lb: int)
    requires t.Valid()
  {
    lb != t.Min() || !t.signed
  }

  predicate UpperBounded(t: IntType, ub: int)
    requires t.Valid()
  {
    ub != t.Max()
  }

  /** Neither bound is stated in the type. */
  predicate Unbounded(t: IntType, lb: int, ub: int)
    requires t.Valid()
  {
    !LowerBounded(t, lb) && !UpperBounded(t, ub)
  }

  /** In-bounds values for which nothing is written and the reader assigns nothing: a
      single possible value, and the semi-constrained case that is not implemented. */
  predicate Silent(t: IntType, lb: int, ub: int)
    requires t.Valid()
  {
    if LowerBounded(t, lb) && UpperBounded(t, ub) then lb == ub else !Unbounded(t, lb, ub)
  }

  /** The part of an INTEGER after its extension bit. */
  function EncodeIntegerBody(t: IntType, n: int, lb: int, ub: int, aligned: bool, pos: nat): Encoding
    requires t.Valid()
  {
    if !(lb <= n <= ub) || Unbounded(t, lb, ub) then EncodeUnconstrained(n, aligned, pos)
    else if Silent(t, lb, ub) then Encoded([])
    else EncodeConstrained(t, n, lb, ub, aligned, pos)
  }

  function EncodeInteger(t: IntType, n: int, lb: int, ub: int, ext: bool, aligned: bool, pos: nat): Encoding
    requires t.Valid()
  {
    if !ext then
      if lb <= n <= ub then EncodeIntegerBody(t, n, lb, ub, aligned, pos) else Refused
    else Then(NatBits(if lb <= n <= ub then 0 else 1, 1), EncodeIntegerBody(t, n, lb, ub, aligned, pos + 1))
  }

  ghost function DecodeIntegerBody(t: IntType, n0: int, s: seq<bool>, pos: nat, within: bool, lb: int, ub: int,
                                     aligned: bool): Decoding<int>
    requires t.Valid()
  {
    if !within || Unbounded(t, lb, ub) then DecodeUnconstrained(t, s, pos, aligned)
    else if Silent(t, lb, ub) then Decoded(n0, pos)
    else DecodeConstrained(t, s, pos, lb, ub, aligned)
  }

  /** n0 is the value the destination had before the call. */
  ghost function DecodeInteger(t: IntType, n0: int, s: seq<bool>, pos: nat, lb: int, ub: int, ext: bool,
                               aligned: bool): Decoding<int>
    requires t.Valid()
  {
    if !ext then DecodeIntegerBody(t, n0, s, pos, true, lb, ub, aligned)
    else
      var (outside, p) :- Read(s, pos, 1);
      DecodeIntegerBody(t, n0, s, p, outside == 0, lb, ub, aligned)
  }

  /** What an INTEGER that was written is read back as. */
  function ReadBackAs(t: IntType, n0: int, n: int, lb: int, ub: int): int
    requires t.Valid()
  {
    if lb <= n <= ub && Silent(t, lb, ub) then n0 else n
  }

  /** Values that the reader's variable can take in: all that are written as offsets,
      and otherwise those up to half the unsigned range of the type. */
  predicate Receivable(t: IntType, n: int, lb: int, ub: int)
    requires t.Valid()
  {
    (lb <= n <= ub && !Unbounded(t, lb, ub)) || n <= Pow2(t.Width() - 1)
  }

  lemma IntegerBodyRoundTrip(t: IntType, n0: int, s: seq<bool>, pos: nat, n: int, lb: int, ub: int, aligned: bool)
    requires t.Valid() && t.Has(n)
    requires var e := EncodeIntegerBody(t, n, lb, ub, aligned, pos); e.Encoded? && At(s, pos, e.bits)
    ensures DecodeIntegerBody(t, n0, s, pos, lb <= n <= ub, lb, ub, aligned)
         == if !Receivable(t, n, lb, ub) then DecodeUndefined
            else Decoded(ReadBackAs(t, n0, n, lb, ub), pos + |EncodeIntegerBody(t, n, lb, ub, aligned, pos).bits|)
  {
    hide EncodeConstrained, DecodeConstrained, EncodeUnconstrained, DecodeUnconstrained, At, LowerBounded,
         UpperBounded, Pow2;
    if !(lb <= n <= ub) || Unbounded(t, lb, ub) {
      UnconstrainedRoundTrip(t, s, pos, n, aligned);
    } else if !Silent(t, lb, ub) {
      ConstrainedRoundTrip(t, s, pos, n, lb, ub, aligned);
    }
  }

  /** An INTEGER that is written is read back exactly if it is receivable, and otherwise
      the reader's width assertion fails. An in-bounds value of a silent type leaves the
      destination as it was: there the round trip holds if and only if the destination
      already held the value. */
  lemma IntegerRoundTrip(t: IntType, n0: int, s: seq<bool>, pos: nat, n: int, lb: int, ub: int, ext: bool,
                         aligned: bool)
    requires t.Valid() && t.Has(n)
    requires var e := EncodeInteger(t, n, lb, ub, ext, aligned, pos); e.Encoded? && At(s, pos, e.bits)
    ensures DecodeInteger(t, n0, s, pos, lb, ub, ext, aligned)
         == if !Receivable(t, n, lb, ub) then DecodeUndefined
            else Decoded(ReadBackAs(t, n0, n, lb, ub), pos + |EncodeInteger(t, n, lb, ub, ext, aligned, pos).bits|)
  {
    if !ext {
      IntegerBodyRoundTrip(t, n0, s, pos, n, lb, ub, aligned);
    } else {
      var bit := if lb <= n <= ub then 0 else 1;
      var body := EncodeIntegerBody(t, n, lb, ub, aligned, pos + 1).bits;
      Pow2Values();
      AtSplit(s, pos, NatBits(bit, 1), body);
      ReadBack(s, pos, bit, 1);
      IntegerBodyRoundTrip(t, n0, s, pos + 1, n, lb, ub, aligned);
    }
  }

  /** An in-bounds value that is written is read back whatever the destination held before if
      and only if there are two values or more, the upper bound is below the largest of the
      type and, for a signed type, the lower bound above its least; or if the type is signed
      and both bounds are its limits. */
  lemma IntegerExact(t: IntType, s: seq<bool>, pos: nat, n: int, lb: int, ub: int, ext: bool, aligned: bool)
    requires t.Valid() && lb <= n <= ub && t.Has(n)
    requires var e := EncodeInteger(t, n, lb, ub, ext, aligned, pos); e.Encoded? && At(s, pos, e.bits)
    ensures var end := pos + |EncodeInteger(t, n, lb, ub, ext, aligned, pos).bits|;
            var w := 8 * t.octets;
            var largest := if t.signed then Pow2(w - 1) - 1 else Pow2(w) - 1;
            var stated := lb < ub && ub != largest && (t.signed ==> lb != 0 - Pow2(w - 1));
            var whole := t.signed && lb == 0 - Pow2(w - 1) && ub == largest;
            (forall n0 :: DecodeInteger(t, n0, s, pos, lb, ub, ext, aligned) == Decoded(n, end)) <==> stated || whole
  {
    hide EncodeInteger, DecodeInteger, At;
    forall n0 {
      IntegerRoundTrip(t, n0, s, pos, n, lb, ub, ext, aligned);
    }
    var other := n + 1;
    IntegerRoundTrip(t, other, s, pos, n, lb, ub, ext, aligned);
  }

  method PackUnconstrained(bref: BitRef, n: int, aligned: bool) returns (code: Code)
    requires bref.Valid() && EncodeUnconstrained(n, aligned, |bref.bits|) != EncodeUndefined
    modifies bref
    ensures bref.Valid() && Appended(old(bref.bits), bref.bits, code, EncodeUnconstrained(n, aligned, |old(bref.bits)|))
  {
    var len := UnconstrainedOctets(n);
    ghost var before := bref.bits;
    code := PackLength(bref, len, aligned);
    if code != Success {
      return;
    }
    ghost var mid := bref.bits;
    if aligned {
      bref.AlignBytesZero();
    }
    ghost var pad := PadIf(aligned, |mid|);
    assert bref.bits == mid + pad;
    bref.Pack(n, len * 8);
    Concat4(before, EncodeLength(len, aligned, |before|).bits, pad, NatBits(n, len * 8));
  }

  method PackInteger(bref: BitRef, t: IntType, n: int, lb: int, ub: int, ext: bool, aligned: bool) returns (code: Code)
    requires t.Valid() && bref.Valid()
    requires EncodeInteger(t, n, lb, ub, ext, aligned, |bref.bits|) != EncodeUndefined
    modifies bref
    ensures bref.Valid()
    ensures Appended(old(bref.bits), bref.bits, code, EncodeInteger(t, n, lb, ub, ext, aligned, |old(bref.bits)|))
  {
    var within := lb <= n <= ub;
    ghost var before := bref.bits;
    if ext {
      bref.Pack(if within then 0 else 1, 1);
      code := PackIntegerBody(bref, t, n, lb, ub, aligned);
      AppendedThen(before, NatBits(if within then 0 else 1, 1), bref.bits, code,
                   EncodeIntegerBody(t, n, lb, ub, aligned, |before| + 1));
    } else if within {
      code := PackIntegerBody(bref, t, n, lb, ub, aligned);
    } else {
      code := EncodeFail;
    }
  }

  method PackIntegerBody(bref: BitRef, t: IntType, n: int, lb: int, ub: int, aligned: bool) returns (code: Code)
    requires t.Valid() && bref.Valid()
    requires EncodeIntegerBody(t, n, lb, ub, aligned, |bref.bits|) != EncodeUndefined
    modifies bref
    ensures bref.Valid()
    ensures Appended(old(bref.bits), bref.bits, code, EncodeIntegerBody(t, n, lb, ub, aligned, |old(bref.bits)|))
  {
    var within := lb <= n <= ub;
    if within && LowerBounded(t, lb) && UpperBounded(t, ub) {
      if lb == ub {
        return Success;
      }
      code := PackConstrained(bref, t, n, lb, ub, aligned);
    } else {
      if !within || (!LowerBounded(t, lb) && !UpperBounded(t, ub)) {
        code := PackUnconstrained(bref, n, aligned);
      } else {
        code := Success;
      }
    }
  }

  method UnpackUnconstrained(bref: CBitRef, t: IntType, aligned: bool) returns (r: Result<int>)
    requires t.Valid() && bref.Valid() && DecodeUnconstrained(t, bref.stream, bref.pos, aligned) != DecodeUndefined
    modifies bref
    ensures bref.Valid() && Consumed(bref.pos, r, DecodeUnconstrained(t, bref.stream, old(bref.pos), aligned))
  {
    var len, ok := UnpackLength(bref, aligned);
    if !ok {
      return Fail;
    }
    if aligned {
      bref.AlignBytes();
    }
    var n := UnpackInt(bref, t, len * 8);
    return Ok(n);
  }

  method UnpackInteger(bref: CBitRef, t: IntType, n0: int, lb: int, ub: int, ext: bool,
                       aligned: bool) returns (r: Result<int>)
    requires t.Valid() && bref.Valid()
    requires DecodeInteger(t, n0, bref.stream, bref.pos, lb, ub, ext, aligned) != DecodeUndefined
    modifies bref
    ensures bref.Valid()
    ensures Consumed(bref.pos, r, DecodeInteger(t, n0, bref.stream, old(bref.pos), lb, ub, ext, aligned))
  {
    var within := true;
    if ext {
      var outside := bref.Unpack(1);
      within := outside == 0;
    }
    r := UnpackIntegerBody(bref, t, n0, within, lb, ub, aligned);
  }

  method UnpackIntegerBody(bref: CBitRef, t: IntType, n0: int, within: bool, lb: int, ub: int, aligned: bool)
    returns (r: Result<int>)
    requires t.Valid() && bref.Valid()
    requires DecodeIntegerBody(t, n0, bref.stream, bref.pos, within, lb, ub, aligned) != DecodeUndefined
    modifies bref
    ensures bref.Valid()
    ensures Consumed(bref.pos, r, DecodeIntegerBody(t, n0, bref.stream, old(bref.pos), within, lb, ub, aligned))
  {
    if within && LowerBounded(t, lb) && UpperBounded(t, ub) {
      if lb == ub {
        return Ok(n0);
      }
      r := UnpackConstrained(bref, t, lb, ub, aligned);
    } else {
      if !within || (!LowerBounded(t, lb) && !UpperBounded(t, ub)) {
        r := UnpackUnconstrained(bref, t, aligned);
      } else {
        r := Ok(n0);
      }
    }
  }

  // Lengths with bounds, of any integer type.

  const UINT32 := IntType(4, false)

  /** Conversion of any integer to uint32_t, as happens to a length without a small bound. */
  function AsUint32(x: int): (r: nat) {
    Uint32NonNegative(x);
    UINT32.Wrap(x)
  }

  lemma Uint32NonNegative(x: int)
    ensures 0 <= UINT32.Wrap(x) < Pow2(32)
  {
    var k := WrapMultiple(UINT32, x);
  }

  function EncodeLengthIn(t: IntType, n: int, lb: int, ub: int, aligned: bool, pos: nat): Encoding
    requires t.Valid()
  {
    if ub >= ASN_64K then EncodeLength(AsUint32(n), aligned, pos) else EncodeConstrained(t, n, lb, ub, aligned, pos)
  }

  ghost function DecodeLengthIn(t: IntType, s: seq<bool>, pos: nat, lb: int, ub: int, aligned: bool): Decoding<int>
    requires t.Valid()
  {
    if ub >= ASN_64K then
      var (len, p) :- DecodeLength(s, pos, aligned);
      Decoded(t.Wrap(len), p)
    else DecodeConstrained(t, s, pos, lb, ub, aligned)
  }

  /** A length of any integer type that is written is read back under an upper bound below
      64K, and otherwise if and only if it is from 0 to 16K; beyond, it is rejected or cut to
      32 bits. */
  lemma LengthInRoundTrip(t: IntType, s: seq<bool>, pos: nat, n: int, lb: int, ub: int, aligned: bool)
    requires t.Valid() && t.Has(n)
    requires var e := EncodeLengthIn(t, n, lb, ub, aligned, pos); e.Encoded? && At(s, pos, e.bits)
    ensures DecodeLengthIn(t, s, pos, lb, ub, aligned)
            == Decoded(n, pos + |EncodeLengthIn(t, n, lb, ub, aligned, pos).bits|)
       <==> ub < ASN_64K || 0 <= n < ASN_16K
  {
    hide EncodeLength, DecodeLength, EncodeConstrained, DecodeConstrained, At;
    if ub < ASN_64K {
      ConstrainedRoundTrip(t, s, pos, n, lb, ub, aligned);
    } else {
      ConvertedLength(t, n);
      if AsUint32(n) < ASN_16K {
        LengthRoundTrip(s, pos, AsUint32(n), aligned);
      } else {
        WrittenLength(AsUint32(n), aligned, pos);
        LongLengthRejected(s, pos, AsUint32(n));
      }
    }
  }

  lemma WrittenLength(val: nat, aligned: bool, pos: nat)
    requires EncodeLength(val, aligned, pos).Encoded? && val >= ASN_16K
    ensures aligned && val <= ASN_64K
  {
  }

  /** Of the values that convert to a length below 16K, only those that are one come back. */
  lemma ConvertedLength(t: IntType, n: int)
    requires t.Valid() && t.Has(n)
    ensures 0 <= n < ASN_16K <==> AsUint32(n) < ASN_16K && t.Wrap(AsUint32(n)) == n
  {
    hide Pow2;
    Pow2Values();
    Pow2Monotone(16, 32);
    if 0 <= n < ASN_16K {
      WrapExact(UINT32, n);
      WrapExact(t, n);
    } else if AsUint32(n) < ASN_16K {
      if n < 0 { WrappedNegative(n, Pow2(32)); }
      WrapExact(t, AsUint32(n));
    }
  }

  lemma WrappedNegative(n: int, m: int)
    requires n < 0 && m == Pow2(32)
    ensures AsUint32(n) >= n + m
  {
    var k := WrapMultiple(UINT32, n);
    Uint32NonNegative(n);
    hide Pow2;
    if k >= 1 { MulGrows(k, m); }
  }

  method PackLengthIn(bref: BitRef, t: IntType, n: int, lb: int, ub: int, aligned: bool) returns (code: Code)
    requires t.Valid() && bref.Valid() && EncodeLengthIn(t, n, lb, ub, aligned, |bref.bits|) != EncodeUndefined
    modifies bref
    ensures bref.Valid()
    ensures Appended(old(bref.bits), bref.bits, code, EncodeLengthIn(t, n, lb, ub, aligned, |old(bref.bits)|))
  {
    if ub >= ASN_64K {
      code := PackLength(bref, AsUint32(n), aligned);
    } else {
      code := PackConstrained(bref, t, n, lb, ub, aligned);
    }
  }

  method UnpackLengthIn(bref: CBitRef, t: IntType, lb: int, ub: int, aligned: bool) returns (r: Result<int>)
    requires t.Valid() && bref.Valid()
    requires DecodeLengthIn(t, bref.stream, bref.pos, lb, ub, aligned) != DecodeUndefined
    modifies bref
    ensures bref.Valid() && Consumed(bref.pos, r, DecodeLengthIn(t, bref.stream, old(bref.pos), lb, ub, aligned))
  {
    if ub >= ASN_64K {
      var len, ok := UnpackLength(bref, aligned);
      r := if ok then Ok(t.Wrap(len)) else Fail;
    } else {
      r := UnpackConstrained(bref, t, lb, ub, aligned);
    }
  }

  // The instantiation with uint32_t, on natural numbers, which every caller in the codec
  // uses.

  function EncodeBoundedLength(n: nat, lb: nat, ub: nat, aligned: bool, pos: nat): Encoding {
    if ub >= ASN_64K then EncodeLength(n, aligned, pos) else EncodeConstrained(UINT32, n, lb, ub, aligned, pos)
  }

  ghost function DecodeBoundedLength(s: seq<bool>, pos: nat, lb: nat, ub: nat, aligned: bool): Decoding<nat> {
    if ub >= ASN_64K then DecodeLength(s, pos, aligned)
    else
      DecodedUnsigned(s, pos, lb, ub, aligned);
      var (n, p) :- DecodeConstrained(UINT32, s, pos, lb, ub, aligned);
      Decoded(n, p)
  }

  lemma DecodedUnsigned(s: seq<bool>, pos: nat, lb: nat, ub: nat, aligned: bool)
    ensures var d := DecodeConstrained(UINT32, s, pos, lb, ub, aligned); d.Decoded? ==> d.value >= 0
  {
    forall x: int ensures UINT32.Wrap(x) >= 0 {
      var _ := WrapMultiple(UINT32, x);
    }
  }

  /** It is the template at uint32_t. */
  lemma BoundedLengthIsUint32(s: seq<bool>, pos: nat, n: nat, lb: nat, ub: nat, aligned: bool)
    requires n < Pow2(32)
    ensures EncodeBoundedLength(n, lb, ub, aligned, pos) == EncodeLengthIn(UINT32, n, lb, ub, aligned, pos)
    ensures var d, e := DecodeBoundedLength(s, pos, lb, ub, aligned), DecodeLengthIn(UINT32, s, pos, lb, ub, aligned);
            if d.Decoded? then e == Decoded(d.value, d.pos) else e == d.PropagateFailure()
  {
    WrapExact(UINT32, n);
    LengthFitsUint32(s, pos, aligned);
  }

  lemma LengthFitsUint32(s: seq<bool>, pos: nat, aligned: bool)
    ensures var d := DecodeLength(s, pos, aligned); d.Decoded? ==> UINT32.Wrap(d.value) == d.value
  {
    Pow2Values();
    Pow2Monotone(16, 32);
    ReadsBounded(s);
    var d := DecodeLength(s, pos, aligned);
    if d.Decoded? { WrapExact(UINT32, d.value); }
  }

  lemma BoundedLengthRoundTrip(s: seq<bool>, pos: nat, n: nat, lb: nat, ub: nat, aligned: bool)
    requires ub >= ASN_64K ==> n < ASN_16K
    requires var e := EncodeBoundedLength(n, lb, ub, aligned, pos); e.Encoded? && At(s, pos, e.bits)
    ensures DecodeBoundedLength(s, pos, lb, ub, aligned)
         == Decoded(n, pos + |EncodeBoundedLength(n, lb, ub, aligned, pos).bits|)
  {
    if ub >= ASN_64K {
      LengthRoundTrip(s, pos, n, aligned);
    } else {
      ConstrainedRoundTrip(UINT32, s, pos, n, lb, ub, aligned);
    }
  }

  method PackBoundedLength(bref: BitRef, n: nat, lb: nat, ub: nat, aligned: bool) returns (code: Code)
    requires bref.Valid() && EncodeBoundedLength(n, lb, ub, aligned, |bref.bits|) != EncodeUndefined
    modifies bref
    ensures bref.Valid()
    ensures Appended(old(bref.bits), bref.bits, code, EncodeBoundedLength(n, lb, ub, aligned, |old(bref.bits)|))
  {
    if ub >= ASN_64K {
      code := PackLength(bref, n, aligned);
    } else {
      code := PackConstrained(bref, UINT32, n, lb, ub, aligned);
    }
  }

  method UnpackBoundedLength(bref: CBitRef, lb: nat, ub: nat, aligned: bool) returns (r: Result<nat>)
    requires bref.Valid() && DecodeBoundedLength(bref.stream, bref.pos, lb, ub, aligned) != DecodeUndefined
    modifies bref
    ensures bref.Valid() && Consumed(bref.pos, r, DecodeBoundedLength(bref.stream, old(bref.pos), lb, ub, aligned))
  {
    if ub >= ASN_64K {
      var len, ok := UnpackLength(bref, aligned);
      r := if ok then Ok(len) else Fail;
    } else {
      var n := UnpackConstrained(bref, UINT32, lb, ub, aligned);
      r := if n.Ok? then Ok(n.value) else Fail;
    }
  }

  // ENUMERATED.

  function EncodeEnum(e: nat, nofTypes: nat, nofExts: nat, ext: bool): Encoding {
    if e >= nofTypes then Refused
    else if !ext then
      if CeilLog2(nofTypes) >= 64 then EncodeUndefined else Encoded(NatBits(e, CeilLog2(nofTypes)))
    else if nofExts >= nofTypes || CeilLog2(nofTypes - nofExts) >= 64 then EncodeUndefined
    else if e < nofTypes - nofExts then
      Encoded(NatBits(0, 1) + NatBits(e, CeilLog2(nofTypes - nofExts)))
    else
      var small :- EncodeSmall(e - (nofTypes - nofExts));
      Encoded(NatBits(1, 1) + small)
  }

  ghost function DecodeEnum(s: seq<bool>, pos: nat, nofTypes: nat, nofExts: nat, ext: bool): Decoding<nat> {
    if !ext then
      if nofTypes == 0 || CeilLog2(nofTypes) > 32 then DecodeUndefined
      else
        var (e, p) :- Read(s, pos, CeilLog2(nofTypes));
        if e >= nofTypes then Rejected(p) else Decoded(e, p)
    else if nofExts >= nofTypes || CeilLog2(nofTypes - nofExts) > 32 then DecodeUndefined
    else
      var (outside, p) :- Read(s, pos, 1);
      if outside == 0 then
        var (e, q) :- Read(s, p, CeilLog2(nofTypes - nofExts));
        if e >= nofTypes then Rejected(q) else Decoded(e, q)
      else
        var (k, q) :- DecodeSmall(s, p);
        if k + (nofTypes - nofExts) >= nofTypes then Rejected(q) else Decoded(k + (nofTypes - nofExts), q)
  }

  /** Every enumerator of a type of at most 2^32 enumerators is read back. */
  lemma EnumRoundTrip(s: seq<bool>, pos: nat, e: nat, nofTypes: nat, nofExts: nat, ext: bool)
    requires nofTypes <= Pow2(32)
    requires var c := EncodeEnum(e, nofTypes, nofExts, ext); c.Encoded? && At(s, pos, c.bits)
    ensures DecodeEnum(s, pos, nofTypes, nofExts, ext)
         == Decoded(e, pos + |EncodeEnum(e, nofTypes, nofExts, ext).bits|)
  {
    hide At, NatBits, CeilLog2, Read;
    if !ext {
      EnumWidth(nofTypes);
      ReadBack(s, pos, e, CeilLog2(nofTypes));
    } else {
      var root := nofTypes - nofExts;
      EnumWidth(root);
      Pow2Values();
      if e < root {
        AtSplit(s, pos, NatBits(0, 1), NatBits(e, CeilLog2(root)));
        ReadBack(s, pos, 0, 1);
        ReadBack(s, pos + 1, e, CeilLog2(root));
      } else {
        AtSplit(s, pos, NatBits(1, 1), NatBits(e - root, 7));
        ReadBack(s, pos, 1, 1);
        SmallRoundTrip(s, pos + 1, e - root);
      }
    }
  }

  /** An index is decoded only if the type has it, and otherwise rejected. */
  lemma EnumInRange(s: seq<bool>, pos: nat, nofTypes: nat, nofExts: nat, ext: bool)
    ensures var d := DecodeEnum(s, pos, nofTypes, nofExts, ext); d.Decoded? ==> d.value < nofTypes
    ensures !ext && 1 <= nofTypes <= Pow2(32) ==>
              var d, raw := DecodeEnum(s, pos, nofTypes, nofExts, ext), Read(s, pos, CeilLog2(nofTypes));
              if raw.Decoded? then d == if raw.value < nofTypes then raw else Rejected(raw.pos)
              else d == DecodeUndefined
    ensures ext && nofExts < nofTypes <= Pow2(32) && pos < |s| && s[pos] ==>
              var d, k, root := DecodeEnum(s, pos, nofTypes, nofExts, ext), DecodeSmall(s, pos + 1), nofTypes - nofExts;
              if k.Decoded? then d == if k.value < nofExts then Decoded(root + k.value, k.pos) else Rejected(k.pos)
              else d == k
    ensures ext && nofExts < nofTypes <= Pow2(32) && pos < |s| && !s[pos] ==>
              var d, raw := DecodeEnum(s, pos, nofTypes, nofExts, ext), Read(s, pos + 1, CeilLog2(nofTypes - nofExts));
              if raw.Decoded? then d == if raw.value < nofTypes then raw else Rejected(raw.pos)
              else d == DecodeUndefined
  {
    hide Read, CeilLog2, Pow2, DecodeSmall;
    ReadBit(s, pos);
    if !ext && 1 <= nofTypes <= Pow2(32) { EnumWidth(nofTypes); }
    if ext && nofExts < nofTypes <= Pow2(32) { EnumWidth(nofTypes - nofExts); }
    if !ext && nofTypes >= 1 { ReadTakes(s, pos, CeilLog2(nofTypes)); }
    if ext && nofExts < nofTypes { ReadTakes(s, pos + 1, CeilLog2(nofTypes - nofExts)); }
  }

  lemma EnumWidth(n: nat)
    requires 1 <= n <= Pow2(32)
    ensures CeilLog2(n) <= 32
  {
    if CeilLog2(n) > 32 { Pow2Monotone(32, CeilLog2(n) - 1); }
  }

  method PackEnum(bref: BitRef, e: nat, nofTypes: nat, nofExts: nat, ext: bool) returns (code: Code)
    requires bref.Valid() && EncodeEnum(e, nofTypes, nofExts, ext) != EncodeUndefined
    modifies bref
    ensures bref.Valid() && Appended(old(bref.bits), bref.bits, code, EncodeEnum(e, nofTypes, nofExts, ext))
  {
    if e >= nofTypes {
      return EncodeFail;
    }
    if ext {
      var root := nofTypes - nofExts;
      bref.Pack(if e >= root then 1 else 0, 1);
      if e < root {
        bref.Pack(e, CeilLog2(root));
        code := Success;
      } else {
        code := PackSmall(bref, e - root);
      }
    } else {
      bref.Pack(e, CeilLog2(nofTypes));
      code := Success;
    }
  }

  method UnpackEnum(bref: CBitRef, nofTypes: nat, nofExts: nat, ext: bool) returns (r: Result<nat>)
    requires bref.Valid() && DecodeEnum(bref.stream, bref.pos, nofTypes, nofExts, ext) != DecodeUndefined
    modifies bref
    ensures bref.Valid() && Consumed(bref.pos, r, DecodeEnum(bref.stream, old(bref.pos), nofTypes, nofExts, ext))
  {
    var val: nat;
    if ext {
      var outside := bref.Unpack(1);
      if outside == 0 {
        val := bref.Unpack(CeilLog2(nofTypes - nofExts));
      } else {
        var k := UnpackSmall(bref);
        if k.Fail? {
          return Fail;
        }
        val := k.value + (nofTypes - nofExts);
      }
    } else {
      val := bref.Unpack(CeilLog2(nofTypes));
    }
    if val >= nofTypes {
      return Fail;
    }
    return Ok(val);
  }
}
