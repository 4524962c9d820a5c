/** The bit cursors of the PER codec: `BitRef` appends bits to a growing byte
    buffer, `CBitRef` reads bits from a fixed one. A byte is a number below 256;
    shifts and masks of the source are products, quotients and remainders by
    powers of two. */
module BitRefs {
  import opened Bits
  import opened Per

  /** `back += (uint8_t)x`, in eight bits. */
  function AddToByte(b: byte, x: nat): byte {
    (b + x % 256) % 256
  }

  lemma AddToByteExact(b: byte, x: nat)
    requires b + x < 256
    ensures AddToByte(b, x) == b + x
  {
  }

  lemma ShlSplice(c: nat, x: nat, m: nat, k: nat)
    ensures Shl(c, m + k) + Shl(x, k) == Shl(Shl(c, m) + x, k)
  {
    ShlShl(c, m, k);
    ShlAdd(Shl(c, m), x, k);
  }

  /** A byte whose top o bits are c and whose next m bits are x. */
  lemma SplicedByte(c: nat, o: nat, x: nat, m: nat, k: nat)
    requires o + m + k == 8 && c < Pow2(o) && x < Pow2(m)
    ensures Shl(Shl(c, m) + x, k) < 256
    ensures NatBits(Shl(Shl(c, m) + x, k), 8)[..o + m] == NatBits(c, o) + NatBits(x, m)
  {
    var y := Shl(c, m) + x;
    ShlBound(c, o, m);
    assert y < Pow2(o + m);
    ShlBound(y, o + m, k);
    assert Pow2(8) == 256 by { Pow2Values(); }
    SplicedBits(c, o, x, m);
    ShiftedBits(y, o + m, k);
  }

  lemma ShiftedBits(y: nat, n: nat, k: nat)
    ensures NatBits(Shl(y, k), n + k)[..n] == NatBits(y, n)
    ensures Low(Shl(y, k), k) == 0
  {
    NatBitsSplit(Shl(y, k), n, k);
    ShiftMaskUnique(y, 0, k);
  }

  lemma HighPart(b: byte, o: nat, l: nat)
    requires o + l == 8 && Low(b, l) == 0
    ensures b == Shl(Shr(b, l), l) && Shr(b, l) < Pow2(o)
    ensures NatBits(b, 8)[..o] == NatBits(Shr(b, l), o)
  {
    ShiftMask(b, l);
    Pow2Values();
    ShrBound(b, o, l);
    NatBitsSplit(b, o, l);
  }

  lemma DepositValue(b: byte, o: nat, x: nat, m: nat, k: nat)
    requires o + m + k == 8 && Low(b, m + k) == 0 && x < Pow2(m)
    ensures AddToByte(b, Shl(x, k)) == Shl(Shl(Shr(b, m + k), m) + x, k)
  {
    var c := Shr(b, m + k);
    HighPart(b, o, m + k);
    ShlSplice(c, x, m, k);
    SplicedByte(c, o, x, m, k);
    AddToByteExact(b, Shl(x, k));
  }

  /** Adding m bits just below the o bits a byte already holds cannot carry, and
      leaves the rest of the byte zero. */
  lemma DepositByte(b: byte, o: nat, x: nat, m: nat, k: nat)
    requires o + m + k == 8 && Low(b, m + k) == 0 && x < Pow2(m)
    ensures Low(AddToByte(b, Shl(x, k)), k) == 0
    ensures NatBits(AddToByte(b, Shl(x, k)), 8)[..o + m] == NatBits(b, 8)[..o] + NatBits(x, m)
  {
    var c := Shr(b, m + k);
    DepositValue(b, o, x, m, k);
    HighPart(b, o, m + k);
    SplicedByte(c, o, x, m, k);
    ShiftedBits(Shl(c, m) + x, o + m, k);
  }

  /** The same step on the last byte of a buffer. */
  lemma DepositLast(init: seq<byte>, b: byte, o: nat, x: nat, m: nat, k: nat)
    requires o + m + k == 8 && Low(b, m + k) == 0 && x < Pow2(m)
    ensures Low(AddToByte(b, Shl(x, k)), k) == 0
    ensures BytesBits(init + [AddToByte(b, Shl(x, k))])[..8 * |init| + o + m]
         == BytesBits(init + [b])[..8 * |init| + o] + NatBits(x, m)
  {
    var b' := AddToByte(b, Shl(x, k));
    DepositByte(b, o, x, m, k);
    assert BytesBits(init + [b'])[..8 * |init| + o + m] == BytesBits(init) + NatBits(b', 8)[..o + m] by {
      LastPrefix(init, b', o + m);
    }
    assert BytesBits(init + [b])[..8 * |init| + o] == BytesBits(init) + NatBits(b, 8)[..o] by {
      LastPrefix(init, b, o);
    }
  }

  lemma LastPrefix(init: seq<byte>, b: byte, o: nat)
    requires o <= 8
    ensures BytesBits(init + [b])[..8 * |init| + o] == BytesBits(init) + NatBits(b, 8)[..o]
  {
    BytesBitsConcat(init, [b]);
    BytesBitsOne(b);
  }

  /** The unused tail of a partly written last byte is zero. */
  lemma ZeroTail(w: seq<byte>, o: nat)
    requires w != [] && 0 < o < 8 && Low(w[|w| - 1], 8 - o) == 0
    ensures BytesBits(w) == BytesBits(w)[..8 * (|w| - 1) + o] + Zeros(8 - o)
  {
    var b := w[|w| - 1];
    NatBitsSplit(b, o, 8 - o);
    NatBitsLow(b, 8 - o);
    NatBitsZero(8 - o);
  }

  /** A window of m bits inside one byte, taken by mask and shift. */
  lemma ByteWindow(bs: seq<byte>, it: nat, o: nat, m: nat, k: nat)
    requires it < |bs| && o + m + k == 8
    ensures BytesBits(bs)[8 * it + o..8 * it + o + m] == NatBits(Low(Shr(bs[it], k), m), m)
  {
    var h := Shr(bs[it], k);
    BytesBitsWindow(bs, it, o, m);
    NatBitsSplit(bs[it], o + m, k);
    NatBitsSplit(h, o, m);
    NatBitsLow(h, m);
  }

  /** A buffer whose last byte is written only down to bit `o`, and is zero below. */
  ghost predicate WellFormed(w: seq<byte>, o: nat) {
    o < 8 && (o > 0 ==> w != [] && Low(w[|w| - 1], 8 - o) == 0)
  }

  ghost function Written(w: seq<byte>, o: nat): (s: seq<bool>)
    requires WellFormed(w, o)
  {
    BytesBits(w)[..8 * (|w| - (if o == 0 then 0 else 1)) + o]
  }

  /** One turn of the packing loop: m of the n bits of v go to the open byte b. */
  lemma PackByte(init: seq<byte>, b: byte, o: nat, v: nat, n: nat, m: nat, b': byte)
    requires m <= n && o + m <= 8 && Low(b, 8 - o) == 0
    requires b' == AddToByte(b, Shl(Shr(Low(v, n), n - m), 8 - o - m))
    ensures Low(b', 8 - o - m) == 0
    ensures BytesBits(init + [b'])[..8 * |init| + o + m] + NatBits(Low(v, n), n - m)
         == BytesBits(init + [b])[..8 * |init| + o] + NatBits(v, n)
  {
    var x := Shr(Low(v, n), n - m);
    TopBits(Low(v, n), n, m);
    NatBitsLow(v, n);
    DepositLast(init, b, o, x, m, 8 - o - m);
  }

  /** The same turn on the whole buffer: a zero byte is appended first when no byte is open. */
  lemma PackStep(w: seq<byte>, o: nat, v: nat, n: nat, m: nat, init: seq<byte>, b: byte, b': byte, o': nat)
    requires WellFormed(w, o) && 0 < m <= n && o + m <= 8 && o' == (if o + m == 8 then 0 else o + m)
    requires if o == 0 then init == w && b == 0 else init == w[..|w| - 1] && b == w[|w| - 1]
    requires b' == AddToByte(b, Shl(Shr(Low(v, n), n - m), 8 - o - m))
    ensures WellFormed(init + [b'], o')
    ensures Written(init + [b'], o') + NatBits(Low(v, n), n - m) == Written(w, o) + NatBits(v, n)
  {
    LowZero(8);
    PackByte(init, b, o, v, n, m, b');
    OpenByte(init, b', o + m, o');
    if o == 0 {
      assert BytesBits(w + [0])[..8 * |w|] == BytesBits(w)[..8 * |w|] by { BytesBitsConcat(w, [0]); }
    } else {
      assert init + [b] == w;
    }
  }

  lemma OpenByte(init: seq<byte>, b: byte, o: nat, o': nat)
    requires 0 < o <= 8 && Low(b, 8 - o) == 0 && o' == (if o == 8 then 0 else o)
    ensures WellFormed(init + [b], o')
    ensures Written(init + [b], o') == BytesBits(init + [b])[..8 * |init| + o]
  {
    var w := init + [b];
    assert |w| == |init| + 1 && w[|w| - 1] == b;
  }

  class BitRef {
    var writer: seq<byte>
    var offset: nat

    /** The bits written so far. */
    ghost var bits: seq<bool>

    ghost predicate Valid()
      reads this
    {
      ValidRec(2)
    }

    ghost predicate ValidRec(guard: nat)
      reads this
      decreases guard
    {
      if guard > 0 then ValidRec(guard - 1) else WellFormed(writer, offset) && bits == Written(writer, offset)
    }

    lemma ValidDef()
      ensures Valid() <==> WellFormed(writer, offset) && bits == Written(writer, offset)
    {
      assert ValidRec(2) == ValidRec(1) == ValidRec(0);
    }

    /** Number of bits written, padding of closed octets included. */
    method Distance() returns (d: nat)
      requires Valid()
      ensures d == |bits|
    {
      ValidDef();
      d := 8 * (|writer| - (if offset == 0 then 0 else 1)) + offset;
    }

    constructor ()
      ensures Valid() && bits == []
    {
      writer := [];
      offset := 0;
      bits := [];
      new;
      ValidDef();
    }

    /** Copies the cursor and the bytes behind it. */
    constructor Copy(other: BitRef)
      requires other.Valid()
      ensures Valid() && bits == other.bits
    {
      writer := other.writer;
      offset := other.offset;
      bits := other.bits;
      new;
      ValidDef();
      other.ValidDef();
    }

    method Assign(other: BitRef)
      requires other.Valid()
      modifies this
      ensures Valid() && bits == old(other.bits)
    {
      other.ValidDef();
      writer, offset, bits := other.writer, other.offset, other.bits;
      ValidDef();
    }

    /** Starts over on an empty buffer. */
    method Reset()
      modifies this
      ensures Valid() && bits == []
    {
      writer, offset, bits := [], 0, [];
      ValidDef();
    }

    method Pack(v: nat, n: nat)
      requires Valid() && n < 64
      modifies this
      ensures Valid() && bits == old(bits) + NatBits(v, n)
    {
      ValidDef();
      var val: nat, nBits: nat := v, n;
      while nBits > 0
        invariant WellFormed(writer, offset) && nBits <= n
        invariant Written(writer, offset) + NatBits(val, nBits) == old(bits) + NatBits(v, n)
      {
        ghost var w, o, v0, n0 := writer, offset, val, nBits;
        if offset == 0 {
          writer := writer + [0];
        }
        val := Low(val, nBits);
        var last := |writer| - 1;
        ghost var init, b := writer[..last], writer[last];
        if 8 - offset > nBits {
          writer := writer[..last] + [AddToByte(writer[last], Shl(val, 8 - offset - nBits))];
          offset := offset + nBits;
          nBits := 0;
        } else {
          writer := writer[..last] + [AddToByte(writer[last], Shr(val, nBits - 8 + offset))];
          nBits := nBits - (8 - offset);
          offset := 0;
        }
        PackStep(w, o, v0, n0, n0 - nBits, init, b, writer[last], offset);
      }
      bits := Written(writer, offset);
      ValidDef();
    }

    method PackBytes(bytes: seq<byte>)
      requires Valid()
      modifies this
      ensures Valid() && bits == old(bits) + BytesBits(bytes)
    {
      ValidDef();
      if bytes == [] {
        return;
      }
      if offset == 0 {
        AppendBytes(writer, bytes);
        writer := writer + bytes;
        bits := Written(writer, offset);
        ValidDef();
      } else {
        PackEach(bytes);
      }
    }

    /** The byte-by-byte loop that the octet string packers also run. */
    method PackEach(bytes: seq<byte>)
      requires Valid()
      modifies this
      ensures Valid() && bits == old(bits) + BytesBits(bytes)
    {
      for i := 0 to |bytes|
        invariant Valid() && bits == old(bits) + BytesBits(bytes[..i])
      {
        Pack(bytes[i], 8);
        BytesBitsSnoc(bytes, i);
      }
      assert bytes[..|bytes|] == bytes;
    }

    method AlignBytesZero()
      requires Valid()
      modifies this
      ensures Valid() && bits == old(bits) + PadBits(|old(bits)|)
    {
      ValidDef();
      if offset > 0 {
        ZeroTail(writer, offset);
      }
      offset := 0;
      bits := Written(writer, offset);
      ValidDef();
    }

    /** The buffer holds the bits and, in its last byte, zeros after them. */
    lemma BufferBits()
      requires Valid()
      ensures BytesBits(writer) == bits + PadBits(|bits|)
    {
      hide BytesBits;
      ValidDef();
      if offset > 0 {
        ZeroTail(writer, offset);
      }
    }
  }

  lemma AppendBytes(w: seq<byte>, bytes: seq<byte>)
    ensures BytesBits(w)[..8 * |w|] == BytesBits(w)
    ensures BytesBits(w + bytes)[..8 * (|w| + |bytes|)] == BytesBits(w) + BytesBits(bytes)
  {
    BytesBitsConcat(w, bytes);
  }

  lemma {:induction false} LowZero(m: nat)
    ensures Low(0, m) == 0
  {
    LowDef(0, m);
    if m > 0 { LowZero(m - 1); }
  }

  /** The top m of n bits, taken by a right shift. */
  lemma TopBits(v: nat, n: nat, m: nat)
    requires m <= n && v < Pow2(n)
    ensures Shr(v, n - m) < Pow2(m)
    ensures NatBits(v, n) == NatBits(Shr(v, n - m), m) + NatBits(v, n - m)
  {
    NatBitsSplit(v, m, n - m);
    ShrBound(v, m, n - m);
  }

  class CBitRef {
    const buffer: seq<byte>
    var it: nat
    var offset: nat

    /** The bits of the buffer, and the number of them read so far. */
    ghost const stream: seq<bool>
    ghost var pos: nat

    ghost predicate Valid()
      reads this
    {
      ValidRec(2)
    }

    ghost predicate Inv()
      reads this
    {
      && stream == BytesBits(buffer) && pos == 8 * it + offset
      && it <= |buffer| && offset < 8 && (offset > 0 ==> it < |buffer|)
    }

    ghost predicate ValidRec(guard: nat)
      reads this
      decreases guard
    {
      if guard > 0 then ValidRec(guard - 1) else Inv()
    }

    lemma ValidDef()
      ensures Valid() <==> Inv()
    {
      assert ValidRec(2) == ValidRec(1) == ValidRec(0);
    }

    method Distance() returns (d: nat)
      requires Valid()
      ensures d == pos
    {
      ValidDef();
      d := offset + 8 * it;
    }

    constructor (bytes: seq<byte>)
      ensures Valid() && buffer == bytes && stream == BytesBits(bytes) && pos == 0
    {
      buffer := bytes;
      it := 0;
      offset := 0;
      stream := BytesBits(bytes);
      pos := 0;
      new;
      ValidDef();
    }

    /** Reads n bits. The source looks at each byte before it compares the cursor
        with the end, so the bits must be there. */
    method Unpack(n: nat) returns (val: nat)
      requires Valid() && n <= 64 && Read(stream, pos, n).Decoded?
      modifies this
      ensures Valid() && Read(stream, old(pos), n) == Decoded(val, pos)
    {
      ValidDef();
      ghost var p0, p, x := pos, pos, 0;
      var nBits: nat := n;
      val := 0;
      ShlZero(n);
      DenotesNothing(buffer, p0);
      while nBits > 0
        invariant it <= |buffer| && offset < 8 && (offset > 0 ==> it < |buffer|)
        invariant nBits <= n && 8 * it + offset == p == p0 + n - nBits
        invariant Denotes(buffer, p0, p, x) && val == Shl(x, nBits)
      {
        if 8 - offset > nBits {
          var shift := 8 - offset - nBits;
          x := UnpackLast(buffer, it, offset, p0, p, x, nBits, shift, val);
          val := val + Low(Shr(buffer[it], shift), nBits);
          p := p + nBits;
          offset := offset + nBits;
          nBits := 0;
        } else {
          var left, shift := 8 - offset, nBits - 8 + offset;
          x := UnpackFull(buffer, it, offset, p0, p, x, nBits, left, shift, val);
          val := val + Shl(Low(buffer[it], left), shift);
          p := p + left;
          nBits := shift;
          offset := 0;
          it := it + 1;
        }
      }
      pos := p;
      ShlDef(x, 0);
      DenotedNumber(buffer, p0, n, x);
      ValidDef();
    }

    method AlignBytes()
      requires Valid()
      modifies this
      ensures Valid() && pos == AlignUp(old(pos)) <= |stream|
    {
      ValidDef();
      if offset != 0 {
        it := it + 1;
        offset := 0;
      }
      pos := 8 * it;
      ValidDef();
    }

    /** Skips to where reading n bits would end, or fails and stays put when there are
        fewer. */
    method AdvanceBits(n: nat) returns (code: Code)
      requires Valid()
      modifies this
      ensures Valid()
      ensures var d := Read(stream, old(pos), n);
              if d.Decoded? then code == Success && pos == d.pos else code == DecodeFail && pos == old(pos)
    {
      ValidDef();
      var extra := (offset + n) % 8;
      var required := CeilOctets(offset + n);
      if required > |buffer| - it {
        return DecodeFail;
      }
      it := it + (offset + n) / 8;
      offset := extra;
      pos := pos + n;
      ValidDef();
      return Success;
    }
  }

  lemma DenotedNumber(bs: seq<byte>, p0: nat, n: nat, x: nat)
    requires Denotes(bs, p0, p0 + n, x)
    ensures p0 + n <= 8 * |bs| && NatAt(BytesBits(bs), p0, p0 + n) == x
  {
    NatAtDef(BytesBits(bs), p0, p0 + n);
    NotationUnique(x, NatAt(BytesBits(bs), p0, p0 + n), n);
  }

  /** x is the number that the bits from p0 to p denote. */
  ghost predicate Denotes(bs: seq<byte>, p0: nat, p: nat, x: nat) {
    p0 <= p <= 8 * |bs| && x < Pow2(p - p0) && NatBits(x, p - p0) == BytesBits(bs)[p0..p]
  }

  lemma DenotesNothing(bs: seq<byte>, p: nat)
    requires p <= 8 * |bs|
    ensures Denotes(bs, p, p, 0)
  {
    Pow2Def(0);
  }

  /** One turn of the unpacking loop: m of the n missing bits come from byte `it`. */
  lemma UnpackStep(bs: seq<byte>, it: nat, o: nat, p0: nat, p: nat, x: nat, n: nat, m: nat, k: nat)
    returns (x': nat)
    requires it < |bs| && o + m + k == 8 && m <= n && p == 8 * it + o && Denotes(bs, p0, p, x)
    ensures Denotes(bs, p0, p + m, x')
    ensures Shl(x', n - m) == Shl(x, n) + Shl(Low(Shr(bs[it], k), m), n - m)
  {
    var y := Low(Shr(bs[it], k), m);
    x' := Shl(x, m) + y;
    ByteWindow(bs, it, o, m, k);
    SplicedBits(x, p - p0, y, m);
    ShlBound(x, p - p0, m);
    ShlSplice(x, y, m, n - m);
    assert BytesBits(bs)[p0..p + m] == BytesBits(bs)[p0..p] + BytesBits(bs)[p..p + m];
  }

  lemma UnpackLast(bs: seq<byte>, it: nat, o: nat, p0: nat, p: nat, x: nat, n: nat, k: nat, val: nat)
    returns (x': nat)
    requires it < |bs| && o + n + k == 8 && p == 8 * it + o && Denotes(bs, p0, p, x) && val == Shl(x, n)
    ensures Denotes(bs, p0, p + n, x')
    ensures val + Low(Shr(bs[it], k), n) == Shl(x', 0)
  {
    x' := UnpackStep(bs, it, o, p0, p, x, n, n, k);
    ShlDef(Low(Shr(bs[it], k), n), 0);
  }

  lemma UnpackFull(bs: seq<byte>, it: nat, o: nat, p0: nat, p: nat, x: nat, n: nat, m: nat, k: nat, val: nat)
    returns (x': nat)
    requires it < |bs| && o + m == 8 && n == m + k && p == 8 * it + o && Denotes(bs, p0, p, x) && val == Shl(x, n)
    ensures Denotes(bs, p0, p + m, x')
    ensures val + Shl(Low(bs[it], m), k) == Shl(x', k)
  {
    x' := UnpackStep(bs, it, o, p0, p, x, n, m, 0);
    ShrDef(bs[it], 0);
  }
}
