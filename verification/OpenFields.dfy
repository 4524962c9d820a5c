/** Open type fields: the content is written to a buffer of its own, then copied behind
    its length in octets; it is read in place. */
module OpenFields {
  import opened Bits
  import opened Per
  import opened BitRefs
  import opened Lengths

  const TWO32 := 0x1_0000_0000

  /** What closing a field adds to the outer buffer. A length that cannot be encoded is
      left out, as the writer ignores the return code. */
  function OpenFieldBits(inner: seq<bool>, aligned: bool, pos: nat): seq<bool> {
    var content := inner + PadBits(|inner|);
    match EncodeLength(CeilOctets(|inner|), aligned, pos)
    case Encoded(length) => length + content
    case _ => content
  }

  class VarlengthFieldPackGuard {
    const brefStart: BitRef
    const tracker: BitRef
    const align: bool

    ghost predicate Valid()
      reads this, brefStart, tracker
    {
      brefStart != tracker && brefStart.Valid() && tracker.Valid()
    }

    /** Opens a field: from here on the cursor writes to an empty buffer. */
    constructor (bref: BitRef, align: bool)
      requires bref.Valid()
      modifies bref
      ensures Valid() && fresh(brefStart) && tracker == bref && this.align == align
      ensures brefStart.bits == old(bref.bits) && bref.bits == []
    {
      brefStart := new BitRef.Copy(bref);
      tracker := bref;
      this.align := align;
      new;
      bref.Reset();
    }

    /** Closes the field and returns the cursor to the outer buffer, extended by the length
        of the field in octets, its content, and zeros up to a whole octet. */
    method Close()
      requires Valid()
      modifies brefStart, tracker
      ensures tracker.Valid()
      ensures tracker.bits == old(brefStart.bits) + OpenFieldBits(old(tracker.bits), align, |old(brefStart.bits)|)
      ensures var outer, inner := old(brefStart.bits), old(tracker.bits);
              var n := CeilOctets(|inner|);
              n < ASN_16K ==>
                tracker.bits == outer + (EncodeLength(n, align, |outer|).bits + (inner + Zeros(8 * n - |inner|)))
    {
      ghost var inner, outer := tracker.bits, brefStart.bits;
      var d := tracker.Distance();
      var leftover := 7 - ((d - 1) % TWO32) % 8;
      Leftover(d, leftover);
      tracker.Pack(0, leftover);
      NatBitsZero(leftover);
      assert tracker.bits == inner + PadBits(|inner|);
      d := tracker.Distance();
      var nofBytes := d / 8;
      var code := PackLength(brefStart, nofBytes, align);
      assert nofBytes == CeilOctets(|inner|);
      tracker.BufferBits();
      assert BytesBits(tracker.writer) == tracker.bits by { assert PadBits(|tracker.bits|) == []; }
      ghost var mid := brefStart.bits;
      brefStart.PackBytes(tracker.writer);
      Closed(outer, inner, align, mid, code);
      tracker.Assign(brefStart);
    }
  }

  /** The number of spare bits is computed so that no bits are added to an empty field. */
  lemma Leftover(d: nat, leftover: int)
    requires leftover == 7 - ((d - 1) % TWO32) % 8
    ensures leftover == AlignUp(d) - d
  {
    var r := (d - 1) % TWO32;
    var q := (d - 1) / TWO32;
    assert d - 1 == TWO32 * q + r && 0 <= r;
    var k := r / 8;
    assert r == 8 * k + r % 8;
    NextBoundary(d, 0x2000_0000 * q + k, r % 8);
  }

  lemma NextBoundary(d: nat, m: int, x: nat)
    requires d - 1 == 8 * m + x && x < 8
    ensures AlignUp(d) == 8 * m + 8
  {
  }

  lemma Closed(outer: seq<bool>, inner: seq<bool>, aligned: bool, mid: seq<bool>, code: Code)
    requires var e := EncodeLength(CeilOctets(|inner|), aligned, |outer|);
             Appended(outer, mid, code, e) && (code != Success ==> mid == outer)
    ensures mid + (inner + PadBits(|inner|)) == outer + OpenFieldBits(inner, aligned, |outer|)
  {
    var content := inner + PadBits(|inner|);
    match EncodeLength(CeilOctets(|inner|), aligned, |outer|)
    case Encoded(length) => assert (outer + length) + content == outer + (length + content);
    case _ =>
  }

  /** Closing a field that was read: skips what is left of it. The rest is read into a
      32-bit variable, and its width is computed in 32-bit unsigned arithmetic. */
  ghost function SkipRest(s: seq<bool>, start: nat, len: nat, p: nat): Decoding<nat> {
    var n := (8 * len - (p - start)) % TWO32;
    if n > 32 then DecodeUndefined else Read(s, p, n)
  }

  /** However much of a field its reader has consumed, closing it ends exactly at the end
      of the field or is undefined. */
  lemma SkipRestExact(s: seq<bool>, start: nat, len: nat, p: nat)
    requires start <= p && |s| < TWO32 && SkipRest(s, start, len, p).Decoded?
    requires 8 * len < TWO32
    ensures SkipRest(s, start, len, p).pos == start + 8 * len
  {
    var n := (8 * len - (p - start)) % TWO32;
    ReadBound(s, p, n);
    assert p + n == SkipRest(s, start, len, p).pos <= |s|;
    RestWraps(8 * len - (p - start), n);
  }

  lemma RestWraps(x: int, n: nat)
    requires n == x % TWO32 && -TWO32 < x < TWO32
    ensures n == x || n == x + TWO32
  {
  }

  /** It is defined if and only if the reader has left at most 32 bits. */
  lemma SkipRestDefined(s: seq<bool>, start: nat, len: nat, p: nat)
    requires start <= p <= start + 8 * len <= |s| && 8 * len < TWO32
    ensures SkipRest(s, start, len, p).Decoded? <==> start + 8 * len - p <= 32
    ensures SkipRest(s, start, len, p) == DecodeUndefined <==> start + 8 * len - p > 32
  {
  }

  lemma SkipRestEnds(s: seq<bool>, start: nat, len: nat, p: nat)
    requires start <= p <= start + 8 * len <= |s| && 8 * len < TWO32 && start + 8 * len - p <= 32
    ensures var d := SkipRest(s, start, len, p); d.Decoded? && d.pos == start + 8 * len
  {
  }

  class VarlengthFieldUnpackGuard {
    const len: nat
    const start: nat
    const tracker: CBitRef

    /** Reads the length of a field. Its return code is ignored, so an unsupported
        determinant opens a field of whatever length the reader left behind. */
    constructor (bref: CBitRef, align: bool)
      requires bref.Valid() && LengthOut(bref.stream, bref.pos, align).Decoded?
      modifies bref
      ensures tracker == bref && bref.Valid() && start == bref.pos
      ensures var d := LengthOut(bref.stream, old(bref.pos), align); d.value.0 == len && d.pos == bref.pos
    {
      var l, ok := UnpackLength(bref, align);
      len := l;
      var d := bref.Distance();
      start := d;
      tracker := bref;
    }

    method Close()
      requires tracker.Valid() && SkipRest(tracker.stream, start, len, tracker.pos).Decoded?
      modifies tracker
      ensures tracker.Valid() && tracker.pos == SkipRest(tracker.stream, start, len, old(tracker.pos)).pos
    {
      var d := tracker.Distance();
      var n := (len * 8 - (d - start)) % TWO32;
      var pad := tracker.Unpack(n);
    }
  }

  /** A field on the wire: its length is read, its content starts at an octet boundary in
      the aligned variant, and closing it after the content ends behind the padding. */
  lemma OpenFieldWire(s: seq<bool>, pos: nat, inner: seq<bool>, aligned: bool) returns (start: nat)
    requires CeilOctets(|inner|) < ASN_16K && At(s, pos, OpenFieldBits(inner, aligned, pos))
    ensures LengthOut(s, pos, aligned) == Decoded((CeilOctets(|inner|), true), start)
    ensures At(s, start, inner) && (aligned ==> AlignUp(start) == start)
    ensures var d := SkipRest(s, start, CeilOctets(|inner|), start + |inner|);
            d.Decoded? && d.pos == pos + |OpenFieldBits(inner, aligned, pos)|
  {
    hide SkipRest, LengthOut, LengthBits, Read;
    var n, pad := CeilOctets(|inner|), PadBits(|inner|);
    var length := EncodeLength(n, aligned, pos).bits;
    start := pos + |length|;
    AtSplit(s, pos, length, inner + pad);
    AtSplit(s, start, inner, pad);
    LengthRoundTrip(s, pos, n, aligned);
    DeterminantSize(n, aligned, pos);
    SkipRestEnds(s, start, n, start + |inner|);
  }
}
