/** BIT STRING (X.691 section 15). The octets of a bit string are stored least
    significant first, so a string of n bits is an n-bit number. */
module BitStrings {
  import opened Bits
  import opened Per
  import opened BitRefs
  import opened Lengths
  import opened Numbers
  import opened Integers
  import opened OctetStrings

  // Octets as a number, least significant first.

  function LittleEndian(buf: seq<byte>): (r: nat)
    ensures r < Pow2(8 * |buf|)
  {
    if buf == [] then Pow2Def(0); 0
    else
      var k := |buf| - 1;
      LittleEndianBound(LittleEndian(buf[..k]), buf[k], k);
      LittleEndian(buf[..k]) + Shl(buf[k], 8 * k)
  }

  lemma LittleEndianBound(low: nat, b: byte, k: nat)
    requires low < Pow2(8 * k)
    ensures low + Shl(b, 8 * k) < Pow2(8 * (k + 1))
  {
    Pow2Values();
    ShlBound(b, 8, 8 * k);
  }

  /** The bits of octets k-1 down to 0. */
  function DownBits(buf: seq<byte>, k: nat): (r: seq<bool>)
    requires k <= |buf|
    ensures |r| == 8 * k
  {
    if k == 0 then [] else NatBits(buf[k - 1], 8) + DownBits(buf, k - 1)
  }

  lemma {:induction false} DownBitsNumber(buf: seq<byte>, k: nat)
    requires k <= |buf|
    ensures DownBits(buf, k) == NatBits(LittleEndian(buf[..k]), 8 * k)
    decreases k
  {
    if k == 0 {
      NatBitsDef(LittleEndian(buf[..0]), 0);
    } else {
      DownBitsNumber(buf, k - 1);
      assert buf[..k][..k - 1] == buf[..k - 1];
      SplicedBits(buf[k - 1], 8, LittleEndian(buf[..k - 1]), 8 * (k - 1));
    }
  }

  /** Bits of the highest octet that belong to a string of n >= 1 bits. */
  function TopBits(n: nat): (r: nat)
    requires n >= 1
    ensures 1 <= r <= 8 && r == n - 8 * (CeilOctets(n) - 1)
  {
    ((n - 1) % 8) + 1
  }

  function BitFieldBits(buf: seq<byte>, n: nat): seq<bool>
    requires n >= 1 && |buf| == CeilOctets(n)
  {
    NatBits(buf[|buf| - 1], TopBits(n)) + DownBits(buf, |buf| - 1)
  }

  /** A bit field on the wire is the n-bit notation of the number its octets hold. */
  lemma BitFieldNumber(buf: seq<byte>, n: nat)
    requires n >= 1 && |buf| == CeilOctets(n)
    ensures BitFieldBits(buf, n) == NatBits(LittleEndian(buf), n)
  {
    var k := |buf| - 1;
    DownBitsNumber(buf, k);
    SplicedBits(buf[k], TopBits(n), LittleEndian(buf[..k]), 8 * k);
  }

  lemma {:induction false} ZeroNumber(buf: seq<byte>)
    requires forall i | 0 <= i < |buf| :: buf[i] == 0
    ensures LittleEndian(buf) == 0
    decreases |buf|
  {
    if buf != [] {
      ZeroNumber(buf[..|buf| - 1]);
      ShlZero(8 * (|buf| - 1));
    }
  }

  // Conversion from and to numbers.

  /** Fills the octets with the nBits low bits of a number; more than 64 are refused. */
  method FromNumber(buf: array<byte>, number: nat, nBits: nat)
    requires buf.Length == CeilOctets(nBits)
    modifies buf
    ensures nBits <= 64 ==> LittleEndian(buf[..]) == Low(number, nBits)
    ensures nBits > 64 ==> buf[..] == old(buf[..])
  {
    hide LittleEndian;
    if nBits > 64 {
      return;
    }
    FillOctets(buf, number);
    var offset := nBits % 8;
    if offset > 0 {
      var top := CeilOctets(nBits) - 1;
      ghost var before := buf[..];
      MaskTop(number, top, offset, before);
      buf[top] := Low(buf[top], offset);
      Snoc(buf[..], top, before);
    }
  }

  method FillOctets(buf: array<byte>, number: nat)
    modifies buf
    ensures LittleEndian(buf[..]) == Low(number, 8 * buf.Length)
  {
    LowDef(number, 0);
    for i := 0 to buf.Length
      invariant LittleEndian(buf[..i]) == Low(number, 8 * i)
    {
      OctetOf(number, i);
      ghost var before := buf[..i + 1];
      assert before[..i] == buf[..i];
      buf[i] := Low(Shr(number, 8 * i), 8);
      Snoc(buf[..i + 1], i, before);
    }
    assert buf[..buf.Length] == buf[..];
  }

  /** The number changes with its top octet only. */
  lemma Snoc(after: seq<byte>, top: nat, before: seq<byte>)
    requires |after| == |before| == top + 1 && after[..top] == before[..top]
    ensures LittleEndian(after) == LittleEndian(before[..top]) + Shl(after[top], 8 * top)
  {
  }

  /** One more octet of a number. */
  lemma OctetOf(number: nat, i: nat)
    ensures Low(Shr(number, 8 * i), 8) < 256
    ensures Low(number, 8 * i) + Shl(Low(Shr(number, 8 * i), 8), 8 * i) == Low(number, 8 * (i + 1))
  {
    Pow2Values();
    LowSplit(number, 8, 8 * i);
  }

  /** The low n + m bits are n bits above the low m bits. */
  lemma LowSplit(v: nat, n: nat, m: nat)
    ensures Low(v, n + m) == Low(v, m) + Shl(Low(Shr(v, m), n), m)
  {
    var h := Shr(v, m);
    ShiftMask(v, m);
    ShiftMask(h, n);
    ShlAdd(Shl(Shr(h, n), n), Low(h, n), m);
    ShlShl(Shr(h, n), n, m);
    var low := Shl(Low(h, n), m) + Low(v, m);
    assert v == Shl(Shr(h, n), n + m) + low;
    ShlBound(Low(h, n), n, m);
    ShiftMaskUnique(Shr(h, n), low, n + m);
  }

  lemma MaskTop(number: nat, top: nat, offset: nat, buf: seq<byte>)
    requires offset <= 8 && |buf| == top + 1 && LittleEndian(buf) == Low(number, 8 * (top + 1))
    ensures LittleEndian(buf[..top]) + Shl(Low(buf[top], offset), 8 * top) == Low(number, offset + 8 * top)
  {
    hide Shl, Shr;
    var lo := LittleEndian(buf[..top]);
    OctetOf(number, top);
    ShiftMaskUnique(buf[top], lo, 8 * top);
    ShiftMaskUnique(Low(Shr(number, 8 * top), 8), Low(number, 8 * top), 8 * top);
    LowOfLow(Shr(number, 8 * top), offset, 8);
    LowSplit(number, offset, 8 * top);
  }

  lemma {:induction false} LowOfLow(v: nat, m: nat, n: nat)
    requires m <= n
    ensures Low(Low(v, n), m) == Low(v, m)
    decreases m
  {
    LowDef(v, n);
    LowDef(v, m);
    LowDef(Low(v, n), m);
    if m > 0 {
      LowOfLow(v / 2, m - 1, n - 1);
    }
  }

  method ToNumber(buf: seq<byte>, nBits: nat) returns (val: nat)
    requires |buf| == CeilOctets(nBits)
    ensures val == if nBits > 64 then 0 else LittleEndian(buf)
  {
    if nBits > 64 {
      return 0;
    }
    val := 0;
    for i := 0 to CeilOctets(nBits)
      invariant val == LittleEndian(buf[..i])
    {
      val := val + Shl(buf[i], 8 * i);
      assert buf[..i + 1][..i] == buf[..i];
    }
    assert buf[..|buf|] == buf;
  }

  /** A number stored in a bit string comes back modulo 2^n. */
  method NumberThroughOctets(number: nat, nBits: nat) returns (val: nat)
    ensures nBits <= 64 ==> val == number % Pow2(nBits)
  {
    var buf := new byte[CeilOctets(nBits)](_ => 0);
    FromNumber(buf, number, nBits);
    val := ToNumber(buf[..], nBits);
    LowIsRemainder(number, nBits);
  }

  /** Packing the octets of a number as a bit field writes what packing the number does. */
  lemma BitFieldOfNumber(buf: seq<byte>, v: nat, n: nat)
    requires n >= 1 && |buf| == CeilOctets(n) && LittleEndian(buf) == Low(v, n)
    ensures BitFieldBits(buf, n) == NatBits(v, n)
  {
    BitFieldNumber(buf, n);
    NatBitsLow(v, n);
  }

  // Bit fields.

  /** Bit fields of more than 16 bits or variable size are aligned. */
  predicate FieldAligned(lb: nat, ub: nat, aligned: bool) {
    aligned && (lb != ub || ub > 16)
  }

  function EncodeBitField(buf: seq<byte>, n: nat, lb: nat, ub: nat, aligned: bool, pos: nat): Encoding
    requires |buf| == CeilOctets(n)
  {
    if n == 0 then Refused
    else Encoded(PadIf(FieldAligned(lb, ub, aligned), pos) + BitFieldBits(buf, n))
  }

  /** Reading k octets into positions k-1 down to 0. */
  ghost function ReadDown(s: seq<bool>, pos: nat, k: nat): (d: Decoding<seq<byte>>)
    ensures !d.Rejected? && (d.Decoded? ==> |d.value| == k)
    decreases k
  {
    if k == 0 then Decoded([], pos)
    else
      var (b, p) :- ReadByte(s, pos);
      var (rest, q) :- ReadDown(s, p, k - 1);
      Decoded(rest + [b], q)
  }

  ghost function ReadTop(s: seq<bool>, pos: nat, m: nat): Decoding<byte>
    requires m <= 8
  {
    ReadBound(s, pos, m);
    Pow2Monotone(m, 8);
    Pow2Values();
    var (v, p) :- Read(s, pos, m);
    Decoded(v, p)
  }

  ghost function DecodeBitField(s: seq<bool>, pos: nat, n: nat, lb: nat, ub: nat, aligned: bool): Decoding<seq<byte>> {
    if n > ASN_64K then Rejected(pos)
    else if n == 0 then Decoded([], pos)
    else
      var (top, p) :- ReadTop(s, AlignIf(FieldAligned(lb, ub, aligned), pos), TopBits(n));
      var (rest, q) :- ReadDown(s, p, CeilOctets(n) - 1);
      Decoded(rest + [top], q)
  }

  lemma {:induction false} ReadDownBack(s: seq<bool>, pos: nat, buf: seq<byte>, k: nat)
    requires k <= |buf| && At(s, pos, DownBits(buf, k))
    ensures ReadDown(s, pos, k) == Decoded(buf[..k], pos + 8 * k)
    decreases k
  {
    if k > 0 {
      AtSplit(s, pos, NatBits(buf[k - 1], 8), DownBits(buf, k - 1));
      ReadByteBack(s, pos, buf[k - 1]);
      ReadDownBack(s, pos + 8, buf, k - 1);
      assert buf[..k] == buf[..k - 1] + [buf[k - 1]];
    }
  }

  /** The octets with the bits above the n-th cleared. */
  function Canonical(buf: seq<byte>, n: nat): (r: seq<byte>)
    requires |buf| == CeilOctets(n)
    ensures |r| == |buf|
  {
    if n == 0 then []
    else
      assert Low(buf[|buf| - 1], TopBits(n)) <= buf[|buf| - 1];
      buf[..|buf| - 1] + [Low(buf[|buf| - 1], TopBits(n))]
  }

  /** Every bit field of 1 to 64K bits is read back, in both variants. */
  lemma BitFieldRoundTrip(s: seq<bool>, pos: nat, buf: seq<byte>, n: nat, lb: nat, ub: nat, aligned: bool)
    requires 1 <= n <= ASN_64K && |buf| == CeilOctets(n)
    requires At(s, pos, EncodeBitField(buf, n, lb, ub, aligned, pos).bits)
    ensures DecodeBitField(s, pos, n, lb, ub, aligned)
         == Decoded(Canonical(buf, n), pos + |EncodeBitField(buf, n, lb, ub, aligned, pos).bits|)
  {
    hide At, ReadDown, DownBits, FieldAligned;
    var a := FieldAligned(lb, ub, aligned);
    var k, m, p := |buf| - 1, TopBits(n), AlignIf(a, pos);
    AtSplit(s, pos, PadIf(a, pos), BitFieldBits(buf, n));
    AtSplit(s, p, NatBits(buf[k], m), DownBits(buf, k));
    NatBitsLow(buf[k], m);
    ReadBack(s, p, Low(buf[k], m), m);
    ReadDownBack(s, p + m, buf, k);
  }

  /** The form of a bit field: in the aligned variant a field of variable size or of more
      than 16 bits stands at the next octet boundary, behind zeros, and others where they
      are; the bits are those of the number the octets hold. */
  lemma FieldShape(buf: seq<byte>, n: nat, lb: nat, ub: nat, aligned: bool, pos: nat)
    requires |buf| == CeilOctets(n)
    ensures EncodeBitField(buf, n, lb, ub, aligned, pos)
         == if n == 0 then Refused
            else if aligned && (lb != ub || ub > 16)
            then Encoded(Zeros(AlignUp(pos) - pos) + NatBits(LittleEndian(buf), n))
            else Encoded(NatBits(LittleEndian(buf), n))
  {
    if n > 0 {
      BitFieldNumber(buf, n);
      assert [] + NatBits(LittleEndian(buf), n) == NatBits(LittleEndian(buf), n);
    }
  }

  /** The reader finds it there: it reads the same from a position as from the next octet
      boundary where the field is aligned, and elsewhere as in the unaligned variant. */
  lemma FieldPlace(s: seq<bool>, pos: nat, n: nat, lb: nat, ub: nat, aligned: bool)
    ensures 1 <= n <= 65536 ==>
              DecodeBitField(s, pos, n, lb, ub, aligned)
              == DecodeBitField(s, if aligned && (lb != ub || ub > 16) then AlignUp(pos) else pos, n, lb, ub, false)
    ensures 1 <= n <= 65536 ==>
              (DecodeBitField(s, pos, n, lb, ub, false).Decoded? <==> pos + n <= |s|)
    ensures DecodeBitField(s, pos, n, lb, ub, aligned).Rejected? <==> n > 65536
  {
    hide ReadDown, Read;
    if 1 <= n <= 65536 {
      var m, k := TopBits(n), CeilOctets(n) - 1;
      ReadTakes(s, pos, m);
      ReadTakes(s, AlignUp(pos), m);
      if pos + m <= |s| { DownTakes(s, pos + m, k); }
    }
  }

  lemma {:induction false} DownTakes(s: seq<bool>, pos: nat, k: nat)
    requires pos <= |s|
    ensures var d := ReadDown(s, pos, k); if pos + 8 * k <= |s| then d.Decoded? else d == DecodeUndefined
    decreases k
  {
    hide Read;
    if k > 0 {
      ReadTakes(s, pos, 8);
      if pos + 8 <= |s| { DownTakes(s, pos + 8, k - 1); }
    }
  }

  method PackBitField(bref: BitRef, buf: seq<byte>, n: nat, lb: nat, ub: nat, aligned: bool) returns (code: Code)
    requires bref.Valid() && |buf| == CeilOctets(n)
    modifies bref
    ensures bref.Valid()
    ensures Appended(old(bref.bits), bref.bits, code, EncodeBitField(buf, n, lb, ub, aligned, |old(bref.bits)|))
  {
    hide PadBits, DownBits, NatBits;
    if n == 0 {
      return EncodeFail;
    }
    if aligned && (lb != ub || ub > 16) {
      bref.AlignBytesZero();
    }
    var nOcts := CeilOctets(n);
    var offset := ((n - 1) % 8) + 1;
    bref.Pack(buf[nOcts - 1], offset);
    PackDown(bref, buf, nOcts - 1);
    return Success;
  }

  /** The loop of the writer over octets k-1 down to 0. */
  method PackDown(bref: BitRef, buf: seq<byte>, k: nat)
    requires bref.Valid() && k <= |buf|
    modifies bref
    ensures bref.Valid() && bref.bits == old(bref.bits) + DownBits(buf, k)
  {
    for i := 0 to k
      invariant bref.Valid() && bref.bits + DownBits(buf, k - i) == old(bref.bits) + DownBits(buf, k)
    {
      ghost var before, rest := bref.bits, DownBits(buf, k - i - 1);
      bref.Pack(buf[k - 1 - i], 8);
      assert bref.bits + rest == before + (NatBits(buf[k - 1 - i], 8) + rest);
    }
    assert bref.bits + [] == bref.bits;
  }

  method UnpackBitField(bref: CBitRef, n: nat, lb: nat, ub: nat, aligned: bool) returns (r: Result<seq<byte>>)
    requires bref.Valid() && DecodeBitField(bref.stream, bref.pos, n, lb, ub, aligned) != DecodeUndefined
    modifies bref
    ensures bref.Valid() && Consumed(bref.pos, r, DecodeBitField(bref.stream, old(bref.pos), n, lb, ub, aligned))
  {
    if n > ASN_64K {
      return Fail;
    }
    if n == 0 {
      return Ok([]);
    }
    if aligned && (lb != ub || ub > 16) {
      bref.AlignBytes();
    }
    var nOcts := CeilOctets(n);
    var offset := ((n - 1) % 8) + 1;
    ReadBound(bref.stream, bref.pos, offset);
    Pow2Monotone(offset, 8);
    Pow2Values();
    var top := bref.Unpack(offset);
    var rest := UnpackDown(bref, nOcts - 1);
    return Ok(rest + [top]);
  }

  /** The loop of the reader over octets k-1 down to 0. */
  method UnpackDown(bref: CBitRef, k: nat) returns (buf: seq<byte>)
    requires bref.Valid() && ReadDown(bref.stream, bref.pos, k).Decoded?
    modifies bref
    ensures bref.Valid() && ReadDown(bref.stream, old(bref.pos), k) == Decoded(buf, bref.pos)
  {
    buf := [];
    ghost var whole := ReadDown(bref.stream, bref.pos, k);
    assert whole.value + [] == whole.value;
    for i := 0 to k
      invariant bref.Valid() && |buf| == i
      invariant var d := ReadDown(bref.stream, bref.pos, k - i);
                d.Decoded? && whole == Decoded(d.value + buf, d.pos)
    {
      ReadBound(bref.stream, bref.pos, 8);
      Pow2Values();
      ghost var later := buf;
      var b := bref.Unpack(8);
      buf := [b] + buf;
      ghost var rest := ReadDown(bref.stream, bref.pos, k - i - 1).value;
      assert (rest + [b]) + later == rest + buf;
    }
    assert [] + buf == buf;
  }

  // Length prefixes. No upper bound is stated as the largest uint32_t.

  function UnboundedSize(): nat {
    Pow2(32) - 1
  }

  /** The prefix after its extension bit. The general determinant is written without
      alignment in both variants, and the bounded one in ceil(log2(ub - lb)) bits. */
  function EncodePrefixBody(len: nat, lb: nat, ub: nat, aligned: bool, pos: nat): Encoding {
    var within := lb <= len <= ub;
    if lb == ub && within then Encoded([])
    else if ub == UnboundedSize() || !within then EncodeLength(len, false, pos)
    else if CeilLog2(ub - lb) >= 64 then EncodeUndefined
    else
      var w := CeilLog2(ub - lb);
      Encoded(NatBits(len - lb, w) + PadIf(aligned, pos + w))
  }

  function EncodePrefix(len: nat, lb: nat, ub: nat, ext: bool, aligned: bool, pos: nat): Encoding {
    if ext && ub == UnboundedSize() then Refused
    else if !ext then
      if lb <= len <= ub then EncodePrefixBody(len, lb, ub, aligned, pos) else Refused
    else Then(NatBits(if lb <= len <= ub then 0 else 1, 1), EncodePrefixBody(len, lb, ub, aligned, pos + 1))
  }

  /** The reader reads a general determinant aligned in the aligned variant, and the
      bounded one as a constrained number, in ceil(log2(ub - lb + 1)) bits. */
  ghost function DecodePrefixBody(s: seq<bool>, pos: nat, outside: bool, lb: nat, ub: nat,
                                  aligned: bool): Decoding<nat> {
    if ub == UnboundedSize() || outside then DecodeLength(s, pos, aligned)
    else if lb == ub then Decoded(lb, pos)
    else DecodeBoundedLength(s, pos, lb, ub, aligned)
  }

  ghost function DecodePrefix(s: seq<bool>, pos: nat, lb: nat, ub: nat, ext: bool, aligned: bool): Decoding<nat> {
    if !ext then DecodePrefixBody(s, pos, false, lb, ub, aligned)
    else
      var (outside, p) :- Read(s, pos, 1);
      DecodePrefixBody(s, p, outside != 0, lb, ub, aligned)
  }

  predicate IsPow2(d: nat)
    requires d >= 1
  {
    Pow2(CeilLog2(d)) == d
  }

  /** The field that the writer uses for lb..ub is as wide as the one the reader uses if
      and only if ub - lb is not a power of two. */
  lemma PrefixWidths(d: nat)
    requires d >= 1
    ensures CeilLog2(d) == CeilLog2(d + 1) <==> !IsPow2(d)
    ensures IsPow2(d) ==> CeilLog2(d + 1) == CeilLog2(d) + 1
  {
    var a, b := CeilLog2(d), CeilLog2(d + 1);
    Pow2Def(a + 1);
    if b < a { Pow2Monotone(b, a - 1); }
    if b > a + 1 { Pow2Monotone(a + 1, b - 1); }
    if a < b { Pow2Monotone(a, b - 1); }
  }

  /** When writer and reader agree on the length of a string of lb..ub bits: the reader
      takes it as a plain bit field of the same width, or as whole octets of the same
      width that start at an octet boundary. */
  predicate BoundedAgrees(lb: nat, ub: nat, aligned: bool, pos: nat)
    requires lb < ub
  {
    && ub < ASN_64K
    && if !aligned || ub - lb + 1 < 256 then !IsPow2(ub - lb)
       else AlignUp(pos) == pos && CeilLog2(ub - lb) == 8 * CeilOctets(CeilLog2(ub - lb + 1))
  }

  /** When they agree on the prefix: nothing to write, a general determinant at an octet
      boundary or in the unaligned variant, or a bounded one they agree on. */
  predicate PrefixAgrees(len: nat, lb: nat, ub: nat, aligned: bool, pos: nat) {
    var within := lb <= len <= ub;
    if lb == ub && within && ub != UnboundedSize() then true
    else if ub == UnboundedSize() || !within then !(lb == ub && within) && (!aligned || AlignUp(pos) == pos)
    else BoundedAgrees(lb, ub, aligned, pos)
  }

  /** A bounded prefix read back, up to the padding that the writer adds. */
  lemma BoundedPrefixRoundTrip(s: seq<bool>, pos: nat, len: nat, lb: nat, ub: nat, aligned: bool)
    requires lb <= len <= ub && lb < ub && BoundedAgrees(lb, ub, aligned, pos)
    requires var w := CeilLog2(ub - lb); At(s, pos, NatBits(len - lb, w) + PadIf(aligned, pos + w))
    ensures DecodeBoundedLength(s, pos, lb, ub, aligned) == Decoded(len, pos + CeilLog2(ub - lb))
  {
    var w := CeilLog2(ub - lb);
    PrefixWidths(ub - lb);
    AtSplit(s, pos, NatBits(len - lb, w), PadIf(aligned, pos + w));
    hide At;
    if !aligned || ub - lb + 1 < 256 {
      PlainConstrained(s, pos, len, lb, ub, aligned, w);
    } else {
      OctetsConstrained(s, pos, len, lb, ub, w);
    }
  }

  /** At an octet boundary, ranges of 256 and above are read as the offset on whole octets. */
  lemma OctetsConstrained(s: seq<bool>, pos: nat, len: nat, lb: nat, ub: nat, w: nat)
    requires lb <= len <= ub && lb < ub < ASN_64K && ub - lb + 1 >= 256 && AlignUp(pos) == pos
    requires w == 8 * CeilOctets(CeilLog2(ub - lb + 1)) && At(s, pos, NatBits(len - lb, w))
    ensures DecodeBoundedLength(s, pos, lb, ub, true) == Decoded(len, pos + w)
  {
    hide CeilLog2, Pow2, NatBits, DecodeConstrained, RangeDefined;
    var nBits := CeilLog2(ub - lb + 1);
    SmallRange(lb, ub, nBits);
    OctetFormBits(UINT32, len - lb, nBits, pos);
    assert PadBits(pos) + NatBits(len - lb, w) == NatBits(len - lb, w);
    ConstrainedRoundTrip(UINT32, s, pos, len, lb, ub, true);
  }

  /** The offset in a plain bit field is how constrained lengths are read, in the aligned
      variant for ranges below 256. */
  lemma PlainConstrained(s: seq<bool>, pos: nat, len: nat, lb: nat, ub: nat, aligned: bool, w: nat)
    requires lb <= len <= ub && lb < ub < ASN_64K && (aligned ==> ub < lb + 255) && w == CeilLog2(ub - lb + 1)
    requires At(s, pos, NatBits(len - lb, w))
    ensures DecodeBoundedLength(s, pos, lb, ub, aligned) == Decoded(len, pos + w)
  {
    hide CeilLog2, Pow2, NatBits, DecodeConstrained, RangeDefined;
    SmallRange(lb, ub, w);
    ConvertedBits(UINT32, len - lb, w);
    ConstrainedRoundTrip(UINT32, s, pos, len, lb, ub, aligned);
  }

  lemma SmallRange(lb: nat, ub: nat, w: nat)
    requires lb < ub < ASN_64K && w == CeilLog2(ub - lb + 1)
    ensures RangeDefined(UINT32, lb, ub) && 1 <= w <= 16 && ub - lb + 1 < Pow2(64)
  {
    Pow2Values();
    Pow2Monotone(16, 32);
    Pow2Strict(16, 64);
    if w > 16 { Pow2Monotone(16, w - 1); }
  }

  lemma GeneralPrefix(s: seq<bool>, pos: nat, len: nat, aligned: bool)
    requires len < ASN_16K && At(s, pos, LengthBits(len)) && (!aligned || AlignUp(pos) == pos)
    ensures DecodeLength(s, pos, aligned) == Decoded(len, pos + |LengthBits(len)|)
  {
    if aligned { assert PadBits(pos) + LengthBits(len) == LengthBits(len); }
    LengthRoundTrip(s, pos, len, aligned);
  }

  /** A decoded prefix, and a cursor from which the bit field is found as from `end`. */
  ghost predicate PrefixRead(d: Decoding<nat>, len: nat, a: bool, end: nat) {
    d.Decoded? && d.value == len && AlignIf(a, d.pos) == AlignIf(a, end)
  }

  lemma PrefixBodyRoundTrip(s: seq<bool>, pos: nat, len: nat, lb: nat, ub: nat, aligned: bool)
    requires PrefixAgrees(len, lb, ub, aligned, pos)
    requires var e := EncodePrefixBody(len, lb, ub, aligned, pos); e.Encoded? && At(s, pos, e.bits)
    ensures PrefixRead(DecodePrefixBody(s, pos, !(lb <= len <= ub), lb, ub, aligned), len,
                       FieldAligned(lb, ub, aligned), pos + |EncodePrefixBody(len, lb, ub, aligned, pos).bits|)
  {
    var within := lb <= len <= ub;
    if !(lb == ub && within) {
      if ub == UnboundedSize() || !within {
        GeneralBodyRoundTrip(s, pos, len, lb, ub, aligned);
      } else {
        BoundedBodyRoundTrip(s, pos, len, lb, ub, aligned);
      }
    }
  }

  lemma GeneralBodyRoundTrip(s: seq<bool>, pos: nat, len: nat, lb: nat, ub: nat, aligned: bool)
    requires ub == UnboundedSize() || !(lb <= len <= ub)
    requires !(lb == ub && lb <= len <= ub) && (!aligned || AlignUp(pos) == pos)
    requires var e := EncodePrefixBody(len, lb, ub, aligned, pos); e.Encoded? && At(s, pos, e.bits)
    ensures DecodePrefixBody(s, pos, !(lb <= len <= ub), lb, ub, aligned)
         == Decoded(len, pos + |EncodePrefixBody(len, lb, ub, aligned, pos).bits|)
  {
    hide At, AlignUp, DecodeLength;
    GeneralPrefix(s, pos, len, aligned);
  }

  lemma BoundedBodyRoundTrip(s: seq<bool>, pos: nat, len: nat, lb: nat, ub: nat, aligned: bool)
    requires lb <= len <= ub != UnboundedSize() && lb < ub && BoundedAgrees(lb, ub, aligned, pos)
    requires var e := EncodePrefixBody(len, lb, ub, aligned, pos); e.Encoded? && At(s, pos, e.bits)
    ensures PrefixRead(DecodePrefixBody(s, pos, false, lb, ub, aligned), len,
                       aligned, pos + |EncodePrefixBody(len, lb, ub, aligned, pos).bits|)
  {
    hide At, AlignIf, PadIf, BoundedAgrees, DecodeBoundedLength, NatBits, CeilLog2;
    BoundedPrefixRoundTrip(s, pos, len, lb, ub, aligned);
    var w := CeilLog2(ub - lb);
    var p := pos + w;
    var end := p + |PadIf(aligned, p)|;
    AlignedTwice(aligned, p, end);
    assert pos + |EncodePrefixBody(len, lb, ub, aligned, pos).bits| == end;
  }

  lemma AlignedTwice(a: bool, p: nat, end: nat)
    requires end == p + |PadIf(a, p)|
    ensures AlignIf(a, end) == AlignIf(a, p)
  {
  }

  // Whole bit strings.

  function EncodeBitString(buf: seq<byte>, n: nat, lb: nat, ub: nat, ext: bool, aligned: bool, pos: nat): Encoding
    requires |buf| == CeilOctets(n)
  {
    var prefix :- EncodePrefix(n, lb, ub, ext, aligned, pos);
    Then(prefix, EncodeBitField(buf, n, lb, ub, aligned, pos + |prefix|))
  }

  ghost function DecodeBitString(s: seq<bool>, pos: nat, lb: nat, ub: nat, ext: bool, aligned: bool)
    : Decoding<(nat, seq<byte>)>
  {
    var (n, p) :- DecodePrefix(s, pos, lb, ub, ext, aligned);
    var (buf, q) :- DecodeBitField(s, p, n, lb, ub, aligned);
    Decoded((n, buf), q)
  }

  lemma PrefixRoundTrip(s: seq<bool>, pos: nat, len: nat, lb: nat, ub: nat, ext: bool, aligned: bool)
    requires PrefixAgrees(len, lb, ub, aligned, if ext then pos + 1 else pos)
    requires var e := EncodePrefix(len, lb, ub, ext, aligned, pos); e.Encoded? && At(s, pos, e.bits)
    ensures PrefixRead(DecodePrefix(s, pos, lb, ub, ext, aligned), len,
                       FieldAligned(lb, ub, aligned), pos + |EncodePrefix(len, lb, ub, ext, aligned, pos).bits|)
  {
    hide EncodePrefixBody, DecodePrefixBody, PrefixAgrees, At, NatBits, FieldAligned, PrefixRead;
    if !ext {
      PrefixBodyRoundTrip(s, pos, len, lb, ub, aligned);
    } else {
      var bit := if lb <= len <= ub then 0 else 1;
      Pow2Values();
      AtSplit(s, pos, NatBits(bit, 1), EncodePrefixBody(len, lb, ub, aligned, pos + 1).bits);
      ReadBack(s, pos, bit, 1);
      PrefixBodyRoundTrip(s, pos + 1, len, lb, ub, aligned);
    }
  }

  /** A bit string of at most 64K bits is read back wherever writer and reader agree on
      the prefix, with the spare bits of its top octet cleared. */
  lemma BitStringRoundTrip(s: seq<bool>, pos: nat, buf: seq<byte>, n: nat, lb: nat, ub: nat, ext: bool, aligned: bool)
    requires |buf| == CeilOctets(n) && n <= ASN_64K
    requires PrefixAgrees(n, lb, ub, aligned, if ext then pos + 1 else pos)
    requires var e := EncodeBitString(buf, n, lb, ub, ext, aligned, pos); e.Encoded? && At(s, pos, e.bits)
    ensures DecodeBitString(s, pos, lb, ub, ext, aligned)
         == Decoded((n, Canonical(buf, n)), pos + |EncodeBitString(buf, n, lb, ub, ext, aligned, pos).bits|)
  {
    hide At, PrefixAgrees, DecodeBitField, Canonical;
    var prefix := EncodePrefix(n, lb, ub, ext, aligned, pos).bits;
    var p := pos + |prefix|;
    var field := EncodeBitField(buf, n, lb, ub, aligned, p).bits;
    AtSplit(s, pos, prefix, field);
    PrefixRoundTrip(s, pos, n, lb, ub, ext, aligned);
    FieldFrom(s, p, DecodePrefix(s, pos, lb, ub, ext, aligned).pos, buf, n, lb, ub, aligned);
    assert |prefix + field| == |prefix| + |field|;
  }

  /** The bit field is found from any cursor that aligns to the same position. */
  lemma FieldFrom(s: seq<bool>, pos: nat, p: nat, buf: seq<byte>, n: nat, lb: nat, ub: nat, aligned: bool)
    requires 1 <= n <= ASN_64K && |buf| == CeilOctets(n)
    requires At(s, pos, EncodeBitField(buf, n, lb, ub, aligned, pos).bits)
    requires var a := FieldAligned(lb, ub, aligned); AlignIf(a, p) == AlignIf(a, pos)
    ensures DecodeBitField(s, p, n, lb, ub, aligned)
         == Decoded(Canonical(buf, n), pos + |EncodeBitField(buf, n, lb, ub, aligned, pos).bits|)
  {
    BitFieldRoundTrip(s, pos, buf, n, lb, ub, aligned);
  }

  method PackPrefix(bref: BitRef, len: nat, lb: nat, ub: nat, ext: bool, aligned: bool) returns (code: Code)
    requires bref.Valid() && EncodePrefix(len, lb, ub, ext, aligned, |bref.bits|) != EncodeUndefined
    modifies bref
    ensures bref.Valid()
    ensures Appended(old(bref.bits), bref.bits, code, EncodePrefix(len, lb, ub, ext, aligned, |old(bref.bits)|))
  {
    if ext && ub == UnboundedSize() {
      return EncodeFail;
    }
    var within := lb <= len <= ub;
    if !within && !ext {
      return EncodeFail;
    }
    ghost var before := bref.bits;
    if ext {
      bref.Pack(if within then 0 else 1, 1);
      code := PackPrefixBody(bref, len, lb, ub, aligned);
      AppendedThen(before, NatBits(if within then 0 else 1, 1), bref.bits, code,
                   EncodePrefixBody(len, lb, ub, aligned, |before| + 1));
    } else {
      code := PackPrefixBody(bref, len, lb, ub, aligned);
    }
  }

  method PackPrefixBody(bref: BitRef, len: nat, lb: nat, ub: nat, aligned: bool) returns (code: Code)
    requires bref.Valid() && EncodePrefixBody(len, lb, ub, aligned, |bref.bits|) != EncodeUndefined
    modifies bref
    ensures bref.Valid()
    ensures Appended(old(bref.bits), bref.bits, code, EncodePrefixBody(len, lb, ub, aligned, |old(bref.bits)|))
  {
    var within := lb <= len <= ub;
    if lb == ub && within {
      return Success;
    }
    if ub == UnboundedSize() || !within {
      code := PackLength(bref, len, false);
      return;
    }
    var lenBits := CeilLog2(ub - lb);
    bref.Pack(len - lb, lenBits);
    if aligned {
      bref.AlignBytesZero();
    }
    return Success;
  }

  method PackBitString(bref: BitRef, buf: seq<byte>, n: nat, lb: nat, ub: nat, ext: bool, aligned: bool)
    returns (code: Code)
    requires bref.Valid() && |buf| == CeilOctets(n)
    requires EncodeBitString(buf, n, lb, ub, ext, aligned, |bref.bits|) != EncodeUndefined
    modifies bref
    ensures bref.Valid()
    ensures Appended(old(bref.bits), bref.bits, code, EncodeBitString(buf, n, lb, ub, ext, aligned, |old(bref.bits)|))
  {
    ghost var before := bref.bits;
    code := PackPrefix(bref, n, lb, ub, ext, aligned);
    if code != Success {
      return;
    }
    ghost var prefix := EncodePrefix(n, lb, ub, ext, aligned, |before|).bits;
    code := PackBitField(bref, buf, n, lb, ub, aligned);
    AppendedThen(before, prefix, bref.bits, code, EncodeBitField(buf, n, lb, ub, aligned, |before| + |prefix|));
  }

  method UnpackPrefix(bref: CBitRef, lb: nat, ub: nat, ext: bool, aligned: bool) returns (r: Result<nat>)
    requires bref.Valid() && DecodePrefix(bref.stream, bref.pos, lb, ub, ext, aligned) != DecodeUndefined
    modifies bref
    ensures bref.Valid() && Consumed(bref.pos, r, DecodePrefix(bref.stream, old(bref.pos), lb, ub, ext, aligned))
  {
    var outside := false;
    if ext {
      var bit := bref.Unpack(1);
      outside := bit != 0;
    }
    if ub == UnboundedSize() || outside {
      var len, ok := UnpackLength(bref, aligned);
      r := if ok then Ok(len) else Fail;
    } else if lb == ub {
      r := Ok(lb);
    } else {
      r := UnpackBoundedLength(bref, lb, ub, aligned);
    }
  }

  method UnpackBitString(bref: CBitRef, lb: nat, ub: nat, ext: bool, aligned: bool) returns (r: Result<(nat,
                         seq<byte>)>)
    requires bref.Valid() && DecodeBitString(bref.stream, bref.pos, lb, ub, ext, aligned) != DecodeUndefined
    modifies bref
    ensures bref.Valid() && Consumed(bref.pos, r, DecodeBitString(bref.stream, old(bref.pos), lb, ub, ext, aligned))
  {
    var n := UnpackPrefix(bref, lb, ub, ext, aligned);
    if n.Fail? {
      return Fail;
    }
    var buf := UnpackBitField(bref, n.value, lb, ub, aligned);
    if buf.Fail? {
      return Fail;
    }
    return Ok((n.value, buf.value));
  }
}
