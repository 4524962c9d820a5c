/** What is seen on the wire where a value was written: which bits hold it, and which bits
    announce what. */
module WireForms {
  import opened Bits
  import opened Per
  import opened Lengths
  import opened Numbers
  import opened Integers
  import opened BitStrings
  import opened ExtGroups
  import opened OpenFields
  import opened Messages
  import opened MessageLaws
  import opened LeafExtents

  /** A constrained whole number is its offset from the lower bound: in the least field that
      holds the range; on one or two whole octets; or, behind the count of its octets less
      one, on as few octets as hold it. */
  lemma ConstrainedWire(t: IntType, s: seq<bool>, pos: nat, n: int, lb: int, ub: int, aligned: bool)
    requires t.Valid() && lb < ub
    requires var e := EncodeConstrained(t, n, lb, ub, aligned, pos); e.Encoded? && At(s, pos, e.bits)
    ensures lb <= n <= ub
    ensures var ra, d := ub - lb + 1, n - lb;
            if !aligned || ra < 256 then Read(s, pos, CeilLog2(ra)) == Decoded(d, pos + CeilLog2(ra))
            else if ra <= 65536 then
              var w := if ra == 256 then 8 else 16;
              Read(s, AlignUp(pos), w) == Decoded(d, AlignUp(pos) + w)
            else
              var w := if ra <= Pow2(32) then 2 else 3;
              var p, k := AlignUp(pos + w), Octets(d);
              Read(s, pos, w) == Decoded(k - 1, pos + w) && Read(s, p, 8 * k) == Decoded(d, p + 8 * k)
  {
    hide OctetForm, LongForm, At, Offset, CeilLog2, Pow2, NatBits, Read, AsUint64, RangeDefined, Octets, AlignUp;
    var ra, nBits := ub - lb + 1, CeilLog2(ub - lb + 1);
    OffsetFits(t, n, lb, ub, nBits);
    if !aligned || ra < 256 {
      ConvertedBits(t, n - lb, nBits);
      ReadBack(s, pos, n - lb, nBits);
    } else if ra <= ASN_64K {
      OctetsWire(t, s, pos, n - lb, ra);
    } else {
      LongWire(t, s, pos, n - lb, ra);
    }
  }

  lemma OctetsWire(t: IntType, s: seq<bool>, pos: nat, d: nat, ra: nat)
    requires t.Valid() && 256 <= ra <= ASN_64K && CeilLog2(ra) <= t.Width() && d < Pow2(CeilLog2(ra))
    requires At(s, pos, OctetForm(t.Wrap(d), CeilLog2(ra), pos))
    ensures var w := if ra == 256 then 8 else 16; Read(s, AlignUp(pos), w) == Decoded(d, AlignUp(pos) + w)
  {
    hide OctetForm, At, NatBits, Read, CeilLog2;
    Pow2Values();
    WidthBelow(ra, 7);
    WidthBelow(ra, 8);
    WidthBelow(ra, 16);
    OctetFormBits(t, d, CeilLog2(ra), pos);
    PaddedReadBack(s, pos, d, 8 * CeilOctets(CeilLog2(ra)));
  }

  lemma LongWire(t: IntType, s: seq<bool>, pos: nat, d: nat, ra: nat)
    requires t.Valid() && ASN_64K < ra < Pow2(64) && CeilLog2(ra) <= t.Width() && d < Pow2(CeilLog2(ra)) && t.Has(d)
    requires CeilLog2(ra) >= 1
    requires var e := LongForm(d, CeilLog2(ra), pos); e.Encoded? && At(s, pos, e.bits)
    ensures var w := if ra <= Pow2(32) then 2 else 3;
            var p, k := AlignUp(pos + w), Octets(d);
            Read(s, pos, w) == Decoded(k - 1, pos + w) && Read(s, p, 8 * k) == Decoded(d, p + 8 * k)
  {
    hide At, NatBits, Read, CeilLog2, Pow2, BitLength, AsUint64, AlignUp, Octets, LengthWidth;
    var nBits, k := CeilLog2(ra), Octets(d);
    LengthWidthExact(ra);
    OctetsExact(d);
    OctetCountFits(d, nBits);
    OctetsFitType(t, k, nBits);
    WrapExact(t, d);
    ConvertedBits(t, d, 8 * k);
    CountedReadBack(s, pos, k - 1, LengthWidth(nBits), d, 8 * k);
  }

  /** The extension bit of an INTEGER is set exactly outside its bounds. */
  lemma IntegerMark(t: IntType, s: seq<bool>, pos: nat, n: int, lb: int, ub: int, aligned: bool)
    requires t.Valid()
    requires var e := EncodeInteger(t, n, lb, ub, true, aligned, pos); e.Encoded? && At(s, pos, e.bits)
    ensures pos < |s| && (s[pos] <==> !(lb <= n <= ub))
  {
    hide EncodeIntegerBody;
    NatBitsBit(if lb <= n <= ub then 0 else 1);
    assert s[pos] == s[pos..][0];
  }

  /** And so is that of a bit string. */
  lemma PrefixMark(s: seq<bool>, pos: nat, n: nat, lb: nat, ub: nat, aligned: bool)
    requires var e := EncodePrefix(n, lb, ub, true, aligned, pos); e.Encoded? && At(s, pos, e.bits)
    ensures pos < |s| && (s[pos] <==> !(lb <= n <= ub))
  {
    hide EncodePrefixBody;
    NatBitsBit(if lb <= n <= ub then 0 else 1);
    assert s[pos] == s[pos..][0];
  }

  /** A sequence starts with its extension bit, if it has one, and behind it a bit for each
      optional field, in order, which is set exactly if the field is present. */
  lemma HeadShown(schema: Schema, vs: seq<Value>, ext: bool, gs: seq<Value>, aligned: bool, s: seq<bool>, pos: nat,
                  i: nat)
    requires schema.Sequence? && EncodedAt(schema, Record(vs, ext, gs), aligned, s, pos)
    ensures schema.extensible ==> pos < |s| && s[pos] == ext
    ensures |vs| == |schema.fields|
    ensures i < |vs| && schema.fields[i].optional ==>
              var p := pos + (if schema.extensible then 1 else 0) + CountOptional(schema.fields[..i]);
              p < |s| && s[p] == !vs[i].Absent?
  {
    hide EncodeFields, EncodeContents, EncodeExtensions, PresenceBits, CountOptional;
    var e := EncodeSequence(schema, vs, ext, gs, aligned, pos);
    assert Encode(schema, Record(vs, ext, gs), aligned, pos) == e;
    var head := SequenceHead(schema.fields, schema.extensible, vs, ext);
    assert head <= e.bits;
    hide EncodeSequence, Encode, At;
    if i < |vs| && schema.fields[i].optional {
      PresenceShown(schema.fields, vs, i);
      var k := (if schema.extensible then 1 else 0) + CountOptional(schema.fields[..i]);
      assert head[k] == !vs[i].Absent?;
      BitAt(s, pos, e.bits, k);
    }
    if schema.extensible { BitAt(s, pos, e.bits, 0); }
  }

  lemma {:induction false} PresenceShown(fields: seq<Field>, vs: seq<Value>, i: nat)
    requires |fields| == |vs| && i < |fields| && fields[i].optional
    ensures CountOptional(fields[..i]) < |PresenceBits(fields, vs)|
    ensures PresenceBits(fields, vs)[CountOptional(fields[..i])] == !vs[i].Absent?
  {
    if i > 0 {
      PresenceShown(fields[1..], vs[1..], i - 1);
      assert fields[..i][1..] == fields[1..][..i - 1];
    }
  }

  /** The flags of extension groups tell the index of the last present group, and of each up
      to it whether it is present. */
  lemma FlagsShown(s: seq<bool>, pos: nat, groups: seq<bool>, i: nat)
    requires At(s, pos, FlagsWritten(groups)) && i < |groups| < TWO32 && 0 <= Highest(groups) <= 63
    ensures Read(s, pos, 7) == Decoded(Highest(groups), pos + 7)
    ensures i <= Highest(groups) ==> pos + 7 + i < |s| && s[pos + 7 + i] == groups[i]
  {
    hide Highest, NatBits, Read, At, FlagsWritten;
    var h := Highest(groups);
    FlagsForm(groups, h);
    NumberAndFlags(s, pos, h, groups[..h + 1]);
    if i <= h { BitAt(s, pos + 7, groups[..h + 1], i); }
  }

  lemma NumberAndFlags(s: seq<bool>, pos: nat, h: nat, flags: seq<bool>)
    requires h <= 63 && At(s, pos, NatBits(h, 7) + flags)
    ensures Read(s, pos, 7) == Decoded(h, pos + 7) && At(s, pos + 7, flags)
  {
    hide NatBits, Read, At;
    AtSplit(s, pos, NatBits(h, 7), flags);
    Pow2Values();
    ReadBack(s, pos, h, 7);
  }

  lemma FlagsForm(groups: seq<bool>, h: nat)
    requires |groups| < TWO32 && h == Highest(groups) <= 63
    ensures FlagsWritten(groups) == NatBits(h, 7) + groups[..h + 1]
  {
    hide Highest, NatBits;
    assert h % TWO32 == h;
  }

  lemma BitAt(s: seq<bool>, pos: nat, bits: seq<bool>, i: nat)
    requires At(s, pos, bits) && i < |bits|
    ensures pos + i < |s| && s[pos + i] == bits[i]
  {
    assert s[pos + i] == s[pos..pos + |bits|][i];
  }
}
