/** Presence flags of extension groups, and skipping the groups a reader does not know. */
module ExtGroups {
  import opened Bits
  import opened Per
  import opened BitRefs
  import opened Lengths
  import opened OpenFields

  /** The last group that is present, or -1. */
  function Highest(groups: seq<bool>): (k: int)
    ensures -1 <= k < |groups| && (k >= 0 ==> groups[k])
    ensures forall i | k < i < |groups| :: !groups[i]
  {
    if groups == [] then -1
    else if groups[|groups| - 1] then |groups| - 1
    else Highest(groups[..|groups| - 1])
  }

  /** The index of the last present group as a normally small number, then the flags up
      to it. Without any group the index wraps around and is refused. */
  function EncodeFlags(groups: seq<bool>): Encoding {
    var k := Highest(groups);
    match EncodeSmall(k % TWO32)
    case Encoded(count) => Encoded(count + groups[..k + 1])
    case e => e
  }

  /** What is in the stream after the flags were packed, whatever the return code: a list
      that is refused leaves a single bit, the mark of a long form that never comes. */
  function FlagsWritten(groups: seq<bool>): seq<bool> {
    match EncodeFlags(groups)
    case Encoded(bits) => bits
    case _ => [true]
  }

  /** Flags padded with false up to the number of groups the reader knows. */
  function Extended(flags: seq<bool>, n: nat): (r: seq<bool>)
    ensures |r| == if |flags| < n then n else |flags|
  {
    if |flags| < n then flags + Zeros(n - |flags|) else flags
  }

  /** The flags as the reader stores them, and how many of them were read. */
  ghost function DecodeFlags(s: seq<bool>, pos: nat, supported: nat): (d: Decoding<(seq<bool>, nat)>)
    ensures d.Decoded? ==> d.value.1 <= |d.value.0| && supported <= |d.value.0|
  {
    var (k, p) :- DecodeSmall(s, pos);
    if p + k + 1 > |s| then DecodeUndefined
    else Decoded((Extended(s[p..p + k + 1], supported), k + 1), p + k + 1)
  }

  /** What the reader holds after unpacking the flags, whatever the return code: after the
      mark of a long form, no group is present. */
  ghost function FlagsRead(s: seq<bool>, pos: nat, supported: nat): (d: Decoding<(seq<bool>, nat)>)
    ensures d.Decoded? ==> d.value.1 <= |d.value.0| && supported <= |d.value.0|
  {
    match DecodeFlags(s, pos, supported)
    case Rejected(at) => Decoded((Zeros(supported), 0), at)
    case d => d
  }

  /** Flag lists whose last present group has an index of at most 63, the empty one
      included, are read from what packing leaves in the stream. */
  lemma FlagsSurvive(s: seq<bool>, pos: nat, groups: seq<bool>, supported: nat)
    requires |groups| < TWO32 && Highest(groups) <= 63 && At(s, pos, FlagsWritten(groups))
    ensures var k := Highest(groups) + 1;
            FlagsRead(s, pos, supported) == Decoded((Extended(groups[..k], supported), k), pos + |FlagsWritten(groups)|)
    ensures var known := Extended(groups[..Highest(groups) + 1], supported);
            forall i | 0 <= i < |known| :: known[i] == (i < |groups| && groups[i])
  {
    FlagsRoundTrip(s, pos, groups, supported);
    if Highest(groups) < 0 {
      assert EncodeFlags(groups) == Refused;
      ReadBit(s, pos);
      assert s[pos..pos + 1] == [s[pos]];
      assert Extended(groups[..0], supported) == Zeros(supported);
    }
  }

  /** Exactly the flag lists whose last present group has an index of at most 63 are
      written; they are read back, with absent groups dropped or added at the end. */
  lemma FlagsRoundTrip(s: seq<bool>, pos: nat, groups: seq<bool>, supported: nat)
    requires |groups| < TWO32
    ensures EncodeFlags(groups).Encoded? <==> 0 <= Highest(groups) <= 63
    ensures EncodeFlags(groups).Encoded? && At(s, pos, EncodeFlags(groups).bits) ==>
              var k := Highest(groups);
              && DecodeFlags(s, pos, supported)
                 == Decoded((Extended(groups[..k + 1], supported), k + 1), pos + |EncodeFlags(groups).bits|)
              && forall i | 0 <= i < |Extended(groups[..k + 1], supported)| ::
                   Extended(groups[..k + 1], supported)[i] == (i < |groups| && groups[i])
  {
    hide Highest;
    var k := Highest(groups);
    if 0 <= k <= 63 && At(s, pos, EncodeFlags(groups).bits) {
      AtSplit(s, pos, NatBits(k, 7), groups[..k + 1]);
      SmallRoundTrip(s, pos, k);
    }
  }

  class ExtGroupsPackerGuard {
    var groups: seq<bool>

    constructor ()
      ensures groups == []
    {
      groups := [];
    }

    /** `group_flags[idx] |= value`: the list grows with absent groups as needed. */
    method Mark(idx: nat, value: bool)
      modifies this
      ensures |groups| == if idx < |old(groups)| then |old(groups)| else idx + 1
      ensures forall i | 0 <= i < |groups| ::
                groups[i] == ((i < |old(groups)| && old(groups)[i]) || (i == idx && value))
    {
      if idx >= |groups| {
        groups := groups + Zeros(idx + 1 - |groups|);
      }
      groups := groups[idx := groups[idx] || value];
    }

    method Pack(bref: BitRef) returns (code: Code)
      requires bref.Valid() && |groups| < TWO32
      modifies bref
      ensures bref.Valid() && Appended(old(bref.bits), bref.bits, code, EncodeFlags(groups))
      ensures bref.bits == old(bref.bits) + FlagsWritten(groups)
    {
      hide Highest, NatBits;
      var i := LastPresent();
      var nofGroups := (i + 1) % TWO32;
      ghost var before := bref.bits;
      code := PackSmall(bref, (nofGroups - 1) % TWO32);
      if code != Success {
        return;
      }
      PackFlags(bref, nofGroups);
      assert before + NatBits(i, 7) + groups[..i + 1] == before + (NatBits(i, 7) + groups[..i + 1]);
    }

    /** The search from the end for a group that is present. */
    method LastPresent() returns (i: int)
      ensures i == Highest(groups)
    {
      i := |groups| - 1;
      assert groups[..i + 1] == groups;
      while i >= 0 && !groups[i]
        invariant -1 <= i < |groups| && Highest(groups) == Highest(groups[..i + 1])
      {
        assert groups[..i + 1][..i] == groups[..i];
        i := i - 1;
      }
    }

    method PackFlags(bref: BitRef, n: nat)
      requires bref.Valid() && n <= |groups|
      modifies bref
      ensures bref.Valid() && bref.bits == old(bref.bits) + groups[..n]
    {
      for j := 0 to n
        invariant bref.Valid() && bref.bits == old(bref.bits) + groups[..j]
      {
        bref.Pack(if groups[j] then 1 else 0, 1);
        NatBitsBit(if groups[j] then 1 else 0);
        assert groups[..j + 1] == groups[..j] + [groups[j]];
      }
    }
  }

  // Skipping unknown groups.

  /** Steps over the fields of present groups i..n, without looking inside. */
  ghost function SkipUnknown(s: seq<bool>, pos: nat, groups: seq<bool>, i: nat, n: nat): Decoding<nat>
    requires n <= |groups|
    decreases n - i
  {
    if i >= n then Decoded(0, pos)
    else if !groups[i] then SkipUnknown(s, pos, groups, i + 1, n)
    else
      var (len, start) :- LengthOut(s, pos, false);
      var (_, p) :- SkipRest(s, start, len.0, start);
      SkipUnknown(s, p, groups, i + 1, n)
  }

  /** The fields of groups i..n as a writer emits them. */
  function FieldsBits(groups: seq<bool>, inners: seq<seq<bool>>, i: nat, n: nat, pos: nat): seq<bool>
    requires n <= |groups| == |inners|
    decreases n - i
  {
    if i >= n then []
    else if !groups[i] then FieldsBits(groups, inners, i + 1, n, pos)
    else
      var field := OpenFieldBits(inners[i], false, pos);
      field + FieldsBits(groups, inners, i + 1, n, pos + |field|)
  }

  ghost predicate ShortFields(groups: seq<bool>, inners: seq<seq<bool>>, i: nat, n: nat, octets: nat)
    requires n <= |groups| == |inners|
  {
    forall j | i <= j < n && groups[j] :: CeilOctets(|inners[j]|) <= octets
  }

  /** The fields of unknown groups are skipped exactly if each has at most four octets;
      otherwise the reader's width assertion fails. */
  lemma {:induction false} SkipUnknownExact(s: seq<bool>, pos: nat, groups: seq<bool>, inners: seq<seq<bool>>, i: nat,
                                            n: nat)
    requires n <= |groups| == |inners| && ShortFields(groups, inners, i, n, ASN_16K - 1)
    requires At(s, pos, FieldsBits(groups, inners, i, n, pos))
    ensures SkipUnknown(s, pos, groups, i, n)
         == if ShortFields(groups, inners, i, n, 4) then Decoded(0, pos + |FieldsBits(groups, inners, i, n, pos)|)
            else DecodeUndefined
    decreases n - i
  {
    hide OpenFieldBits, LengthOut, SkipRest, At;
    if i < n {
      if !groups[i] {
        SkipUnknownExact(s, pos, groups, inners, i + 1, n);
      } else {
        var field := OpenFieldBits(inners[i], false, pos);
        AtSplit(s, pos, field, FieldsBits(groups, inners, i + 1, n, pos + |field|));
        SkipField(s, pos, inners[i]);
        if CeilOctets(|inners[i]|) <= 4 {
          SkipUnknownExact(s, pos + |field|, groups, inners, i + 1, n);
        }
      }
    }
  }

  /** One field is skipped if it has at most four octets. */
  lemma SkipField(s: seq<bool>, pos: nat, inner: seq<bool>)
    requires CeilOctets(|inner|) < ASN_16K && At(s, pos, OpenFieldBits(inner, false, pos))
    ensures var n := CeilOctets(|inner|);
            var d := LengthOut(s, pos, false);
            && d.Decoded? && d.value.0 == n
            && var e := SkipRest(s, d.pos, n, d.pos);
               if n <= 4 then e.Decoded? && e.pos == pos + |OpenFieldBits(inner, false, pos)| else e == DecodeUndefined
  {
    hide LengthOut, OpenFieldBits, At;
    var n := CeilOctets(|inner|);
    var start := OpenFieldWire(s, pos, inner, false);
    if n <= 4 {
      OpenFieldSize(inner, false, pos);
    }
  }

  lemma OpenFieldSize(inner: seq<bool>, aligned: bool, pos: nat)
    requires CeilOctets(|inner|) < ASN_16K
    ensures |OpenFieldBits(inner, aligned, pos)|
         == |EncodeLength(CeilOctets(|inner|), aligned, pos).bits| + 8 * CeilOctets(|inner|)
  {
  }

  class ExtGroupsUnpackerGuard {
    const supported: nat
    var groups: seq<bool>
    var unpacked: nat
    const tracker: CBitRef

    /** The cursor is handed over here; the source hands it over when unpacking starts. */
    constructor (supported: nat, bref: CBitRef)
      ensures this.supported == supported && tracker == bref && groups == Zeros(supported) && unpacked == 0
    {
      this.supported := supported;
      tracker := bref;
      groups := Zeros(supported);
      unpacked := 0;
    }

    method Unpack() returns (r: Result<()>)
      requires tracker.Valid() && groups == Zeros(supported) && unpacked == 0
      requires DecodeFlags(tracker.stream, tracker.pos, supported) != DecodeUndefined
      modifies this, tracker
      ensures tracker.Valid()
      ensures match DecodeFlags(tracker.stream, old(tracker.pos), supported)
              case Decoded(v, p) => r == Ok(()) && (groups, unpacked) == v && tracker.pos == p
              case Rejected(at) => r == Fail && tracker.pos == at
              case DecodeUndefined => true
      ensures FlagsRead(tracker.stream, old(tracker.pos), supported) == Decoded((groups, unpacked), tracker.pos)
    {
      var k := UnpackSmall(tracker);
      if k.Fail? {
        return Fail;
      }
      unpacked := k.value + 1;
      ghost var p := tracker.pos;
      if unpacked > |groups| {
        groups := groups + Zeros(unpacked - |groups|);
      }
      assert groups == Zeros(|groups|);
      UnpackFlags();
      assert groups == Extended(tracker.stream[p..p + unpacked], supported);
      return Ok(());
    }

    method UnpackFlags()
      requires tracker.Valid() && unpacked <= |groups| && groups == Zeros(|groups|)
      requires tracker.pos + unpacked <= |tracker.stream|
      modifies `groups, tracker
      ensures tracker.Valid() && tracker.pos == old(tracker.pos) + unpacked
      ensures groups == tracker.stream[old(tracker.pos)..tracker.pos] + Zeros(|old(groups)| - unpacked)
    {
      ghost var p := tracker.pos;
      for i := 0 to unpacked
        invariant tracker.Valid() && tracker.pos == p + i && |groups| == |old(groups)|
        invariant groups == tracker.stream[p..p + i] + Zeros(|groups| - i)
      {
        ReadBit(tracker.stream, p + i);
        var flag := tracker.Unpack(1);
        groups := groups[i := flag == 1];
        assert tracker.stream[p..p + i + 1] == tracker.stream[p..p + i] + [tracker.stream[p + i]];
      }
    }

    /** The destructor: consumes all unknown extensions. */
    method Close()
      requires tracker.Valid() && unpacked <= |groups|
      requires SkipUnknown(tracker.stream, tracker.pos, groups, supported, unpacked).Decoded?
      modifies tracker
      ensures tracker.Valid()
      ensures tracker.pos == SkipUnknown(tracker.stream, old(tracker.pos), groups, supported, unpacked).pos
    {
      var i := supported;
      ghost var end := SkipUnknown(tracker.stream, tracker.pos, groups, supported, unpacked);
      while i < unpacked
        invariant tracker.Valid() && SkipUnknown(tracker.stream, tracker.pos, groups, i, unpacked) == end
      {
        if groups[i] {
          var scope := new VarlengthFieldUnpackGuard(tracker, false);
          scope.Close();
        }
        i := i + 1;
      }
    }
  }
}
