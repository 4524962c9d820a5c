# srsRAN Project: codec, queue, list differences and configuration sections in Dafny

A Dafny model of four parts of srsRAN Project 23.5, with proofs of what they promise:

- the ASN.1 packed encoding rules (ITU-T X.691) codec: bit cursors, whole numbers, length
  determinants, strings, open type fields, extension groups, and whole messages made of them;
- the single-producer single-consumer ring queue, as a machine of atomic steps in which the two
  threads interleave freely and loads of the other side's index may be stale;
- the add/modify/release lists of RRC reconfiguration (annex A.3.9 of 3GPP TS 38.331): computing a
  difference, applying it, and doing either on lists that are the same object;
- two pieces of the command line library: the section items emitted by the configuration reader,
  and overflow-checked multiplication.

`dafny verify dfyconfig.toml` checks everything.

## How the model is built

**Codec.** An encoder is a function from a value and a bit position to an `Encoding`: `Encoded(bits)`,
`Refused` for an error return, or `EncodeUndefined` where the source trips an assertion, overflows a
signed integer or shifts out of range. A decoder is a function from a bit stream and a position to a
`Decoding`: `Decoded(value, pos)`, `Rejected(at)` with the position of the cursor after the error return,
or `DecodeUndefined` (also for reading past the end of the buffer, which the source notices only
afterwards). Every packing or unpacking routine of the source
is a method on the cursor classes `BitRef` and `CBitRef`, which hold the bytes and offsets of the source
and a ghost bit stream. A method requires that its encoder or decoder is not undefined and ensures that
it has done what that function says (`Appended`, `Consumed`). The laws relate encoder and decoder.
`aligned` selects the aligned or the unaligned variant.

**Messages.** The source generates one C++ class per ASN.1 type. `Messages.Schema` describes such types
(leaves, SEQUENCE OF, SEQUENCE with optional fields and extension groups, CHOICE, open type fields),
and `Encode`, `Decode`, `PackMessage` and `UnpackMessage` do for any schema what the generated classes
do for theirs. `Deliveries.Deliverable` is what the round trip needs, at the position a value really has.
`Extents.Supported`, `Extents.InBounds` and `Extents.Size` say in numbers, without naming an encoder, which
messages are written and in how many bits, and `Guarantees.Safe` which of them always come back.

**Queue.** `SpscSteps.Step` is one atomic step of a thread. `LoadRead(k)` and `LoadWrite(k)` may return
any count `k` from the one cached to the current one. `SpscQueues.SPSCQueue` is the class with its
fields; each call, run alone, is shown to be a run of the step machine.

**Sealed functions.** Binary notation, shifts and widths (`Bits`), the conversion to an integer type and the
invariants of the cursors occur in most contracts. Such a function `X` is a wrapper around `XRec`, which
counts a guard down before it comes to the definition; the lemma `XDef` states the definition. Elsewhere
`hide` keeps definitions out of a proof that does not need them.

## Where the code decides, and assumptions

- Widths of ranges are `ceilf(log2f(range))` in single precision in the source, and the octet count of a
  value in an aligned range above 64K is taken from `floorf(log2f(value) + 1)`; the model uses the exact
  integer logarithms. The second use breaks a real input: 4294967295 in 0..4294967295, aligned, is rounded
  up to 2^32 and given five octets, and the count less one, 4, is packed into two bits as 0.
  `Numbers.CountExact` says for any octet count, however it was computed, whether the value is read back,
  and `Numbers.ExtraOctet` that one octet too many at the top of a range is fatal if and only if the octets
  of the range are a power of two. `ASN_16K` is 16384, `ASN_64K` is 65536, `ceil_frac` is division rounded up,
  and `HANDLE_CODE` returns early on an error.
- `IntType` allows every width of 1 to 8 octets; the source instantiates 1, 2, 4 and 8. Types of up to
  two octets are promoted to `int`, so only wider signed types can overflow.
- An INTEGER with one possible value, or with one bound missing, is neither written nor read: the
  destination keeps its value, which the model takes to be zero inside messages. The documentation of
  these routines promises a round trip; `Integers.IntegerRoundTrip` says exactly when there is one.
- The writer of bit string prefixes uses the width of `ub - lb`, the reader that of `ub - lb + 1`, in whole
  octets for aligned ranges of 256 sizes and more, and a general determinant from 64K on; the writer does
  not align a general determinant. `BitStringLaws` gives, for every type of bit string, extensible or not,
  in both variants, the exact condition under which all its strings survive at a position, and a lost
  string wherever it fails: `BoundedStringsExact` for bounded strings, `UnboundedStringsExact` for
  unbounded ones, `OutsideStringsExact` for lengths outside the bounds of an extensible type.
- Constrained whole numbers are not checked against their lower bound on reading, and in the aligned
  variant not at all; `NumberBounds` gives the exact ranges for which results are within bounds and
  defined, in every form. Signed overflow, which is undefined in C++, counts as a failure.
- Reading past an unknown extension group uses a 32-bit variable, so a group of more than four octets
  trips a width assertion. A class generated for a type without groups does not look behind the extension
  bit at all. `MessageLaws.ForwardCompatible` is an exact statement of when an older reader of a
  sequence keeps in step, and `MessageLaws.OlderReads` carries it to older versions at any depth.
- Extension groups are always delimited without alignment, so a deliverable aligned message has none; in
  the repository only RRC messages, which are unaligned, have any. The extension bit is a field of the
  generated class, not derived from the groups: groups behind a bit that is not set are not written.
- The return codes of open type field lengths and of extension flags are ignored by the source, and by the
  model (`OpenFields.OpenFieldBits`, `ExtGroups.FlagsWritten`, `ExtGroups.FlagsRead`). A message with the
  extension bit set and no group present survives because writer and reader ignore the same error.
- Acquire and release are modelled by letting a load see any value between the cached and the current
  one, with everything written before the index it sees. Indices are below 2^63.
- Ids in a list are unique, as TS 38.331 demands: `Sorted` is strict. `std::is_sorted` admits repeated ids;
  `AddModRepeats` says exactly when a difference can then still be applied.
- Configuration lines are modelled after their text is taken apart. No entry may be named `++` or `--`.

## Model

| member | source | states |
|---|---|---|
| `BitRefs.BitRef.Pack` | lib/asn1/asn1_utils.cpp:130-154 | appends exactly the low n bits of v, most significant first, at any offset in the last byte |
| `BitRefs.PackStep` | lib/asn1/asn1_utils.cpp:134-152 | one turn of the packing loop: the added bits land in zero bits of the last byte, so `+=` never carries, and the tail stays zero |
| `BitRefs.BitRef.PackBytes` | lib/asn1/asn1_utils.cpp:156-186 | appends the bits of the bytes at any offset |
| `BitRefs.BitRef.AlignBytesZero` | lib/asn1/asn1_utils.cpp:188-192 | appends zeros up to the next octet boundary |
| `BitRefs.BitRef.BufferBits` | lib/asn1/asn1_utils.cpp:130-192 | the buffer holds exactly the bits written, then zeros to a whole octet |
| `BitRefs.BitRef.Distance` | lib/asn1/asn1_utils.cpp:125-128 | is the number of bits written |
| `BitRefs.CBitRef.Unpack` | lib/asn1/asn1_utils.cpp:209-233 | returns the number denoted by the next n bits of the stream and moves behind them |
| `BitRefs.CBitRef.AlignBytes` | lib/asn1/asn1_utils.cpp:262-273 | moves to the next octet boundary, within the buffer |
| `BitRefs.CBitRef.AdvanceBits` | lib/asn1/asn1_utils.cpp:275-288 | reaches the cursor that reading n bits would reach, and fails without moving exactly when there are fewer |
| `BitRefs.CBitRef.Distance` | lib/asn1/asn1_utils.cpp:199-202 | is the number of bits read |
| `Bits.NatBitsSplit` | lib/asn1/asn1_utils.cpp:130-154 | packing n + m bits is packing the top n, then the low m |
| `Per.ReadBack` | lib/asn1/asn1_utils.cpp:130-233 | unpacking n bits where v was packed returns v, for every v below 2^n |
| `Per.ReadBackSplit` | lib/asn1/asn1_utils.cpp:130-233 | unpacking inverts packing under any split of the bits |
| `Lengths.SmallRoundTrip` | lib/asn1/asn1_utils.cpp:532-557 | normally small numbers up to 63 are read back |
| `Lengths.PackSmall` | lib/asn1/asn1_utils.cpp:532-542 | writes a normally small number, or refuses one above 63 |
| `Lengths.UnpackSmall` | lib/asn1/asn1_utils.cpp:544-557 | reads a normally small number, or rejects the long form after one bit |
| `Lengths.LengthRoundTrip` | lib/asn1/asn1_utils.cpp:671-745 | every length determinant below 16K is read back in both variants |
| `Lengths.LongLengthRejected` | lib/asn1/asn1_utils.cpp:671-745 | aligned determinants of 16K to 64K are always rejected, with the value the reader leaves behind |
| `Lengths.LengthPrefixFree` | lib/asn1/asn1_utils.cpp:671-745 | no supported determinant is a prefix of another |
| `Lengths.DeterminantSize` | lib/asn1/asn1_utils.cpp:671-708 | a determinant takes one octet below 128, two below 16K, in the aligned variant three up to 64K, behind nothing but padding; every other length is refused |
| `Lengths.ShortestLength` | lib/asn1/asn1_utils.cpp:671-745 | the determinant written for a length is the shortest that the reader takes for it, over all streams |
| `Lengths.FragmentsRejected` | lib/asn1/asn1_utils.cpp:710-745 | the reader rejects exactly the determinants that start with two ones, and where its cursor then stands |
| `Lengths.LongSmallRejected` | lib/asn1/asn1_utils.cpp:544-557 | a normally small number is rejected exactly if its first bit is set, behind that bit |
| `Lengths.PackLength` | lib/asn1/asn1_utils.cpp:671-708 | writes the determinant its encoder says, and nothing on failure |
| `Lengths.UnpackLength` | lib/asn1/asn1_utils.cpp:710-745 | reads a determinant, with the value and code of every branch |
| `Numbers.ConstrainedRoundTrip` | lib/asn1/asn1_utils.cpp:399-506 | every value within its bounds is decoded from its encoding in all four forms and both variants, for every integer type |
| `LeafExtents.ConstrainedExact` | lib/asn1/asn1_utils.cpp:399-438 | for every type, range and value: refused exactly out of bounds, unsupported exactly where the source overflows or asserts, and otherwise written in the stated number of bits in each form |
| `WireForms.ConstrainedWire` | lib/asn1/asn1_utils.cpp:399-438 | where the offset from the lower bound is found on the wire and in how many bits or octets, in each form |
| `Numbers.OctetCountFits` | lib/asn1/asn1_utils.cpp:427-434 | the octet count of any value in a range fits the length-of-length field the range prescribes, and the octets hold the value |
| `Numbers.CountExact` | lib/asn1/asn1_utils.cpp:426-435 | whatever octet count is written, if its octets hold the value, the value is read back if and only if the count fits the length-of-length field |
| `Numbers.ExtraOctet` | lib/asn1/asn1_utils.cpp:426-435 | one octet more than the range needs is fatal if and only if the octets of the range are a power of two |
| `Numbers.PackConstrained` | lib/asn1/asn1_utils.cpp:399-438 | writes what the encoder of constrained whole numbers says, refusing values out of bounds |
| `Numbers.UnpackConstrained` | lib/asn1/asn1_utils.cpp:465-506 | reads what the decoder of constrained whole numbers says |
| `NumberBounds.UnalignedBounds` | lib/asn1/asn1_utils.cpp:478-486 | for every type and range, unaligned results are defined and within bounds on every stream that is long enough if and only if no raw value overflows the type when the lower bound is added |
| `NumberBounds.AlignedBounds` | lib/asn1/asn1_utils.cpp:486-504 | the same for aligned ranges, in all three forms: if and only if the range uses every value that its field can hold |
| `Integers.UnconstrainedFits` | lib/asn1/asn1_utils.cpp:567-580 | the computed octet count holds the number, and fits the type exactly up to half its unsigned range |
| `Integers.UnconstrainedRoundTrip` | lib/asn1/asn1_utils.cpp:567-601 | an unconstrained number is read back if it is at most half the unsigned range, otherwise the width assertion fails |
| `Integers.PackUnconstrained` | lib/asn1/asn1_utils.cpp:581-590 | writes octet length, alignment and octets |
| `Integers.UnpackUnconstrained` | lib/asn1/asn1_utils.cpp:592-601 | reads the octets into the integer type |
| `Integers.IntegerRoundTrip` | lib/asn1/asn1_utils.cpp:751-845 | an INTEGER that is written, extensible or not, is read back exactly if it is receivable, and a silent one keeps the destination's value |
| `Integers.IntegerExact` | lib/asn1/asn1_utils.cpp:751-845 | an in-bounds value that is written is read back whatever the destination held if and only if, in numbers, two values or more are possible, the upper bound is not the largest of the type and, if signed, the lower not its least, or the type is signed and both bounds are its limits |
| `LeafExtents.IntegerExtentExact` | lib/asn1/asn1_utils.cpp:751-786 | which INTEGERs are written, in how many bits, refused, or unsupported |
| `WireForms.IntegerMark` | lib/asn1/asn1_utils.cpp:751-762 | the extension bit is set exactly outside the bounds |
| `Integers.PackInteger` | lib/asn1/asn1_utils.cpp:751-786 | writes extension bit and value as the encoder says, refusing an inextensible value out of bounds |
| `Integers.UnpackInteger` | lib/asn1/asn1_utils.cpp:815-845 | reads extension bit and value as the decoder says |
| `Integers.LengthInRoundTrip` | lib/asn1/asn1_utils.cpp:626-653 | a bounded length of any integer type that is written is read back if and only if the upper bound is below 64K or the length is from 0 to 16K; others are rejected or cut to 32 bits |
| `Integers.PackLengthIn` | lib/asn1/asn1_utils.cpp:626-632 | for any integer type, writes a determinant of the length converted to 32 bits, or a constrained number, by the upper bound |
| `Integers.UnpackLengthIn` | lib/asn1/asn1_utils.cpp:643-653 | for any integer type, reads a determinant converted to the type, or a constrained number, by the upper bound |
| `Integers.BoundedLengthIsUint32` | lib/asn1/asn1_utils.cpp:626-653 | the encoder and decoder on natural numbers that strings and lists use are the `uint32_t` instance |
| `Integers.BoundedLengthRoundTrip` | lib/asn1/asn1_utils.cpp:626-653 | in that instance a bounded length that is written is read back, below 16K when the bound is 64K or more |
| `Integers.PackBoundedLength` | lib/asn1/asn1_utils.cpp:626-632 | the `uint32_t` instance of the writer |
| `Integers.UnpackBoundedLength` | lib/asn1/asn1_utils.cpp:643-653 | the `uint32_t` instance of the reader |
| `Integers.EnumRoundTrip` | lib/asn1/asn1_utils.cpp:319-383 | every enumerator that is written, root or extension, is read back |
| `Integers.EnumInRange` | lib/asn1/asn1_utils.cpp:356-383 | an index is decoded only if the type has it: exactly what is decoded or rejected for each number on the wire |
| `LeafExtents.EnumExact` | lib/asn1/asn1_utils.cpp:338-354 | which enumerators are written, in how many bits, refused, or unsupported |
| `Integers.PackEnum` | lib/asn1/asn1_utils.cpp:338-354 | writes extension bit and index as the encoder says |
| `Integers.UnpackEnum` | lib/asn1/asn1_utils.cpp:356-383 | reads an index and rejects one outside the enumeration |
| `OctetStrings.OctetStringRoundTrip` | lib/asn1/asn1_utils.cpp:1033-1055 | an octet string that is written is read back if shorter than 16K octets, otherwise rejected |
| `OctetStrings.PackOctetString` | lib/asn1/asn1_utils.cpp:1033-1041 | writes length and octets |
| `OctetStrings.UnpackOctetString` | lib/asn1/asn1_utils.cpp:1043-1055 | reads length and octets |
| `OctetStrings.FixedOctetsRoundTrip` | include/srsran/asn1/asn1_utils.h:732-751 | a fixed octet string is read back in both variants |
| `OctetStrings.PackFixedOctets` | include/srsran/asn1/asn1_utils.h:732-741 | writes the octets, aligned when there are more than two |
| `OctetStrings.UnpackFixedOctets` | include/srsran/asn1/asn1_utils.h:742-751 | reads the octets, aligned when there are more than two |
| `OctetStrings.BoundedOctetsRoundTrip` | include/srsran/asn1/asn1_utils.h:797-820 | a bounded octet string that is written is read back |
| `OctetStrings.PackBoundedOctets` | include/srsran/asn1/asn1_utils.h:797-807 | writes bounded length, alignment and octets |
| `OctetStrings.UnpackBoundedOctets` | include/srsran/asn1/asn1_utils.h:808-820 | reads bounded length, alignment and octets |
| `BitStrings.FromNumber` | lib/asn1/asn1_utils.cpp:1223-1237 | the octets hold the number modulo 2^n, in place, and more than 64 bits are refused |
| `BitStrings.ToNumber` | lib/asn1/asn1_utils.cpp:1248-1260 | is the number the octets hold, least significant octet first |
| `BitStrings.NumberThroughOctets` | lib/asn1/asn1_utils.cpp:1223-1260 | a number stored in n bits and taken out again is the number modulo 2^n, for every n up to 64 |
| `BitStringNumbers.BitString.FromNumber` | include/srsran/asn1/asn1_utils.h:961-971 | stores a number in its default width modulo a power of two; refuses, changing nothing, where the width exceeds the upper bound |
| `BitStringNumbers.BitString.FromNumberBits` | include/srsran/asn1/asn1_utils.h:973-982 | stores a number in the given width; refuses a width above the upper bound, and leaves zeros above 64 bits |
| `BitStringNumbers.BitString.ToNumber` | include/srsran/asn1/asn1_utils.h:960 | is the number held, or zero above 64 bits |
| `BitStringNumbers.BitString.constructor` | include/srsran/asn1/asn1_utils.h:910 | starts with the least size and all zeros |
| `BitStringNumbers.BitString.Resize` | include/srsran/asn1/asn1_utils.h:927-932 | sets the size and resets the content |
| `BitStringNumbers.DefaultWidthExact` | include/srsran/asn1/asn1_utils.h:961-971 | the default width holds a number if and only if it is zero, or the width is at most 64 and the number is not a power of two or the least size has a bit to spare |
| `BitStringNumbers.StoreAndTake` | include/srsran/asn1/asn1_utils.h:910-971 | a number stored in a new string and taken out again comes back if and only if it is zero, or the upper bound admits its default width and that holds it; the value returned otherwise |
| `BitStrings.BitFieldNumber` | lib/asn1/asn1_utils.cpp:1137-1153 | a bit field packed octet by octet from the top is the n-bit notation of the number it holds |
| `BitStrings.BitFieldOfNumber` | lib/asn1/asn1_utils.cpp:1137-1153 | packing the octets of a number writes the bits that packing the number writes |
| `BitStrings.BitFieldRoundTrip` | lib/asn1/asn1_utils.cpp:1137-1221 | every bit field of 1 to 64K bits is read back, in both variants |
| `BitStrings.FieldShape` | lib/asn1/asn1_utils.cpp:1137-1153 | a bit field of variable size or more than 16 bits is aligned in the aligned variant, behind zeros, others are not, and its bits are those of the number held; an empty one is refused |
| `BitStrings.FieldPlace` | lib/asn1/asn1_utils.cpp:1200-1221 | the reader takes such a field from the next octet boundary and others where they are, is defined as far as the buffer goes, and rejects exactly more than 64K bits |
| `BitStrings.PackBitField` | lib/asn1/asn1_utils.cpp:1137-1153 | writes padding and the bit field, or refuses an empty one |
| `BitStrings.UnpackBitField` | lib/asn1/asn1_utils.cpp:1200-1221 | reads the octets of a bit field, top octet first |
| `BitStrings.PrefixWidths` | lib/asn1/asn1_utils.cpp:1096-1135 | writer and reader use the same prefix width if and only if ub - lb is not a power of two; else they differ by one bit |
| `BitStrings.BitStringRoundTrip` | lib/asn1/asn1_utils.cpp:1096-1221 | a whole bit string is read back wherever writer and reader agree on the prefix |
| `LeafExtents.BitStringExtentExact` | lib/asn1/asn1_utils.cpp:1096-1163 | which bit strings are written, in how many bits, refused, or unsupported |
| `WireForms.PrefixMark` | lib/asn1/asn1_utils.cpp:1096-1110 | the extension bit is set exactly outside the bounds |
| `BitStringLaws.BoundedStringsExact` | lib/asn1/asn1_utils.cpp:1096-1221 | for all bounds, extensible or not, in both variants, every string within the bounds survives at a position if and only if the size is fixed to at most 64K, or the writer's field there is the reader's |
| `BitStringLaws.BoundedStringsEverywhere` | lib/asn1/asn1_utils.cpp:1096-1221 | they survive at every position if and only if the size is fixed to at most 64K, or the upper bound is below 64K, ub - lb is not a power of two and, in the aligned variant, there are fewer than 256 sizes |
| `BitStringLaws.BoundedLost` | lib/asn1/asn1_utils.cpp:1096-1221 | for every other type and position, a string of zeros and a stream on which the round trip fails |
| `BitStringLaws.UnboundedStringsExact` | lib/asn1/asn1_utils.cpp:1096-1221 | unbounded strings survive at a position if and only if the variant is unaligned, the position is an octet boundary, or no length can be written |
| `BitStringLaws.OutsideStringsExact` | lib/asn1/asn1_utils.cpp:1096-1221 | extensible strings outside their bounds survive at a position if and only if the variant is unaligned, the length falls on an octet boundary, or no such length can be written |
| `BitStringLaws.GeneralLost` | lib/asn1/asn1_utils.cpp:1096-1221 | off the boundary, the string of one bit and the longest one are read with another length |
| `BitStrings.PackPrefix` | lib/asn1/asn1_utils.cpp:1096-1135 | writes extension bit and length prefix as the encoder says |
| `BitStrings.UnpackPrefix` | lib/asn1/asn1_utils.cpp:1170-1197 | reads extension bit and length prefix as the decoder says |
| `BitStrings.PackBitString` | lib/asn1/asn1_utils.cpp:1158-1163 | writes prefix and field |
| `BitStrings.UnpackBitString` | include/srsran/asn1/asn1_utils.h:989-996 | reads prefix and field |
| `OpenFields.VarlengthFieldPackGuard.constructor` | lib/asn1/asn1_utils.cpp:1451-1456 | the cursor continues on an empty buffer and the outer one is kept |
| `OpenFields.VarlengthFieldPackGuard.Close` | lib/asn1/asn1_utils.cpp:1458-1473 | the cursor returns to the outer buffer, extended by the length of the content in octets, the inner bits and zeros to a whole octet; a length that cannot be encoded is left out |
| `OpenFields.VarlengthFieldUnpackGuard.constructor` | lib/asn1/asn1_utils.cpp:1475-1484 | reads the length and remembers where the content starts |
| `OpenFields.VarlengthFieldUnpackGuard.Close` | lib/asn1/asn1_utils.cpp:1486-1490 | skips what is left of the field |
| `OpenFields.SkipRestExact` | lib/asn1/asn1_utils.cpp:1475-1490 | whatever the inner reader consumed, closing ends exactly at the end of the field or is undefined |
| `OpenFields.SkipRestDefined` | lib/asn1/asn1_utils.cpp:1486-1490 | closing is defined if and only if at most 32 bits are left |
| `OpenFields.OpenFieldWire` | lib/asn1/asn1_utils.cpp:1451-1490 | a closed field is opened with its length, its content starts at an octet boundary in the aligned variant, and closing it behind the content ends behind the padding |
| `ExtGroups.FlagsRoundTrip` | lib/asn1/asn1_utils.cpp:1370-1446 | exactly the flag lists whose highest set index is 0 to 63 are written; they are read back with absent groups dropped or added at the end |
| `ExtGroups.FlagsSurvive` | lib/asn1/rrc_nr/cell_group_config.cpp:1303-1310 | with return codes ignored, every flag list with no index above 63 is recovered, also the empty one, which both sides refuse |
| `WireForms.FlagsShown` | lib/asn1/asn1_utils.cpp:1380-1398 | the flags on the wire are the index of the last present group and a bit for each group up to it |
| `ExtGroups.ExtGroupsPackerGuard.Mark` | lib/asn1/asn1_utils.cpp:1370-1378 | sets one flag and keeps the others, growing the list with absent groups |
| `ExtGroups.ExtGroupsPackerGuard.Pack` | lib/asn1/asn1_utils.cpp:1380-1398 | writes the flags up to the last group that is present, or one bit and an error |
| `ExtGroups.ExtGroupsUnpackerGuard.Unpack` | lib/asn1/asn1_utils.cpp:1432-1446 | reads the flags and pads them to the groups the reader knows, or leaves none present and an error |
| `ExtGroups.ExtGroupsUnpackerGuard.Close` | lib/asn1/asn1_utils.cpp:1422-1430 | skips the fields of the present groups the reader does not know |
| `ExtGroups.SkipUnknownExact` | lib/asn1/asn1_utils.cpp:1422-1430 | skipping moves past exactly the fields of the unknown groups if each has at most four octets, and is undefined otherwise |
| `Leaves.LeafRoundTrip` | lib/asn1/asn1_utils.cpp:319-1221 | every deliverable value of every leaf type is decoded from its encoding |
| `LeafExtents.LeafExact` | lib/asn1/asn1_utils.cpp:319-1221 | every value of every leaf type is written in the stated number of bits, refused or unsupported exactly as plain numbers say |
| `Leaves.LeafPhase` | lib/asn1/asn1_utils.cpp:319-1221 | a leaf is encoded alike at positions that agree within the octet, and anywhere in the unaligned variant |
| `Leaves.LeafDeliverablePhase` | lib/asn1/asn1_utils.cpp:1096-1221 | which leaves are deliverable at a position depends on its place in the octet alone |
| `Deliveries.EncodePhase` | lib/asn1/asn1_utils.cpp:1451-1473 | a message of any nesting is encoded alike at positions that agree in alignment, so a fresh buffer agrees with the enclosing stream |
| `Deliveries.DeliverablePhase` | lib/asn1/asn1_utils.cpp:1451-1490 | a message that is deliverable in a fresh buffer is deliverable where the buffer comes to stand |
| `MessageLaws.RoundTrip` | include/srsran/asn1/asn1_utils.h:1483-1521 | every deliverable message of every schema is decoded from its encoding, with the cursor exactly behind it, in both variants |
| `Extents.WritesExactly` | include/srsran/asn1/asn1_utils.h:1075-1099 | a message of any schema is written if and only if it has the shape of the schema, meets no assertion or overflow, and all its numbers, enumerators and sizes are within bounds; one that is only out of bounds is refused; and how many bits it takes |
| `Guarantees.Guaranteed` | include/srsran/asn1/asn1_utils.h:1483-1521 | every message that satisfies conditions on numbers alone (shape, bounds, integer and bit string types without the faults above, content below 16K octets) is written at every position and read back from every stream that holds it |
| `WireForms.HeadShown` | lib/asn1/rrc_nr/cell_group_config.cpp:1273-1302 | a sequence starts with its extension bit and a bit for each optional field, in order, set exactly if the field is present |
| `MessageLaws.OlderReads` | lib/asn1/asn1_utils.cpp:1400-1446 | a reader built from an older version, with extension groups missing from sequences at any depth (in fields, lists, choices, open type fields and known groups), decodes what it knows of every deliverable message and ends exactly behind it if no group it has to skip takes more than four octets, and is undefined otherwise, unless it is blind to an extension because it knows no group of a sequence |
| `MessageLaws.OpenReads` | lib/asn1/asn1_utils.cpp:1451-1490 | content encoded in a buffer of its own is decoded in place, also by an older reader |
| `MessageLaws.SequenceReads` | lib/asn1/rrc_nr/cell_group_config.cpp:1273-1413 | what an older reader makes of a sequence: its fields and the groups it knows, with the cursor behind the whole, or undefined, and when |
| `MessageLaws.BlindReads` | lib/asn1/rrc_nr/cell_group_config.cpp:1345-1377 | a reader that knows no group of an extended sequence decodes its fields and stops short of its end |
| `MessageLaws.BlindInField` | lib/asn1/asn1_utils.cpp:1475-1490 | inside an open type field such a reader is brought back in step if and only if it left at most 32 bits of the field unread, and is undefined otherwise |
| `MessageLaws.ForwardCompatible` | lib/asn1/asn1_utils.cpp:1400-1446 | an older reader recovers what it knows of a newer sequence and ends where it ends if and only if there is no extension, or the reader knows some group and those it does not know take at most four octets each |
| `MessagePacking.PackMessage` | include/srsran/asn1/asn1_utils.h:1483-1494 | packs a message of any schema as its encoder says |
| `MessagePacking.PackItems` | include/srsran/asn1/asn1_utils.h:1075-1099 | packs the items of a SEQUENCE OF, stopping at the first failure |
| `MessagePacking.PackOpen` | lib/asn1/asn1_utils.cpp:1451-1473 | packs a field through the guard and closes it on success and failure |
| `MessagePacking.PackSequence` | lib/asn1/rrc_nr/cell_group_config.cpp:1273-1344 | packs extension bit, presence bits, fields and groups |
| `MessagePacking.PackGroups` | lib/asn1/rrc_nr/cell_group_config.cpp:1303-1342 | packs the present groups as open type fields |
| `MessagePacking.UnpackMessage` | include/srsran/asn1/asn1_utils.h:1495-1499 | unpacks a message of any schema as its decoder says |
| `MessagePacking.UnpackItems` | include/srsran/asn1/asn1_utils.h:1101-1127 | unpacks the items of a SEQUENCE OF, stopping at the first failure |
| `MessagePacking.UnpackOpen` | lib/asn1/asn1_utils.cpp:1475-1490 | unpacks a field in place and closes the guard, which skips its rest, on success and failure |
| `MessagePacking.UnpackSequence` | lib/asn1/rrc_nr/cell_group_config.cpp:1345-1413 | unpacks extension bit, presence bits, fields and known groups, and skips unknown ones, also behind a group that fails |
| `MessagePacking.UnpackGroups` | lib/asn1/rrc_nr/cell_group_config.cpp:1378-1411 | unpacks the known groups that are present |
| `MessagePacking.TestPackUnpackConsistency` | include/srsran/asn1/asn1_utils.h:1483-1521 | the repository's consistency test succeeds on a deliverable message if and only if the message has the shape of its schema and is within all bounds |
| `SpscSteps.StepInv` | external/rigtorp/SPSCQueue.h:104-190 | every step of either thread, with any admissible stale load, keeps rc <= R <= wc <= W, W - rc <= capacity - 1 and the slots in order |
| `SpscLaws.EveryRunIsSafe` | external/rigtorp/SPSCQueue.h:104-190 | in every state of every run popped is a prefix of pushed, no slot is constructed while live or destroyed while dead, the assertion of `pop` holds, and the live slots are exactly those of the elements constructed and not destroyed, at most `capacity()` |
| `SpscLaws.EveryRunIsRaceFree` | external/rigtorp/SPSCQueue.h:104-190 | in no state of any run do producer and consumer access the same slot; a slot is constructed only when every earlier element of it is released below the read index that the producer saw, and held or destroyed only when its element is published below the write index that the consumer saw |
| `SpscLaws.AnyStaleLoad` | external/rigtorp/SPSCQueue.h:104-190 | in every state of every run a load of the other side's index may see any count from the one seen last to the current one |
| `SpscLaws.EveryCallFinishes` | external/rigtorp/SPSCQueue.h:104-190 | in every run in which one side begins no further call and the other side does what it likes, calls included, the call under way takes at most four steps of its own on the producer's side and two on the consumer's, futile loads of a blocking emplace apart, then it has returned, and until then its next step is enabled |
| `SpscLaws.FutileExact` | external/rigtorp/SPSCQueue.h:111-116 | a load is futile if and only if the emplace blocks and the queue is full at the count loaded, so the first load that sees room goes on |
| `SpscLaws.EveryRunRefinesFifo` | external/rigtorp/SPSCQueue.h:104-190 | the completed operations of every run are accepted by a bounded first-in first-out queue |
| `SpscLaws.StepRefines` | external/rigtorp/SPSCQueue.h:104-190 | each step leaves the abstract queue alone, appends the published element within the bound, or removes the oldest |
| `SpscLaws.EmplaceOutcome` | external/rigtorp/SPSCQueue.h:111-140 | `try_emplace` fails if and only if `capacity()` elements were held at the count loaded, with a fresh load now; without a load it goes on only with room |
| `SpscLaws.FrontOutcome` | external/rigtorp/SPSCQueue.h:168-177 | `front` returns null if and only if the queue was empty at the count loaded, with a fresh load now |
| `SpscLaws.FrontIsOldest` | external/rigtorp/SPSCQueue.h:168-190 | the pointer leads to the oldest element until it is popped |
| `SpscLaws.SizeIsExact` | external/rigtorp/SPSCQueue.h:192-199 | called by either endpoint, `size()` is the number of elements as of the count loaded, despite wrap-around of the indices |
| `SpscLaws.CapacityUsable` | external/rigtorp/SPSCQueue.h:58-70 | the constructor provides two slots or more if and only if the largest `size_t` is not requested |
| `SpscQueues.SPSCQueue.constructor` | external/rigtorp/SPSCQueue.h:58-90 | starts empty with the capacity field computed from the request; a request of the largest `size_t` wraps around and leaves no slots |
| `SpscQueues.SPSCQueue.TryEmplace` | external/rigtorp/SPSCQueue.h:121-140 | succeeds if and only if the queue is not full, appends the element, and is a run of the step machine |
| `SpscQueues.SPSCQueue.Emplace` | external/rigtorp/SPSCQueue.h:104-119 | with room appends the element; on a full queue is still spinning after any number of loads, with the queue unchanged; either way a run of the step machine |
| `SpscQueues.SPSCQueue.Front` | external/rigtorp/SPSCQueue.h:168-177 | returns the oldest element, or nothing if and only if the queue is empty |
| `SpscQueues.SPSCQueue.Pop` | external/rigtorp/SPSCQueue.h:179-190 | removes the oldest element |
| `SpscQueues.SPSCQueue.Size` | external/rigtorp/SPSCQueue.h:192-199 | is the number of elements, at most `capacity()` |
| `SpscQueues.SPSCQueue.Empty` | external/rigtorp/SPSCQueue.h:201-204 | holds if and only if there are no elements |
| `SpscQueues.SPSCQueue.Drain` | external/rigtorp/SPSCQueue.h:92-98 | the destructor's loop terminates, destroys every element once in order, and leaves no slot live |
| `AddModLists.InApply` | lib/asn1/asn1_diff_utils.h:76-111 | applying a difference gives, per id, the added object if any, else the previous one unless released, in strict order |
| `AddModLists.PatchUndoesDiff` | lib/asn1/asn1_diff_utils.h:76-206 | applying the computed lists to the previous list gives exactly the next one |
| `AddModLists.DiffIsMinimal` | lib/asn1/asn1_diff_utils.h:135-206 | any lists that lead from the previous list to the next contain the computed ones |
| `AddModLists.InAdded` | lib/asn1/asn1_diff_utils.h:135-206 | the list to add or modify holds exactly the new and the changed objects |
| `AddModLists.InRemoved` | lib/asn1/asn1_diff_utils.h:135-206 | the list to release holds exactly the ids that are gone |
| `AddModLists.AddedSorted` | lib/asn1/asn1_diff_utils.h:135-206 | the list to add or modify is strictly sorted |
| `AddModLists.RemovedSorted` | lib/asn1/asn1_diff_utils.h:135-206 | the list to release is strictly sorted |
| `AddModLists.ConvertedPatch` | lib/asn1/asn1_diff_utils.h:179-206 | with a conversion that keeps ids, the converted lists lead from the converted previous list to the converted next one |
| `AddModLists.NothingToDo` | lib/asn1/asn1_diff_utils.h:83-88 | the shortcut for empty lists gives what the merges would give |
| `AddModMethods.MergeDifference` | lib/asn1/asn1_diff_utils.h:94-101 | the loop of `std::set_difference` with the id comparator |
| `AddModMethods.MergeUnion` | lib/asn1/asn1_diff_utils.h:103-110 | the loop of `std::set_union` with the id comparator |
| `AddModMethods.ApplyDiff` | lib/asn1/asn1_diff_utils.h:76-111 | the destination may be the previous list; if it is the list of additions, the additions are lost |
| `AddModMethods.ApplyDiffInPlace` | lib/asn1/asn1_diff_utils.h:113-120 | the in-place overload equals the unaliased result; if the list is also the list of additions, the additions are lost |
| `AddModMethods.LostAdditions` | lib/asn1/asn1_diff_utils.h:103-110 | losing the additions is harmless if and only if each is already in place |
| `AddModRepeats.RepeatedIdsExact` | lib/asn1/asn1_diff_utils.h:76-206 | for all sorted lists, with ids that may repeat, applying the computed lists to the previous list gives the next one if and only if the objects of each id are kept |
| `AddModRepeats.GroupExact` | lib/asn1/asn1_diff_utils.h:76-206 | which objects of one id are kept: none stays in place if there are more afterwards; otherwise the changed ones come first and the rest are the last of the previous ones |
| `AddModRepeats.SameCountKept` | lib/asn1/asn1_diff_utils.h:76-206 | where an id occurs as often before as after, its objects are kept if and only if no change comes after an object that stays |
| `AddModRepeats.UniquePrevExact` | lib/asn1/asn1_diff_utils.h:76-206 | if ids are unique in the previous list, the next list is missed if and only if some previous object is the first of several with its id in the next |
| `AddModRepeats.RepeatedIds` | lib/asn1/asn1_diff_utils.h:90-101 | dropping the second of two objects with one id removes the first instead |
| `AddModMethods.CalculateConverted` | lib/asn1/asn1_diff_utils.h:135-206 | the two-iterator loop computes the lists, empty when both inputs are the same object; an input that is also the output counts as empty |
| `AddModMethods.CalculateDiff` | lib/asn1/asn1_diff_utils.h:217-242 | the result is the same whichever of the lists are the same object |
| `AddModMethods.CalculateSetupRelease` | lib/asn1/asn1_diff_utils.h:251-267 | takes a receiver from the previous value to the next, and reports a change, if and only if an object that is left alone was as it should be |
| `ConfigSections.NestedIffBalanced` | external/CLI/CLI11.hpp:9072-9250 | the section items of a file form a properly nested walk that ends with nothing open if and only if every return to the default section is from a top-level section or is followed by a section header before any entry |
| `ConfigSections.BalancedWalk` | external/CLI/CLI11.hpp:9144-9250 | wherever an entry stands in such a file, exactly its section and the ancestors of its section are open |
| `ConfigSections.NoDefaultHeader` | external/CLI/CLI11.hpp:9144-9168 | a file without a default header is such a file |
| `ConfigSections.WalkEnter` | external/CLI/CLI11.hpp:9072-9119 | behind a closing item, entering a section closes to the common ancestor and opens down to the new section, each step legal |
| `ConfigSections.Output.CheckParentSegments` | external/CLI/CLI11.hpp:9072-9119 | appends to and takes back from the output exactly the items on the path between the sections |
| `ConfigSections.ReadConfig` | external/CLI/CLI11.hpp:9121-9252 | the loop over the lines emits the items of the reading function, and closes the last section with its ancestors |
| `ConfigContents.FileContentKept` | external/CLI/CLI11.hpp:9121-9252 | the items of a file, section items aside, set the same values under the same parents and names in the same order as its entries |
| `ConfigContents.InputsKept` | external/CLI/CLI11.hpp:9231-9238 | under every parents and name, the inputs of the items joined in order are the inputs of the entries joined in order |
| `ConfigContents.SectionItemsBare` | external/CLI/CLI11.hpp:9072-9119 | items that open and close sections carry no inputs |
| `CheckedMultiply.OverflowCheckExact` | external/CLI/CLI11.hpp:3189-3201 | the division test is true if and only if the product does not fit, for mixed signs through truncating division |
| `CheckedMultiply.Multiply` | external/CLI/CLI11.hpp:3203-3217 | succeeds if and only if the mathematical product fits the type, of any width and signedness, and leaves the argument unchanged otherwise |

## Left out

- `unpack_bytes` of the read cursor: nothing in the codec calls it (the string readers loop over `unpack` themselves), and its aligned branch copies from the start of the buffer instead of the cursor.
- Printable strings: a string whose size is fixed below 64K is written but not read, because the reader does not resize its destination, and both sides ignore the return codes of the length, so what is read depends on what the destination held before. No law of the codec extends to them, and messages that contain them are not covered.
- The octet-to-number and hexadecimal conversions of strings, JSON output, logging and error messages of the codec: they would only add easy members.
- The extension bit of CHOICE types and IE containers: their parts are modelled, their combination is not.
- Which ranges and values single precision rounds: the model says what happens for any octet count, not which count `log2f` yields. Range widths are exact only where the rounding does not cross a power of two, as for ranges up to 64K.
- MessageLaws.OlderReads: excludes readers that meet an extension of a sequence of which they know no group. They stop short and read what follows from the wrong place; `MessageLaws.ForwardCompatible` and `MessageLaws.BlindInField` say what becomes of them where nothing or the end of a field follows.
- MessagePacking.TestPackUnpackConsistency: requires that packing is defined and the message deliverable, which is what `MessageLaws.RoundTrip` needs; for other messages the test may fail.
- SpscLaws.SizeIsExact: says nothing of a third thread, whose two loads may see indices that were never current together.
- Memory layout, cache lines, allocators and `allocate_at_least` of the queue, element moves and exceptions of element constructors.
- AddModMethods.CalculateConverted: requires, where the output is the previous list and not the next, that the next list is empty; the source would append to the list it is walking, which is undefined in C++.
- The text processing of the configuration reader (trimming, quotes, arrays, comments, splitting of names, `maximumLayers`, `configSection`): it decides which `Line` a line of text is.
- The rest of the repository: application wiring, CU-CP and DU logic, stack traces, and the other parts of the command line library.
