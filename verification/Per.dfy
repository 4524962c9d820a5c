/** Outcomes of PER encoders and decoders, as functions of a bit position. An encoder
    that starts at bit `pos` emits bits; a decoder reads a stream from `pos` and moves
    on. `Undefined` stands for a call on which the source trips an assertion,
    overflows a signed integer or reads past the end of its buffer. */
module Per {
  import opened Bits

  datatype Code = Success | EncodeFail | DecodeFail

  datatype Encoding = Encoded(bits: seq<bool>) | Refused | EncodeUndefined {
    predicate IsFailure() {
      !Encoded?
    }

    function PropagateFailure(): Encoding
      requires IsFailure()
    {
      this
    }

    function Extract(): seq<bool>
      requires Encoded?
    {
      bits
    }
  }

  datatype Decoding<+T> = Decoded(value: T, pos: nat) | Rejected(at: nat) | DecodeUndefined {
    predicate IsFailure() {
      !Decoded?
    }

    function PropagateFailure<U>(): Decoding<U>
      requires IsFailure()
    {
      if Rejected? then Rejected(at) else DecodeUndefined
    }

    function Extract(): (T, nat)
      requires Decoded?
    {
      (value, pos)
    }
  }

  /** The value a decoder leaves behind, with its return code. */
  datatype Result<+T> = Ok(value: T) | Fail

  /** What a writer method has done to the bits written before it, as its encoder says. */
  ghost predicate Appended(before: seq<bool>, after: seq<bool>, code: Code, e: Encoding) {
    match e
    case Encoded(bits) => code == Success && after == before + bits
    case Refused => code == EncodeFail && before <= after
    case EncodeUndefined => true
  }

  /** Bits written ahead of an encoding. */
  function Then(head: seq<bool>, e: Encoding): Encoding {
    match e
    case Encoded(bits) => Encoded(head + bits)
    case _ => e
  }

  lemma AppendedThen(before: seq<bool>, head: seq<bool>, after: seq<bool>, code: Code, e: Encoding)
    requires Appended(before + head, after, code, e)
    ensures Appended(before, after, code, Then(head, e))
  {
    match e
    case Encoded(bits) => assert before + head + bits == before + (head + bits);
    case Refused => assert before <= before + head;
    case EncodeUndefined =>
  }

  /** What a reader method has returned and where it stands, as its decoder says. */
  ghost predicate Consumed<T>(after: nat, r: Result<T>, d: Decoding<T>) {
    match d
    case Decoded(v, p) => r == Ok(v) && after == p
    case Rejected(at) => r == Fail && after == at
    case DecodeUndefined => true
  }

  /** Reading n bits as a number. */
  ghost function Read(s: seq<bool>, pos: nat, n: nat): Decoding<nat> {
    if pos + n <= |s| then Decoded(NatAt(s, pos, pos + n), pos + n) else DecodeUndefined
  }

  /** Reading is defined exactly as far as the stream goes, and rejects nothing. */
  lemma ReadTakes(s: seq<bool>, pos: nat, n: nat)
    ensures var d := Read(s, pos, n);
            if pos + n <= |s| then d.Decoded? && d.pos == pos + n else d == DecodeUndefined
  {
  }

  lemma ReadBound(s: seq<bool>, pos: nat, n: nat)
    ensures var d := Read(s, pos, n); d.Decoded? ==> d.value < Pow2(n) && d.pos == pos + n <= |s|
  {
    if pos + n <= |s| { NatAtDef(s, pos, pos + n); }
  }

  lemma ReadBack(s: seq<bool>, pos: nat, v: nat, n: nat)
    requires At(s, pos, NatBits(v, n)) && v < Pow2(n)
    ensures Read(s, pos, n) == Decoded(v, pos + n)
  {
    NatAtNotation(s, pos, v, n);
    LowSmall(v, n);
  }

  /** Reading inverts writing under any split of the bits. */
  lemma ReadBackSplit(s: seq<bool>, pos: nat, v: nat, n: nat, m: nat)
    requires At(s, pos, NatBits(v, n + m)) && v < Pow2(n + m)
    ensures Read(s, pos, n) == Decoded(Shr(v, m), pos + n)
    ensures Read(s, pos + n, m) == Decoded(Low(v, m), pos + n + m)
    ensures v == Shl(Shr(v, m), m) + Low(v, m)
  {
    NatBitsSplit(v, n, m);
    NatBitsLow(v, m);
    ShrBound(v, n, m);
    ShiftMask(v, m);
    AtSplit(s, pos, NatBits(Shr(v, m), n), NatBits(v, m));
    ReadBack(s, pos, Shr(v, m), n);
    ReadBack(s, pos + n, Low(v, m), m);
  }
}
