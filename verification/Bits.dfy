/** Binary notation: the value an unsigned number has as a run of bits, most
    significant bit first, and the bit string that a byte buffer stands for. */
module Bits {

  // Each recursive function here is a wrapper around one whose name ends in Rec. The
  // `guard` of the latter counts down before the recursion is entered; it does not
  // affect the value and only keeps the verifier from unfolding the recursion unasked.
  // The lemmas whose names end in Def unfold it one step.

  type byte = x: int | 0 <= x < 256

  function Pow2(n: nat): (r: nat)
    ensures r >= 1
  {
    Pow2Rec(n, 2)
  }

  function Pow2Rec(n: nat, guard: nat): (r: nat)
    ensures r >= 1
    decreases n, guard
  {
    if guard > 0 then Pow2Rec(n, guard - 1) else if n == 0 then 1 else 2 * Pow2Rec(n - 1, 2)
  }

  lemma Pow2Def(n: nat)
    ensures Pow2(n) == if n == 0 then 1 else 2 * Pow2(n - 1)
  {
    assert Pow2Rec(n, 2) == Pow2Rec(n, 1) == Pow2Rec(n, 0);
  }

  /** Bit k of v, counting from the least significant. */
  function Bit(v: nat, k: nat): bool {
    BitRec(v, k, 2)
  }

  function BitRec(v: nat, k: nat, guard: nat): bool
    decreases k, guard
  {
    if guard > 0 then BitRec(v, k, guard - 1) else if k == 0 then v % 2 == 1 else BitRec(v / 2, k - 1, 2)
  }

  lemma BitDef(v: nat, k: nat)
    ensures Bit(v, k) == if k == 0 then v % 2 == 1 else Bit(v / 2, k - 1)
  {
    assert BitRec(v, k, 2) == BitRec(v, k, 1) == BitRec(v, k, 0);
  }

  /** The n low bits of v, most significant first. */
  function NatBits(v: nat, n: nat): (r: seq<bool>)
    ensures |r| == n
  {
    NatBitsRec(v, n, 2)
  }

  function NatBitsRec(v: nat, n: nat, guard: nat): (r: seq<bool>)
    ensures |r| == n
    decreases guard
  {
    if guard > 0 then NatBitsRec(v, n, guard - 1) else seq(n, i requires 0 <= i < n => Bit(v, n - 1 - i))
  }

  lemma NatBitsDef(v: nat, n: nat)
    ensures NatBits(v, n) == seq(n, i requires 0 <= i < n => Bit(v, n - 1 - i))
  {
    assert NatBitsRec(v, n, 2) == NatBitsRec(v, n, 1) == NatBitsRec(v, n, 0);
  }

  /** The number that bits lo..hi of a stream denote, most significant first. */
  ghost function NatAt(s: seq<bool>, lo: nat, hi: nat): nat
    requires lo <= hi <= |s|
  {
    NatAtRec(s, lo, hi, 2)
  }

  ghost function NatAtRec(s: seq<bool>, lo: nat, hi: nat, guard: nat): (r: nat)
    requires lo <= hi <= |s|
    decreases guard
  {
    if guard > 0 then NatAtRec(s, lo, hi, guard - 1)
    else
      NotationExists(s[lo..hi]);
      var r: nat :| r < Pow2(hi - lo) && NatBits(r, hi - lo) == s[lo..hi];
      r
  }

  lemma NatAtDef(s: seq<bool>, lo: nat, hi: nat)
    requires lo <= hi <= |s|
    ensures NatAt(s, lo, hi) < Pow2(hi - lo) && NatBits(NatAt(s, lo, hi), hi - lo) == s[lo..hi]
  {
    NotationExists(s[lo..hi]);
    assert NatAtRec(s, lo, hi, 2) == NatAtRec(s, lo, hi, 1) == NatAtRec(s, lo, hi, 0);
  }

  /** The bits of a byte string, byte by byte. */
  function BytesBits(bs: seq<byte>): (r: seq<bool>)
    ensures |r| == 8 * |bs|
  {
    BytesBitsRec(bs, 2)
  }

  function BytesBitsRec(bs: seq<byte>, guard: nat): (r: seq<bool>)
    ensures |r| == 8 * |bs|
    decreases guard
  {
    if guard > 0 then BytesBitsRec(bs, guard - 1)
    else seq(8 * |bs|, i requires 0 <= i < 8 * |bs| => Bit(bs[i / 8], 7 - i % 8))
  }

  lemma BytesBitsDef(bs: seq<byte>)
    ensures BytesBits(bs) == seq(8 * |bs|, i requires 0 <= i < 8 * |bs| => Bit(bs[i / 8], 7 - i % 8))
  {
    assert BytesBitsRec(bs, 2) == BytesBitsRec(bs, 1) == BytesBitsRec(bs, 0);
  }

  function Zeros(n: nat): (r: seq<bool>)
    ensures |r| == n
  {
    seq(n, _ => false)
  }

  /** The number of octets that n bits need: ceil_frac(n, 8). */
  function CeilOctets(n: nat): (r: nat)
    ensures 8 * (r - 1) < n <= 8 * r
  {
    CeilOctetsRec(n, 2)
  }

  function CeilOctetsRec(n: nat, guard: nat): (r: nat)
    ensures 8 * (r - 1) < n <= 8 * r
  {
    if guard > 0 then CeilOctetsRec(n, guard - 1) else (n + 7) / 8
  }

  /** The first octet boundary at or after a bit position. */
  function AlignUp(pos: nat): (r: nat)
    ensures pos <= r < pos + 8
  {
    8 * CeilOctets(pos)
  }

  /** Zero bits from a position to its next octet boundary. */
  function PadBits(pos: nat): (r: seq<bool>)
    ensures |r| == AlignUp(pos) - pos
  {
    Zeros(AlignUp(pos) - pos)
  }

  /** Alignment in the aligned variant only. */
  function AlignIf(aligned: bool, pos: nat): (r: nat)
    ensures pos <= r
  {
    if aligned then AlignUp(pos) else pos
  }

  function PadIf(aligned: bool, pos: nat): (r: seq<bool>)
    ensures |r| == AlignIf(aligned, pos) - pos
  {
    if aligned then PadBits(pos) else []
  }

  /** The least k with v <= 2^k, for v >= 1: what ceilf(log2f(v)) computes exactly. */
  function CeilLog2(v: nat): (k: nat)
    requires v >= 1
    ensures v <= Pow2(k)
    ensures k > 0 ==> Pow2(k - 1) < v
  {
    CeilLog2Rec(v, 2)
  }

  function CeilLog2Rec(v: nat, guard: nat): (k: nat)
    requires v >= 1
    ensures v <= Pow2(k)
    ensures k > 0 ==> Pow2(k - 1) < v
    decreases v, guard
  {
    if guard > 0 then CeilLog2Rec(v, guard - 1)
    else if v == 1 then Pow2Def(0); 0
    else
      var k := CeilLog2Rec((v + 1) / 2, 2);
      Pow2Def(k + 1); Pow2Def(k); Pow2Def(0);
      k + 1
  }

  /** The number of binary digits of v >= 1: what floorf(log2f(v) + 1) computes exactly. */
  function BitLength(v: nat): (k: nat)
    requires v >= 1
    ensures k >= 1 && Pow2(k - 1) <= v < Pow2(k)
  {
    BitLengthRec(v, 2)
  }

  function BitLengthRec(v: nat, guard: nat): (k: nat)
    requires v >= 1
    ensures k >= 1 && Pow2(k - 1) <= v < Pow2(k)
    decreases v, guard
  {
    if guard > 0 then BitLengthRec(v, guard - 1)
    else if v == 1 then Pow2Def(0); Pow2Def(1); 1
    else
      var k := BitLengthRec(v / 2, 2);
      Pow2Def(k + 1); Pow2Def(k);
      k + 1
  }

  /** The bits found at a position of a stream. */
  ghost predicate At(s: seq<bool>, pos: nat, bits: seq<bool>) {
    pos + |bits| <= |s| && s[pos..pos + |bits|] == bits
  }

  lemma AtSplit(s: seq<bool>, pos: nat, a: seq<bool>, b: seq<bool>)
    ensures At(s, pos, a + b) <==> At(s, pos, a) && At(s, pos + |a|, b)
  {
    if pos + |a| + |b| <= |s| {
      assert s[pos..pos + |a| + |b|] == s[pos..pos + |a|] + s[pos + |a|..pos + |a| + |b|];
      if At(s, pos, a + b) {
        var t := s[pos..pos + |a| + |b|];
        assert t[..|a|] == a && t[|a|..] == b;
      }
    }
  }

  // Powers of two.

  lemma {:induction false} Pow2Monotone(a: nat, b: nat)
    requires a <= b
    ensures Pow2(a) <= Pow2(b)
    decreases b
  {
    if a < b {
      Pow2Monotone(a, b - 1);
      Pow2Def(b);
    }
  }

  lemma Pow2Strict(a: nat, b: nat)
    requires a < b
    ensures Pow2(a) < Pow2(b)
  {
    Pow2Monotone(a, b - 1);
    Pow2Def(b);
  }

  lemma Pow2Values()
    ensures Pow2(0) == 1 && Pow2(1) == 2 && Pow2(2) == 4 && Pow2(3) == 8 && Pow2(4) == 16
    ensures Pow2(5) == 32 && Pow2(6) == 64 && Pow2(7) == 128 && Pow2(8) == 256
    ensures Pow2(14) == 16384 && Pow2(16) == 65536
  {
    Pow2Def(0); Pow2Def(1); Pow2Def(2); Pow2Def(3); Pow2Def(4); Pow2Def(5); Pow2Def(6); Pow2Def(7); Pow2Def(8);
    Pow2Def(9); Pow2Def(10); Pow2Def(11); Pow2Def(12); Pow2Def(13); Pow2Def(14); Pow2Def(15); Pow2Def(16);
  }

  // Shifts and masks, one binary digit at a time.

  /** v << m, without overflow. */
  function Shl(v: nat, m: nat): nat {
    ShlRec(v, m, 2)
  }

  function ShlRec(v: nat, m: nat, guard: nat): nat
    decreases m, guard
  {
    if guard > 0 then ShlRec(v, m, guard - 1) else if m == 0 then v else ShlRec(2 * v, m - 1, 2)
  }

  lemma ShlDef(v: nat, m: nat)
    ensures Shl(v, m) == if m == 0 then v else Shl(2 * v, m - 1)
  {
    assert ShlRec(v, m, 2) == ShlRec(v, m, 1) == ShlRec(v, m, 0);
  }

  /** v >> m. */
  function Shr(v: nat, m: nat): nat {
    ShrRec(v, m, 2)
  }

  function ShrRec(v: nat, m: nat, guard: nat): nat
    decreases m, guard
  {
    if guard > 0 then ShrRec(v, m, guard - 1) else if m == 0 then v else ShrRec(v / 2, m - 1, 2)
  }

  lemma ShrDef(v: nat, m: nat)
    ensures Shr(v, m) == if m == 0 then v else Shr(v / 2, m - 1)
  {
    assert ShrRec(v, m, 2) == ShrRec(v, m, 1) == ShrRec(v, m, 0);
  }

  /** v & ((1 << m) - 1). */
  function Low(v: nat, m: nat): (r: nat)
    ensures r < Pow2(m) && r <= v
  {
    LowRec(v, m, 2)
  }

  function LowRec(v: nat, m: nat, guard: nat): (r: nat)
    ensures r < Pow2(m) && r <= v
    decreases m, guard
  {
    if guard > 0 then LowRec(v, m, guard - 1)
    else if m == 0 then 0
    else
      Pow2Def(m);
      2 * LowRec(v / 2, m - 1, 2) + v % 2
  }

  lemma LowDef(v: nat, m: nat)
    ensures Low(v, m) == if m == 0 then 0 else 2 * Low(v / 2, m - 1) + v % 2
  {
    assert LowRec(v, m, 2) == LowRec(v, m, 1) == LowRec(v, m, 0);
  }

  lemma {:induction false} ShlMultiplies(v: nat, m: nat)
    ensures Shl(v, m) == v * Pow2(m)
    decreases m
  {
    ShlDef(v, m);
    Pow2Def(m);
    if m > 0 {
      ShlMultiplies(2 * v, m - 1);
      var p := Pow2(m - 1);
      assert 2 * v * p == v * (2 * p);
    }
  }

  lemma {:induction false} ShlAdd(a: nat, b: nat, m: nat)
    ensures Shl(a + b, m) == Shl(a, m) + Shl(b, m)
    decreases m
  {
    ShlDef(a + b, m);
    ShlDef(a, m);
    ShlDef(b, m);
    if m > 0 { ShlAdd(2 * a, 2 * b, m - 1); }
  }

  lemma {:induction false} ShlShl(v: nat, a: nat, b: nat)
    ensures Shl(Shl(v, a), b) == Shl(v, a + b)
    decreases a
  {
    ShlDef(v, a);
    ShlDef(v, a + b);
    if a > 0 { ShlShl(2 * v, a - 1, b); }
  }

  lemma {:induction false} ShlDouble(v: nat, m: nat)
    ensures Shl(2 * v, m) == 2 * Shl(v, m)
    decreases m
  {
    ShlDef(v, m);
    ShlDef(2 * v, m);
    if m > 0 { ShlDouble(2 * v, m - 1); }
  }

  lemma {:induction false} ShlPow2(a: nat, b: nat)
    ensures Shl(Pow2(a), b) == Pow2(a + b)
    decreases b
  {
    ShlDef(Pow2(a), b);
    Pow2Def(a + 1);
    if b > 0 { ShlPow2(a + 1, b - 1); }
  }

  /** A shifted number leaves room for m more bits. */
  lemma ShlBound(v: nat, n: nat, m: nat)
    requires v < Pow2(n)
    ensures Shl(v, m) + Pow2(m) <= Pow2(n + m)
  {
    ShlPow2(n, m);
    ShlPow2(0, m);
    Pow2Def(0);
    ShlAdd(v, 1, m);
    ShlAdd(v + 1, Pow2(n) - 1 - v, m);
  }

  lemma {:induction false} ShiftMask(v: nat, m: nat)
    ensures v == Shl(Shr(v, m), m) + Low(v, m)
    decreases m
  {
    LowDef(v, m);
    ShrDef(v, m);
    ShlDef(Shr(v, m), m);
    if m > 0 {
      ShiftMask(v / 2, m - 1);
      ShlDouble(Shr(v, m), m - 1);
    }
  }

  lemma {:induction false} ShiftMaskUnique(q: nat, r: nat, m: nat)
    requires r < Pow2(m)
    ensures Shr(Shl(q, m) + r, m) == q && Low(Shl(q, m) + r, m) == r
    decreases m
  {
    var v := Shl(q, m) + r;
    ShlDef(q, m);
    Pow2Def(m);
    ShrDef(v, m);
    LowDef(v, m);
    if m > 0 {
      ShlDouble(q, m - 1);
      assert v / 2 == Shl(q, m - 1) + r / 2;
      ShiftMaskUnique(q, r / 2, m - 1);
    }
  }

  lemma ShrBound(v: nat, n: nat, m: nat)
    requires v < Pow2(n + m)
    ensures Shr(v, m) < Pow2(n)
  {
    ShiftMask(v, m);
    if Shr(v, m) >= Pow2(n) {
      ShlAdd(Pow2(n), Shr(v, m) - Pow2(n), m);
      ShlPow2(n, m);
    }
  }

  lemma LowSmall(v: nat, m: nat)
    requires v < Pow2(m)
    ensures Low(v, m) == v && Shr(v, m) == 0
  {
    ShlZero(m);
    ShiftMaskUnique(0, v, m);
  }

  lemma {:induction false} ShlZero(m: nat)
    ensures Shl(0, m) == 0
  {
    ShlDef(0, m);
    if m > 0 { ShlZero(m - 1); }
  }

  /** Masking is the remainder by a power of two. */
  lemma LowIsRemainder(v: nat, m: nat)
    ensures Low(v, m) == v % Pow2(m)
  {
    ShiftMask(v, m);
    ShlMultiplies(Shr(v, m), m);
    RemainderUnique(v, Pow2(m), Shr(v, m), Low(v, m));
  }

  lemma MulGrows(k: int, m: int)
    requires k >= 1 && m >= 0
    ensures k * m >= m
  {
    assert k * m == (k - 1) * m + m;
    assert (k - 1) * m >= 0;
  }

  lemma RemainderUnique(v: int, m: int, q: int, r: int)
    requires 0 <= r < m && v == q * m + r
    ensures v / m == q && v % m == r
  {
    var d := v / m - q;
    assert v / m * m == q * m + d * m;
    assert d * m == r - v % m;
    if d >= 1 {
      MulGrows(d, m);
    } else if d <= -1 {
      assert (-d) * m == -(d * m);
      MulGrows(-d, m);
    }
  }

  // Bit strings as numbers.

  lemma {:induction false} BitOfShr(v: nat, m: nat, j: nat)
    ensures Bit(Shr(v, m), j) == Bit(v, j + m)
    decreases m
  {
    ShrDef(v, m);
    if m > 0 {
      BitDef(v, j + m);
      BitOfShr(v / 2, m - 1, j);
    }
  }

  lemma {:induction false} BitOfLow(v: nat, n: nat, j: nat)
    requires j < n
    ensures Bit(Low(v, n), j) == Bit(v, j)
    decreases n
  {
    LowDef(v, n);
    BitDef(Low(v, n), j);
    BitDef(v, j);
    if j > 0 { BitOfLow(v / 2, n - 1, j - 1); }
  }

  lemma {:induction false} BitOfSmall(v: nat, n: nat, j: nat)
    requires v < Pow2(n) && n <= j
    ensures !Bit(v, j)
    decreases j
  {
    Pow2Def(n);
    BitDef(v, j);
    if n > 0 { BitOfSmall(v / 2, n - 1, j - 1); } else if j > 0 { BitOfSmall(0, 0, j - 1); }
  }

  /** A number's notation is that of its high part followed by that of its low part. */
  lemma NatBitsSplit(v: nat, n: nat, m: nat)
    ensures NatBits(v, n + m) == NatBits(Shr(v, m), n) + NatBits(v, m)
  {
    NatBitsDef(v, n + m);
    NatBitsDef(Shr(v, m), n);
    NatBitsDef(v, m);
    forall j | 0 <= j < n ensures Bit(Shr(v, m), j) == Bit(v, j + m) { BitOfShr(v, m, j); }
  }

  /** Only the low n bits of a number matter to its n-bit notation. */
  lemma NatBitsLow(v: nat, n: nat)
    ensures NatBits(Low(v, n), n) == NatBits(v, n)
  {
    NatBitsDef(Low(v, n), n);
    NatBitsDef(v, n);
    forall j | 0 <= j < n ensures Bit(Low(v, n), j) == Bit(v, j) { BitOfLow(v, n, j); }
  }

  lemma NatBitsInit(v: nat, n: nat)
    requires n > 0
    ensures NatBits(v, n)[..n - 1] == NatBits(v / 2, n - 1)
    ensures NatBits(v, n)[n - 1] == (v % 2 == 1)
  {
    NatBitsSplit(v, n - 1, 1);
    ShrDef(v, 1);
    ShrDef(v / 2, 0);
    NatBitsBit(v);
  }

  lemma NatBitsBit(v: nat)
    ensures NatBits(v, 1) == [v % 2 == 1]
  {
    NatBitsDef(v, 1);
    BitDef(v, 0);
  }

  /** Every bit string is the notation of some number ... */
  lemma {:induction false} NotationExists(s: seq<bool>)
    ensures exists r: nat :: r < Pow2(|s|) && NatBits(r, |s|) == s
    decreases |s|
  {
    if s == [] {
      Pow2Def(0);
      NatBitsDef(0, 0);
      assert NatBits(0, 0) == s;
    } else {
      var n := |s| - 1;
      NotationExists(s[..n]);
      var q: nat :| q < Pow2(n) && NatBits(q, n) == s[..n];
      var r := 2 * q + (if s[n] then 1 else 0);
      SplicedBits(q, n, r - 2 * q, 1);
      NatBitsBit(r - 2 * q);
      ShlDef(q, 1);
      ShlDef(2 * q, 0);
      Pow2Def(n + 1);
      assert s == s[..n] + [s[n]];
    }
  }

  /** ... and of only one that fits. */
  lemma {:induction false} NotationUnique(v: nat, w: nat, n: nat)
    requires v < Pow2(n) && w < Pow2(n) && NatBits(v, n) == NatBits(w, n)
    ensures v == w
    decreases n
  {
    Pow2Def(n);
    if n > 0 {
      NatBitsInit(v, n);
      NatBitsInit(w, n);
      NotationUnique(v / 2, w / 2, n - 1);
    }
  }

  /** Reading n bits back where the notation of v was written gives v modulo 2^n. */
  lemma NatAtNotation(s: seq<bool>, pos: nat, v: nat, n: nat)
    requires At(s, pos, NatBits(v, n))
    ensures NatAt(s, pos, pos + n) == Low(v, n)
  {
    NatBitsLow(v, n);
    NatAtDef(s, pos, pos + n);
    NotationUnique(NatAt(s, pos, pos + n), Low(v, n), n);
  }

  lemma SplicedBits(c: nat, o: nat, x: nat, m: nat)
    requires x < Pow2(m)
    ensures NatBits(Shl(c, m) + x, o + m) == NatBits(c, o) + NatBits(x, m)
  {
    NatBitsSplit(Shl(c, m) + x, o, m);
    ShiftMaskUnique(c, x, m);
    NatBitsLow(Shl(c, m) + x, m);
  }

  /** A number that fits in m bits is written on n more with leading zeros. */
  lemma NatBitsZeroExtend(v: nat, n: nat, m: nat)
    requires v < Pow2(m)
    ensures NatBits(v, n + m) == Zeros(n) + NatBits(v, m)
  {
    NatBitsDef(v, n + m);
    NatBitsDef(v, m);
    forall j | m <= j < n + m ensures !Bit(v, j) { BitOfSmall(v, m, j); }
  }

  lemma NatBitsZero(n: nat)
    ensures NatBits(0, n) == Zeros(n)
  {
    NatBitsZeroExtend(0, n, 0);
  }

  // Byte strings as bit strings.

  lemma BytesBitsConcat(a: seq<byte>, b: seq<byte>)
    ensures BytesBits(a + b) == BytesBits(a) + BytesBits(b)
  {
    BytesBitsDef(a + b);
    BytesBitsDef(a);
    BytesBitsDef(b);
  }

  lemma BytesBitsOne(b: byte)
    ensures BytesBits([b]) == NatBits(b, 8)
  {
    BytesBitsDef([b]);
    NatBitsDef(b, 8);
  }

  lemma BytesBitsSnoc(bs: seq<byte>, i: nat)
    requires i < |bs|
    ensures BytesBits(bs[..i + 1]) == BytesBits(bs[..i]) + NatBits(bs[i], 8)
  {
    assert bs[..i + 1] == bs[..i] + [bs[i]];
    BytesBitsConcat(bs[..i], [bs[i]]);
    BytesBitsOne(bs[i]);
  }

  /** o bits of byte i. */
  lemma BytesBitsWindow(bs: seq<byte>, i: nat, o: nat, m: nat)
    requires i < |bs| && o + m <= 8
    ensures BytesBits(bs)[8 * i + o..8 * i + o + m] == NatBits(bs[i], 8)[o..o + m]
  {
    BytesBitsDef(bs);
    NatBitsDef(bs[i], 8);
  }
}
