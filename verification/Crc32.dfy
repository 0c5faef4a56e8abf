/**
 CRC-32 as the bootloader computes it: bitwise, reflected, one byte at a time.
 The loop is proved equal to a fold over the bits of the message, the fold is
 proved to be the polynomial remainder of IEEE 802.3 section 3.2.9, and from its
 linearity every error burst of at most 32 bits is proved to be detected.

 Bit-level facts are isolated in small lemmas; everywhere else the operators below
 are hidden, so that the solver never sees more than a few words at a time.
 */
module Crc32 {
  import opened Bytes

  const POLY: bv32 := 0xEDB8_8320
  const ONES: bv32 := 0xFFFF_FFFF
  const TOP: bv32 := 0x8000_0000

  function Xor(a: bv32, b: bv32): bv32 { a ^ b }

  function And(a: bv32, b: bv32): bv32 { a & b }

  function Up(c: bv32): bv32 { c << 1 }

  function Bit(d: bool): (r: bv32)
    ensures r <= 1
  {
    if d then 1 else 0
  }

  /** Bits packed with the first one in the lowest position. */
  function Pack(bits: seq<bool>): bv32 {
    if bits == [] then 0 else Xor(Up(Pack(bits[1..])), Bit(bits[0]))
  }

  /** The lowest `len` bits of a number, lowest first. */
  function BitsOf(n: nat, len: nat): (s: seq<bool>)
    ensures |s| == len
  {
    if len == 0 then [] else [n % 2 == 1] + BitsOf(n / 2, len - 1)
  }

  /** The bits of a byte in the order in which the register consumes them. */
  function ByteBits(b: byte): (s: seq<bool>)
    ensures |s| == 8
  {
    BitsOf(b, 8)
  }

  /** A byte widened to a word. */
  function Word(b: byte): bv32 {
    Pack(ByteBits(b))
  }

  function Half(c: bv32): bv32 { c >> 1 }

  /** What the bit that falls out feeds back. */
  function Taps(c: bv32): bv32 { if c & 1 == 1 then POLY else 0 }

  /** One shift of the reflected register. */
  function Shift(c: bv32): bv32 {
    Xor(Half(c), Taps(c))
  }

  function Shifts(c: bv32, n: nat): bv32
    decreases n
  {
    if n == 0 then c else Shifts(Shift(c), n - 1)
  }

  function Absorb(c: bv32, data: seq<byte>): bv32
    decreases |data|
  {
    if data == [] then c else Absorb(Shifts(Xor(c, Word(data[0])), 8), data[1..])
  }

  function Odd(c: bv32): bool { c & 1 == 1 }

  /** The number the lowest `n` bits denote. */
  function Number(c: bv32, n: nat): (v: nat)
    ensures v < Pow2(n)
    decreases n
  {
    if n == 0 then 0 else (if Odd(c) then 1 else 0) + 2 * Number(Half(c), n - 1)
  }

  function Pow2(k: nat): (p: nat)
    ensures p > 0
  {
    if k == 0 then 1 else 2 * Pow2(k - 1)
  }

  function Finalize(c: bv32): u32 {
    assert Pow2(8) == 0x100 && Pow2(16) == 0x1_0000 && Pow2(24) == 0x100_0000 && Pow2(32) == 0x1_0000_0000;
    Number(Xor(c, ONES), 32)
  }

  function Checksum(data: seq<byte>): u32 {
    Finalize(Absorb(ONES, data))
  }

  /** crc32_update: the nested loops compute the fold. */
  method Update(crc: bv32, data: seq<byte>) returns (r: bv32)
    ensures r == Absorb(crc, data)
  {
    hide Xor, Word, Shift;
    r := crc;
    var p := 0;
    while p < |data|
      invariant 0 <= p <= |data|
      invariant Absorb(r, data[p..]) == Absorb(crc, data)
    {
      ghost var before := Xor(r, Word(data[p]));
      r := Xor(r, Word(data[p]));
      var i := 0;
      while i < 8
        invariant 0 <= i <= 8
        invariant Shifts(r, 8 - i) == Shifts(before, 8)
      {
        r := MaskedShift(r);
        i := i + 1;
      }
      assert data[p..][0] == data[p] && data[p..][1..] == data[p + 1..];
      p := p + 1;
    }
  }

  /** The loop body: an all-ones or all-zeros mask selects the polynomial. */
  method MaskedShift(c: bv32) returns (r: bv32)
    ensures r == Shift(c)
  {
    var mask: bv32 := 0 - (c & 1);
    Lsb(c);
    r := (c >> 1) ^ (POLY & mask);
  }

  lemma Lsb(c: bv32)
    ensures c & 1 == 0 || c & 1 == 1
  {
  }

  /** A CRC may be taken in pieces: chunked reads give the CRC of the whole. */
  lemma {:induction false} AbsorbConcat(c: bv32, a: seq<byte>, b: seq<byte>)
    ensures Absorb(c, a + b) == Absorb(Absorb(c, a), b)
    decreases |a|
  {
    hide Xor, Word, Shifts;
    if a == [] {
      assert a + b == b;
    } else {
      assert (a + b)[1..] == a[1..] + b;
      AbsorbConcat(Shifts(Xor(c, Word(a[0])), 8), a[1..], b);
    }
  }

  // ----- The register one bit at a time ------------------------------------

  function Run(c: bv32, bits: seq<bool>): bv32
    decreases |bits|
  {
    if bits == [] then c else Run(Shift(Xor(c, Bit(bits[0]))), bits[1..])
  }

  lemma {:induction false} RunConcat(c: bv32, a: seq<bool>, b: seq<bool>)
    ensures Run(c, a + b) == Run(Run(c, a), b)
    decreases |a|
  {
    hide Xor, Shift, Bit;
    if a == [] {
      assert a + b == b;
    } else {
      assert (a + b)[1..] == a[1..] + b;
      RunConcat(Shift(Xor(c, Bit(a[0]))), a[1..], b);
    }
  }

  // ----- Linearity and invertibility of the shift -----------------------------

  lemma XorComm(a: bv32, b: bv32)
    ensures Xor(a, b) == Xor(b, a)
  {
  }

  lemma XorAssoc(a: bv32, b: bv32, c: bv32)
    ensures Xor(Xor(a, b), c) == Xor(a, Xor(b, c))
  {
  }

  lemma XorSwap(c: bv32, d: bv32, x: bv32, y: bv32)
    ensures Xor(Xor(c, d), Xor(x, y)) == Xor(Xor(c, x), Xor(d, y))
  {
    hide Xor;
    XorAssoc(c, d, Xor(x, y));
    XorAssoc(d, x, y);
    XorComm(d, x);
    XorAssoc(x, d, y);
    XorAssoc(c, x, Xor(d, y));
  }

  lemma XorFacts(c: bv32)
    ensures Xor(c, 0) == c && Xor(0, c) == c && Xor(c, c) == 0
  {
  }

  lemma XorZero(c: bv32, d: bv32)
    requires Xor(c, d) == 0
    ensures c == d
  {
  }

  lemma BitXor(x: bool, y: bool)
    ensures Bit(x != y) == Xor(Bit(x), Bit(y))
  {
  }

  lemma HalfLinear(a: bv32, b: bv32)
    ensures Half(Xor(a, b)) == Xor(Half(a), Half(b))
  {
  }

  lemma TapsLinear(a: bv32, b: bv32)
    ensures Taps(Xor(a, b)) == Xor(Taps(a), Taps(b))
  {
    LowBitXor(a, b);
    Lsb(a);
    Lsb(b);
    XorFacts(POLY);
    XorFacts(0);
    hide Xor;
  }

  lemma LowBitXor(a: bv32, b: bv32)
    ensures Odd(Xor(a, b)) == (Odd(a) != Odd(b))
  {
  }

  lemma ShiftLinear(a: bv32, b: bv32)
    ensures Shift(Xor(a, b)) == Xor(Shift(a), Shift(b))
  {
    hide Xor, Half, Taps;
    HalfLinear(a, b);
    TapsLinear(a, b);
    XorSwap(Half(a), Half(b), Taps(a), Taps(b));
  }

  /** The shift loses nothing: only zero shifts to zero. */
  lemma ShiftInjective(c: bv32)
    requires Shift(c) == 0
    ensures c == 0
  {
  }

  function Xored(a: seq<bool>, b: seq<bool>): (d: seq<bool>)
    requires |a| == |b|
    ensures |d| == |a| && forall i :: 0 <= i < |a| ==> d[i] == (a[i] != b[i])
  {
    seq(|a|, i requires 0 <= i < |a| => a[i] != b[i])
  }

  /** Two runs differ by the run of their difference. */
  lemma {:induction false} RunLinear(c: bv32, d: bv32, a: seq<bool>, b: seq<bool>)
    requires |a| == |b|
    ensures Xor(Run(c, a), Run(d, b)) == Run(Xor(c, d), Xored(a, b))
    decreases |a|
  {
    hide Xor, Shift, Bit;
    if a != [] {
      var x, y := Bit(a[0]), Bit(b[0]);
      BitXor(a[0], b[0]);
      XorSwap(c, d, x, y);
      ShiftLinear(Xor(c, x), Xor(d, y));
      RunLinear(Shift(Xor(c, x)), Shift(Xor(d, y)), a[1..], b[1..]);
      assert Xored(a, b)[1..] == Xored(a[1..], b[1..]);
    }
  }

  // ----- Absorbing bits is absorbing their packed word --------------------------

  /** The positions from `n` upwards. */
  function High(n: nat): bv32
    decreases n
  {
    if n == 0 then ONES else Up(High(n - 1))
  }

  lemma {:induction false} HighShrinks(n: nat)
    ensures And(High(n), High(n + 1)) == High(n + 1)
  {
    hide And, Up;
    if n > 0 {
      HighShrinks(n - 1);
      MaskUp(High(n - 1), High(n));
    } else {
      AndOnes(High(1));
    }
  }

  lemma AndOnes(h: bv32)
    ensures And(ONES, h) == h
  {
  }

  lemma MaskUp(h: bv32, k: bv32)
    requires And(h, k) == k
    ensures And(Up(h), Up(k)) == Up(k)
  {
  }

  lemma HighOf31()
    ensures High(31) == TOP
  {
    assert High(8) == 0xFFFF_FF00;
    assert High(16) == 0xFFFF_0000;
    assert High(24) == 0xFF00_0000;
    assert High(31) == 0x8000_0000;
  }

  lemma {:induction false} HighKeepsTop(n: nat)
    requires n <= 31
    ensures And(High(n), TOP) == TOP
    decreases 31 - n
  {
    if n == 31 {
      HighOf31();
    } else {
      hide And, Up;
      HighKeepsTop(n + 1);
      HighShrinks(n);
      TopInherited(High(n), High(n + 1));
    }
  }

  lemma TopInherited(h: bv32, k: bv32)
    requires And(h, k) == k && And(k, TOP) == TOP
    ensures And(h, TOP) == TOP
  {
  }

  lemma {:induction false} PackBelow(bits: seq<bool>)
    ensures And(Pack(bits), High(|bits|)) == 0
    decreases |bits|
  {
    hide And, Up, Xor, Bit;
    if bits != [] {
      PackBelow(bits[1..]);
      PackStep(Pack(bits[1..]), High(|bits| - 1), Bit(bits[0]));
    } else {
      AndZero(High(0));
    }
  }

  lemma AndZero(h: bv32)
    ensures And(0, h) == 0
  {
  }

  lemma PackStep(p: bv32, h: bv32, d: bv32)
    requires And(p, h) == 0 && d <= 1
    ensures And(Xor(Up(p), d), Up(h)) == 0
  {
  }

  lemma PackTopClear(bits: seq<bool>)
    requires |bits| <= 31
    ensures And(Pack(bits), TOP) == 0
  {
    hide And, Pack, High;
    PackBelow(bits);
    HighKeepsTop(|bits|);
    TopClear(Pack(bits), High(|bits|));
  }

  lemma TopClear(p: bv32, h: bv32)
    requires And(p, h) == 0 && And(h, TOP) == TOP
    ensures And(p, TOP) == 0
  {
  }

  /** Absorbing a word and shifting is shifting and absorbing the word one place lower. */
  lemma ShiftAbsorbs(c: bv32, d: bv32, w: bv32)
    requires And(w, TOP) == 0
    ensures Shift(Xor(c, Xor(Up(w), d))) == Xor(Shift(Xor(c, d)), w)
  {
    hide Shift, Xor, Up, And;
    SplitLowBit(c, w, d);
    ShiftLinear(Xor(c, d), Up(w));
    EvenShift(w);
  }

  lemma SplitLowBit(c: bv32, w: bv32, d: bv32)
    ensures Xor(c, Xor(Up(w), d)) == Xor(Xor(c, d), Up(w))
  {
  }

  lemma EvenShift(w: bv32)
    requires And(w, TOP) == 0
    ensures Shift(Up(w)) == w
  {
  }

  lemma {:induction false} RunIsPackedShifts(c: bv32, bits: seq<bool>)
    requires |bits| <= 32
    ensures Run(c, bits) == Shifts(Xor(c, Pack(bits)), |bits|)
    decreases |bits|
  {
    hide Shift, Bit, Xor, Up, And;
    if bits == [] {
      XorFacts(c);
    } else {
      PackTopClear(bits[1..]);
      ShiftAbsorbs(c, Bit(bits[0]), Pack(bits[1..]));
      RunIsPackedShifts(Shift(Xor(c, Bit(bits[0]))), bits[1..]);
    }
  }

  lemma {:induction false} ShiftsInjective(c: bv32, n: nat)
    requires Shifts(c, n) == 0
    ensures c == 0
    decreases n
  {
    hide Shift;
    if n > 0 {
      ShiftsInjective(Shift(c), n - 1);
      ShiftInjective(c);
    }
  }

  lemma {:induction false} PackZero(bits: seq<bool>)
    requires |bits| <= 32 && Pack(bits) == 0
    ensures forall i :: 0 <= i < |bits| ==> !bits[i]
    decreases |bits|
  {
    hide Xor, Up, And;
    if bits != [] {
      PackTopClear(bits[1..]);
      PackParts(Pack(bits[1..]), bits[0]);
      PackZero(bits[1..]);
      forall i | 0 <= i < |bits| ensures !bits[i] {
        if i > 0 { assert bits[i] == bits[1..][i - 1]; }
      }
    }
  }

  lemma PackParts(p: bv32, d: bool)
    requires And(p, TOP) == 0 && Xor(Up(p), Bit(d)) == 0
    ensures p == 0 && !d
  {
  }

  // ----- Bytes as bits ------------------------------------------------------

  function Bits(data: seq<byte>): (s: seq<bool>)
    ensures |s| == 8 * |data|
  {
    if data == [] then [] else ByteBits(data[0]) + Bits(data[1..])
  }

  lemma {:induction false} BitsOfInjective(a: nat, b: nat, len: nat)
    requires a < Pow2(len) && b < Pow2(len)
    requires BitsOf(a, len) == BitsOf(b, len)
    ensures a == b
  {
    if len > 0 {
      var s, t := BitsOf(a, len), BitsOf(b, len);
      assert s[0] == t[0] && s[1..] == BitsOf(a / 2, len - 1) && t[1..] == BitsOf(b / 2, len - 1);
      BitsOfInjective(a / 2, b / 2, len - 1);
    }
  }

  lemma {:induction false} AbsorbIsRun(c: bv32, data: seq<byte>)
    ensures Absorb(c, data) == Run(c, Bits(data))
    decreases |data|
  {
    hide Xor, Shifts, ByteBits, Pack;
    if data != [] {
      var bits := ByteBits(data[0]);
      RunIsPackedShifts(c, bits);
      RunConcat(c, bits, Bits(data[1..]));
      AbsorbIsRun(Run(c, bits), data[1..]);
    }
  }

  lemma {:induction false} BitsInjective(a: seq<byte>, b: seq<byte>)
    requires Bits(a) == Bits(b)
    ensures a == b
    decreases |a|
  {
    hide BitsOf;
    if a != [] && b != [] {
      assert Bits(a)[..8] == ByteBits(a[0]) && Bits(b)[..8] == ByteBits(b[0]);
      assert Bits(a)[8..] == Bits(a[1..]) && Bits(b)[8..] == Bits(b[1..]);
      assert Pow2(8) == 0x100;
      BitsOfInjective(a[0], b[0], 8);
      BitsInjective(a[1..], b[1..]);
    }
  }

  // ----- Every burst of at most 32 bits is detected -----------------------------

  function Zeros(n: nat): (s: seq<bool>)
    ensures |s| == n && forall i :: 0 <= i < n ==> !s[i]
  {
    seq(n, i => false)
  }

  /** Zero bits only shift the register. */
  lemma {:induction false} RunZeros(c: bv32, n: nat)
    ensures Run(c, Zeros(n)) == Shifts(c, n)
    decreases n
  {
    hide Xor, Shift;
    if n > 0 {
      assert Zeros(n)[1..] == Zeros(n - 1);
      XorFacts(c);
      RunZeros(Shift(c), n - 1);
    }
  }

  lemma {:induction false} ZeroStaysZero(n: nat)
    ensures Shifts(0, n) == 0
  {
    if n > 0 { ZeroStaysZero(n - 1); }
  }

  /** A difference pattern confined to 32 positions leaves the register at zero only if it is empty. */
  lemma WindowDetected(d: seq<bool>, w: nat)
    requires forall i :: 0 <= i < |d| && d[i] ==> w <= i < w + 32
    requires Run(0, d) == 0
    ensures forall i :: 0 <= i < |d| ==> !d[i]
  {
    hide Run, Shifts, Xor, Pack;
    var lo := if w <= |d| then w else |d|;
    var hi := if w + 32 <= |d| then w + 32 else |d|;
    var pre, mid, post := d[..lo], d[lo..hi], d[hi..];
    assert d == pre + (mid + post);
    assert pre == Zeros(lo) && post == Zeros(|d| - hi);
    RunConcat(0, pre, mid + post);
    RunConcat(0, mid, post);
    RunZeros(0, lo);
    ZeroStaysZero(lo);
    RunZeros(Run(0, mid), |d| - hi);
    ShiftsInjective(Run(0, mid), |d| - hi);
    RunIsPackedShifts(0, mid);
    XorFacts(Pack(mid));
    ShiftsInjective(Pack(mid), |mid|);
    PackZero(mid);
    forall i | 0 <= i < |d| ensures !d[i] {
      if lo <= i < hi { assert d[i] == mid[i - lo]; }
    }
  }

  lemma LowBitAndRest(c: bv32, d: bv32)
    requires Odd(c) == Odd(d) && Half(c) == Half(d)
    ensures c == d
  {
  }

  lemma HalfBelow(c: bv32, h: bv32)
    requires And(c, Up(h)) == 0
    ensures And(Half(c), h) == 0
  {
  }

  lemma BelowOnes(c: bv32)
    requires And(c, ONES) == 0
    ensures c == 0
  {
  }

  lemma {:induction false} NumberInjective(c: bv32, d: bv32, n: nat)
    requires And(c, High(n)) == 0 && And(d, High(n)) == 0
    requires Number(c, n) == Number(d, n)
    ensures c == d
    decreases n
  {
    hide And, Up, Half, Odd;
    if n == 0 {
      BelowOnes(c);
      BelowOnes(d);
    } else {
      HalfBelow(c, High(n - 1));
      HalfBelow(d, High(n - 1));
      NumberInjective(Half(c), Half(d), n - 1);
      LowBitAndRest(c, d);
    }
  }

  lemma FinalizeInjective(c: bv32, d: bv32)
    requires Finalize(c) == Finalize(d)
    ensures c == d
  {
    hide Xor, Number;
    WordsEqual(Xor(c, ONES), Xor(d, ONES));
    XorOnesInjective(c, d);
  }

  lemma HighOf32()
    ensures High(32) == 0
  {
    HighOf31();
    assert Up(TOP) == 0;
  }

  lemma AndNothing(c: bv32)
    ensures And(c, 0) == 0
  {
  }

  lemma XorOnesInjective(c: bv32, d: bv32)
    requires Xor(c, ONES) == Xor(d, ONES)
    ensures c == d
  {
  }

  /**
   Two different messages of the same length, however long, whose differing bits
   fit in a window of 32 bits have different checksums.
   */
  lemma BurstDetected(a: seq<byte>, b: seq<byte>, w: nat)
    requires |a| == |b| && a != b
    requires forall i :: 0 <= i < 8 * |a| && Bits(a)[i] != Bits(b)[i] ==> w <= i < w + 32
    ensures Checksum(a) != Checksum(b)
  {
    hide Bits, Run, Xor, Absorb, Finalize;
    CollidesIffZero(a, b);
    if Run(0, Difference(a, b)) == 0 { NoDifference(a, b, w); }
  }

  /** A difference within 32 bits that leaves an empty register empty is none. */
  lemma NoDifference(a: seq<byte>, b: seq<byte>, w: nat)
    requires |a| == |b| && Run(0, Difference(a, b)) == 0
    requires forall i :: 0 <= i < 8 * |a| && Bits(a)[i] != Bits(b)[i] ==> w <= i < w + 32
    ensures a == b
  {
    hide Bits, Run;
    var d := Difference(a, b);
    WindowDetected(d, w);
    assert Bits(a) == Bits(b) by {
      forall i | 0 <= i < |d| ensures Bits(a)[i] == Bits(b)[i] { assert !d[i]; }
    }
    BitsInjective(a, b);
  }

  // ----- A message followed by its checksum --------------------------------------------

  lemma {:induction false} BitsConcat(a: seq<byte>, b: seq<byte>)
    ensures Bits(a + b) == Bits(a) + Bits(b)
    decreases |a|
  {
    hide ByteBits;
    if a == [] {
      assert a + b == b;
    } else {
      assert (a + b)[1..] == a[1..] + b;
      BitsConcat(a[1..], b);
    }
  }

  lemma {:induction false} BitsOfConcat(a: nat, b: nat, m: nat, k: nat)
    requires a < Pow2(m)
    ensures BitsOf(a + Pow2(m) * b, m + k) == BitsOf(a, m) + BitsOf(b, k)
    decreases m
  {
    if m > 0 {
      var high := Pow2(m - 1) * b;
      assert Pow2(m) * b == 2 * high;
      assert (a + 2 * high) / 2 == a / 2 + high;
      BitsOfConcat(a / 2, b, m - 1, k);
    }
  }

  lemma BitsOfWord(c: seq<byte>)
    requires |c| == 4
    ensures Bits(c) == BitsOf(U32(c), 32)
  {
    hide ByteBits;
    var low: int := 0x100 * (c[3] as int) + c[2];
    var mid: int := 0x100 * low + c[1];
    ByteThenBits(c[3], 0, 0);
    ByteThenBits(c[2], c[3], 8);
    ByteThenBits(c[1], low, 16);
    ByteThenBits(c[0], mid, 24);
    hide BitsOf;
    assert c[1..][1..] == c[2..] && c[2..][1..] == c[3..] && c[3..][1..] == [];
    assert Bits(c[3..]) == ByteBits(c[3]) + [] == BitsOf(c[3], 8);
    assert Bits(c[2..]) == BitsOf(low, 16);
    assert Bits(c[1..]) == BitsOf(mid, 24);
    assert c[0..] == c;
  }

  lemma ByteThenBits(b: byte, n: nat, k: nat)
    ensures BitsOf(b + 0x100 * n, 8 + k) == ByteBits(b) + BitsOf(n, k)
  {
    hide BitsOf;
    assert Pow2(8) == 0x100;
    BitsOfConcat(b, n, 8, k);
  }

  lemma UnpackLowest(p: bv32, d: bool)
    requires And(p, TOP) == 0
    ensures Odd(Xor(Up(p), Bit(d))) == d && Half(Xor(Up(p), Bit(d))) == p
  {
  }

  lemma {:induction false} NumberOfPack(bits: seq<bool>)
    requires |bits| <= 32
    ensures BitsOf(Number(Pack(bits), |bits|), |bits|) == bits
    decreases |bits|
  {
    hide And, Xor, Up, Bit, Odd, Half;
    if bits != [] {
      PackTopClear(bits[1..]);
      UnpackLowest(Pack(bits[1..]), bits[0]);
      NumberOfPack(bits[1..]);
    }
  }

  /** A word read from flash or the line is the packed one. */
  lemma WordIsPacked(c: seq<byte>)
    requires |c| == 4
    ensures U32(c) == Number(Pack(Bits(c)), 32)
  {
    hide Pack, Number, BitsOf, Bits, U32;
    assert Pow2(8) == 0x100 && Pow2(16) == 0x1_0000 && Pow2(24) == 0x100_0000 && Pow2(32) == 0x1_0000_0000;
    BitsOfWord(c);
    NumberOfPack(Bits(c));
    BitsOfInjective(U32(c), Number(Pack(Bits(c)), 32), 32);
  }

  lemma XorBack(a: bv32, b: bv32)
    ensures Xor(a, Xor(a, b)) == b
  {
    XorAssoc(a, a, b);
    hide Xor;
    XorFacts(a);
    XorFacts(b);
  }

  lemma XorMoves(a: bv32, p: bv32)
    ensures Xor(a, ONES) == p <==> Xor(a, p) == ONES
  {
    hide Xor;
    XorBack(a, ONES);
    XorBack(a, p);
  }

  lemma ShiftsEqual(c: bv32, d: bv32, n: nat)
    ensures Shifts(c, n) == Shifts(d, n) <==> c == d
  {
    hide Shifts, Xor;
    if Shifts(c, n) == Shifts(d, n) {
      ShiftsLinear(c, d, n);
      XorFacts(Shifts(c, n));
      ShiftsInjective(Xor(c, d), n);
      XorZero(c, d);
    }
  }

  /** The last four bytes are the checksum of the ones before them. */
  predicate Sealed(s: seq<byte>)
    requires |s| >= 4
  {
    Checksum(s[..|s| - 4]) == U32(s[|s| - 4..])
  }

  /** A message is followed by its checksum exactly when both together leave a fixed remainder. */
  lemma SealedExactly(s: seq<byte>)
    requires |s| >= 4
    ensures Sealed(s) <==> Run(ONES, Bits(s)) == Shifts(ONES, 32)
  {
    hide Bits, Run, Xor, Absorb, Pack, Number, Shifts, U32, And, High;
    var body, c := s[..|s| - 4], s[|s| - 4..];
    var a, p := Absorb(ONES, body), Pack(Bits(c));
    assert s == body + c;
    BitsConcat(body, c);
    RunConcat(ONES, Bits(body), Bits(c));
    AbsorbIsRun(ONES, body);
    RunIsPackedShifts(a, Bits(c));
    ShiftsEqual(Xor(a, p), ONES, 32);
    XorMoves(a, p);
    WordIsPacked(c);
    if Number(Xor(a, ONES), 32) == Number(p, 32) { WordsEqual(Xor(a, ONES), p); }
  }

  lemma WordsEqual(x: bv32, y: bv32)
    requires Number(x, 32) == Number(y, 32)
    ensures x == y
  {
    HighOf32();
    hide And, High, Number;
    AndNothing(x);
    AndNothing(y);
    NumberInjective(x, y, 32);
  }

  /**
   Whatever damage a sealed message takes, in itself or in its checksum: it passes exactly
   when the damage leaves an empty register empty.
   */
  lemma DamagePassesExactly(s: seq<byte>, r: seq<byte>)
    requires |s| == |r| >= 4 && Sealed(s)
    ensures Sealed(r) <==> Run(0, Difference(r, s)) == 0
  {
    hide Bits, Run, Xor, Sealed, Shifts;
    SealedExactly(s);
    SealedExactly(r);
    RunLinear(ONES, ONES, Bits(r), Bits(s));
    XorFacts(ONES);
    XorFacts(Run(ONES, Bits(r)));
    if Run(0, Difference(r, s)) == 0 { XorZero(Run(ONES, Bits(r)), Run(ONES, Bits(s))); }
  }

  /** So a burst of up to 32 bits is seen wherever it falls, also across the end of the message. */
  lemma SealedBurstDetected(s: seq<byte>, r: seq<byte>, w: nat)
    requires |s| == |r| >= 4 && Sealed(s) && r != s
    requires forall i :: 0 <= i < 8 * |r| && Bits(r)[i] != Bits(s)[i] ==> w <= i < w + 32
    ensures !Sealed(r)
  {
    hide Bits, Run, Sealed;
    DamagePassesExactly(s, r);
    if Run(0, Difference(r, s)) == 0 { NoDifference(r, s, w); }
  }

  // ----- And of the bursts of 33 bits, all but one pattern -----------------------------

  /** Where two messages of the same length differ, bit by bit. */
  function Difference(a: seq<byte>, b: seq<byte>): (d: seq<bool>)
    requires |a| == |b|
    ensures |d| == 8 * |a|
  {
    Xored(Bits(a), Bits(b))
  }

  /** Checksums agree exactly when the difference leaves an empty register empty. */
  lemma CollidesIffZero(a: seq<byte>, b: seq<byte>)
    requires |a| == |b|
    ensures Checksum(a) == Checksum(b) <==> Run(0, Difference(a, b)) == 0
  {
    hide Bits, Run, Xor, Absorb, Finalize;
    AbsorbIsRun(ONES, a);
    AbsorbIsRun(ONES, b);
    RunLinear(ONES, ONES, Bits(a), Bits(b));
    XorFacts(ONES);
    XorFacts(Run(ONES, Bits(a)));
    if Checksum(a) == Checksum(b) { FinalizeInjective(Absorb(ONES, a), Absorb(ONES, b)); }
    if Run(0, Difference(a, b)) == 0 { XorZero(Absorb(ONES, a), Absorb(ONES, b)); }
  }

  /** The 33 positions from `w` on hold the generator, its x^32 term first. */
  predicate GeneratorAt(d: seq<bool>, w: nat) {
    w + 33 <= |d| && d[w] && Pack(d[w + 1..w + 33]) == POLY
  }

  /** A pattern confined to 33 positions empties the register exactly when its tail cancels its first bit. */
  lemma WideWindow(d: seq<bool>, w: nat)
    requires w + 33 <= |d| && forall i :: 0 <= i < |d| && d[i] ==> w <= i < w + 33
    ensures Run(0, d) == 0 <==> Pack(d[w + 1..w + 33]) == if d[w] then POLY else 0
  {
    hide Run, Shifts, Xor, Pack, Bit;
    var mid, post := d[w + 1..w + 33], d[w + 33..];
    var c := if d[w] then POLY else 0;
    assert d == Zeros(w) + ([d[w]] + (mid + post)) && post == Zeros(|post|);
    PatternRun(w, d[w], mid, |post|);
    ShiftsZero(Xor(c, Pack(mid)), 32);
    ShiftsZero(Shifts(Xor(c, Pack(mid)), 32), |post|);
    XorFacts(c);
    if Xor(c, Pack(mid)) == 0 { XorZero(c, Pack(mid)); }
  }

  lemma PatternRun(w: nat, x: bool, mid: seq<bool>, n: nat)
    requires |mid| == 32
    ensures Run(0, Zeros(w) + ([x] + (mid + Zeros(n)))) == Shifts(Shifts(Xor(if x then POLY else 0, Pack(mid)), 32), n)
  {
    OneBit(x);
    hide Run, Shifts, Xor, Pack, Bit;
    var c := if x then POLY else 0;
    RunConcat(0, Zeros(w), [x] + (mid + Zeros(n)));
    RunZeros(0, w);
    ZeroStaysZero(w);
    RunConcat(0, [x], mid + Zeros(n));
    RunConcat(c, mid, Zeros(n));
    RunIsPackedShifts(c, mid);
    RunZeros(Run(c, mid), n);
  }

  lemma ShiftsZero(c: bv32, n: nat)
    ensures Shifts(c, n) == 0 <==> c == 0
  {
    hide Shifts;
    ZeroStaysZero(n);
    if Shifts(c, n) == 0 { ShiftsInjective(c, n); }
  }

  lemma OneBit(x: bool)
    ensures Run(0, [x]) == if x then POLY else 0
  {
    assert Run(0, [x]) == Shift(Xor(0, Bit(x)));
  }

  /**
   Two messages whose differing bits fit in 33 positions have the same checksum exactly
   when they are equal or their difference there is the generator itself.
   */
  lemma GeneratorBurstUndetected(a: seq<byte>, b: seq<byte>, w: nat)
    requires |a| == |b|
    requires forall i :: 0 <= i < 8 * |a| && Bits(a)[i] != Bits(b)[i] ==> w <= i < w + 33
    ensures Checksum(a) == Checksum(b) <==> a == b || GeneratorAt(Difference(a, b), w)
  {
    hide Bits, Run, Checksum, Pack;
    var d := Difference(a, b);
    CollidesIffZero(a, b);
    if w + 33 <= |d| {
      WideWindow(d, w);
      if !d[w] && a != b { BurstDetected(a, b, w + 1); }
      if d[w] { assert a != b; }
    } else if a != b {
      BurstDetected(a, b, w);
    }
  }

  /** Such a pair: five zero bytes and the generator written out, lowest bit first. */
  lemma CollidingPair()
    ensures Checksum([0, 0, 0, 0, 0]) == Checksum([0x41, 0x06, 0x71, 0xDB, 0x01])
  {
    hide Bits, Run, Absorb, Checksum, Xored;
    var data: seq<byte> := [0x41, 0x06, 0x71, 0xDB, 0x01];
    CollidesIffZero([0, 0, 0, 0, 0], data);
    AgainstZeros([0, 0, 0, 0, 0], data);
    AbsorbIsRun(0, data);
    GeneratorAbsorbed();
  }

  lemma {:induction false} AgainstZeros(zeros: seq<byte>, b: seq<byte>)
    requires |zeros| == |b| && forall i :: 0 <= i < |b| ==> zeros[i] == 0
    ensures Difference(zeros, b) == Bits(b)
    decreases |b|
  {
    if b != [] {
      assert ByteBits(0) == Zeros(8);
      AgainstZeros(zeros[1..], b[1..]);
      hide ByteBits;
      assert Difference(zeros, b) == Xored(ByteBits(0), ByteBits(b[0])) + Difference(zeros[1..], b[1..]);
    }
  }

  lemma GeneratorAbsorbed()
    ensures Absorb(0, [0x41, 0x06, 0x71, 0xDB, 0x01]) == 0
  {
    GeneratorWords();
    GeneratorShifts();
    hide Xor, Shifts, Word;
    assert Absorb(0, [0x41, 0x06, 0x71, 0xDB, 0x01]) == Absorb(0x1DB_7106, [0x06, 0x71, 0xDB, 0x01]);
    assert Absorb(0x1DB_7106, [0x06, 0x71, 0xDB, 0x01]) == Absorb(0x1_DB71, [0x71, 0xDB, 0x01]);
    assert Absorb(0x1_DB71, [0x71, 0xDB, 0x01]) == Absorb(0x1DB, [0xDB, 0x01]);
    assert Absorb(0x1DB, [0xDB, 0x01]) == Absorb(0x1, [0x01]) == Absorb(0, []);
  }

  lemma GeneratorWords()
    ensures Xor(0, Word(0x41)) == 0x41 && Xor(0x1DB_7106, Word(0x06)) == 0x1DB_7100
    ensures Xor(0x1_DB71, Word(0x71)) == 0x1_DB00 && Xor(0x1DB, Word(0xDB)) == 0x100 && Xor(1, Word(0x01)) == 0
  {
    Word41();
    Word06();
    Word71();
    WordDB();
    Word01();
    hide Word;
  }

  /** Peeling the lowest bit off a number. */
  lemma HighBits(n: nat, len: nat)
    requires len > 0
    ensures Pack(BitsOf(n, len)) == Xor(Up(Pack(BitsOf(n / 2, len - 1))), Bit(n % 2 == 1))
  {
    hide Xor, Up, Bit;
    assert BitsOf(n, len)[1..] == BitsOf(n / 2, len - 1);
  }

  lemma {:induction false} NoBits(len: nat)
    ensures Pack(BitsOf(0, len)) == 0
  {
    if len > 0 {
      NoBits(len - 1);
      HighBits(0, len);
    }
  }

  lemma Word41()
    ensures Word(0x41) == 0x41
  {
    hide Pack, BitsOf;
    NoBits(1);
    HighBits(0x01, 2);
    HighBits(0x02, 3);
    HighBits(0x04, 4);
    HighBits(0x08, 5);
    HighBits(0x10, 6);
    HighBits(0x20, 7);
    HighBits(0x41, 8);
  }

  lemma Word06()
    ensures Word(0x06) == 0x06
  {
    hide Pack, BitsOf;
    NoBits(5);
    HighBits(0x01, 6);
    HighBits(0x03, 7);
    HighBits(0x06, 8);
  }

  lemma Word71()
    ensures Word(0x71) == 0x71
  {
    hide Pack, BitsOf;
    NoBits(1);
    HighBits(0x01, 2);
    HighBits(0x03, 3);
    HighBits(0x07, 4);
    HighBits(0x0E, 5);
    HighBits(0x1C, 6);
    HighBits(0x38, 7);
    HighBits(0x71, 8);
  }

  lemma WordDB()
    ensures Word(0xDB) == 0xDB
  {
    hide Pack, BitsOf;
    NoBits(0);
    HighBits(0x01, 1);
    HighBits(0x03, 2);
    HighBits(0x06, 3);
    HighBits(0x0D, 4);
    HighBits(0x1B, 5);
    HighBits(0x36, 6);
    HighBits(0x6D, 7);
    HighBits(0xDB, 8);
  }

  lemma Word01()
    ensures Word(0x01) == 0x01
  {
    hide Pack, BitsOf;
    NoBits(7);
    HighBits(0x01, 8);
  }

  lemma GeneratorShifts()
    ensures Shifts(0x41, 8) == 0x1DB_7106 && Shifts(0x1DB_7100, 8) == 0x1_DB71 && Shifts(0x1_DB00, 8) == 0x1DB
    ensures Shifts(0x100, 8) == 1 && Shifts(0, 8) == 0
  {
  }

  // ----- The polynomial remainder -----------------------------------------------

  /** x^k with k below 32: a word holds the coefficient of x^k in bit 31 - k. */
  function Power(k: nat): bv32
    requires k < 32
    decreases 31 - k
  {
    if k == 31 then 1 else Up(Power(k + 1))
  }

  /** POLY holds the generator of the standard; its x^32 term is implicit. */
  lemma GeneratorTerms()
    ensures POLY == Power(26) | Power(23) | Power(22) | Power(16) | Power(12) | Power(11) | Power(10)
                  | Power(8) | Power(7) | Power(5) | Power(4) | Power(2) | Power(1) | Power(0)
  {
    assert Power(26) == 0x20 && Power(23) == 0x100 && Power(22) == 0x200 && Power(16) == 0x8000;
    assert Power(12) == 0x8_0000 && Power(11) == 0x10_0000 && Power(10) == 0x20_0000;
    assert Power(8) == 0x80_0000 && Power(7) == 0x100_0000 && Power(5) == 0x400_0000;
    assert Power(4) == 0x800_0000 && Power(2) == 0x2000_0000 && Power(1) == 0x4000_0000;
    assert Power(0) == 0x8000_0000;
  }

  /** The coefficient d of x^0. */
  function Constant(d: bool): bv32 { if d then TOP else 0 }

  /**
   Horner's rule modulo the generator: the residue of a polynomial given by its
   coefficients, highest degree first. In this bit order Shift multiplies by x.
   */
  function Residue(r: bv32, coefficients: seq<bool>): bv32
    decreases |coefficients|
  {
    if coefficients == [] then r
    else Residue(Next(r, coefficients[0]), coefficients[1..])
  }

  /** Multiplied by x, plus one more coefficient. */
  function Next(r: bv32, d: bool): bv32 { Xor(Shift(r), Constant(d)) }

  lemma {:induction false} ShiftsLinear(a: bv32, b: bv32, n: nat)
    ensures Shifts(Xor(a, b), n) == Xor(Shifts(a, n), Shifts(b, n))
    decreases n
  {
    hide Xor, Shift;
    if n > 0 {
      ShiftLinear(a, b);
      ShiftsLinear(Shift(a), Shift(b), n - 1);
    }
  }

  lemma {:induction false} ShiftsNext(r: bv32, n: nat)
    ensures Shifts(Shift(r), n) == Shift(Shifts(r, n))
    decreases n
  {
    hide Shift;
    if n > 0 { ShiftsNext(Shift(r), n - 1); }
  }

  lemma {:induction false} ShiftsAdd(r: bv32, m: nat, n: nat)
    ensures Shifts(Shifts(r, m), n) == Shifts(r, m + n)
    decreases m
  {
    hide Shift;
    if m > 0 { ShiftsAdd(Shift(r), m - 1, n); }
  }

  lemma {:induction false} PowerBelow(k: nat)
    requires k < 32
    ensures And(Power(k), High(32 - k)) == 0
    decreases 31 - k
  {
    if k == 31 {
      assert High(1) == 0xFFFF_FFFE;
    } else {
      hide And, Up;
      PowerBelow(k + 1);
      AndUp(Power(k + 1), High(31 - k));
    }
  }

  lemma AndUp(p: bv32, h: bv32)
    requires And(p, h) == 0
    ensures And(Up(p), Up(h)) == 0
  {
  }

  lemma ShiftPower(k: nat)
    requires 0 < k < 32
    ensures Shift(Power(k - 1)) == Power(k)
  {
    hide Shift, Up, And;
    PowerBelow(k);
    HighKeepsTop(32 - k);
    TopClear(Power(k), High(32 - k));
    EvenShift(Power(k));
  }

  /** Multiplying x^k by x moves one power up, until x^32 becomes the generator's lower terms. */
  lemma {:induction false} ShiftsPower(k: nat)
    requires k < 32
    ensures Shifts(Power(0), k) == Power(k)
  {
    hide Shift, Up;
    if k > 0 {
      ShiftsPower(k - 1);
      ShiftPower(k);
      ShiftsNext(Power(0), k - 1);
    }
  }

  lemma XTo32(d: bool)
    ensures Shifts(Constant(d), 32) == Shift(Bit(d))
  {
    if d {
      GeneratorTerms();
      hide Shift;
      ShiftsPower(31);
      ShiftsNext(TOP, 31);
      assert Power(0) == TOP && Power(31) == Bit(true);
    } else {
      ZeroStaysZero(32);
    }
  }

  /** One step of the register is one more coefficient of the message, multiplied by x^32. */
  lemma RegisterStep(r: bv32, d: bool)
    ensures Shift(Xor(Shifts(r, 32), Bit(d))) == Shifts(Xor(Shift(r), Constant(d)), 32)
  {
    hide Xor, Shifts, Shift, Bit, Constant;
    XTo32(d);
    ShiftsLinear(Shift(r), Constant(d), 32);
    ShiftsNext(r, 32);
    ShiftLinear(Shifts(r, 32), Bit(d));
  }

  lemma {:induction false} RunIsResidue(r: bv32, bits: seq<bool>)
    ensures Run(Shifts(r, 32), bits) == Shifts(Residue(r, bits), 32)
    decreases |bits|
  {
    hide Xor, Shifts, Shift, Bit, Constant;
    if bits != [] {
      RegisterStep(r, bits[0]);
      RunIsResidue(Xor(Shift(r), Constant(bits[0])), bits[1..]);
    }
  }

  lemma {:induction false} ResidueZeros(r: bv32, n: nat)
    ensures Residue(r, Zeros(n)) == Shifts(r, n)
    decreases n
  {
    hide Xor, Shift;
    if n > 0 {
      assert Zeros(n)[1..] == Zeros(n - 1);
      XorFacts(Shift(r));
      ResidueZeros(Shift(r), n - 1);
    }
  }

  lemma {:induction false} ResidueConcat(r: bv32, a: seq<bool>, b: seq<bool>)
    ensures Residue(r, a + b) == Residue(Residue(r, a), b)
    decreases |a|
  {
    hide Xor, Shift, Constant;
    if a == [] {
      assert a + b == b;
    } else {
      assert (a + b)[1..] == a[1..] + b;
      ResidueConcat(Xor(Shift(r), Constant(a[0])), a[1..], b);
    }
  }

  lemma ConstantXor(x: bool, y: bool)
    ensures Constant(x != y) == Xor(Constant(x), Constant(y))
  {
  }

  lemma {:induction false} ResidueLinear(r: bv32, q: bv32, a: seq<bool>, b: seq<bool>)
    requires |a| == |b|
    ensures Xor(Residue(r, a), Residue(q, b)) == Residue(Xor(r, q), Xored(a, b))
    decreases |a|
  {
    hide Residue, Xor, Next;
    ResidueStep(r, a);
    ResidueStep(q, b);
    ResidueStep(Xor(r, q), Xored(a, b));
    if a != [] {
      XoredTail(a, b);
      NextLinear(r, q, a[0], b[0]);
      ResidueLinear(Next(r, a[0]), Next(q, b[0]), a[1..], b[1..]);
    }
  }

  /** One step of Horner's rule is linear. */
  lemma NextLinear(r: bv32, q: bv32, x: bool, y: bool)
    ensures Xor(Next(r, x), Next(q, y)) == Next(Xor(r, q), x != y)
  {
    hide Xor, Shift, Constant;
    ConstantXor(x, y);
    XorSwap(Shift(r), Shift(q), Constant(x), Constant(y));
    ShiftLinear(r, q);
  }

  lemma XoredTail(a: seq<bool>, b: seq<bool>)
    requires |a| == |b| && a != []
    ensures Xored(a, b)[0] == (a[0] != b[0]) && Xored(a, b)[1..] == Xored(a[1..], b[1..])
  {
  }

  lemma ResidueStep(r: bv32, a: seq<bool>)
    ensures Residue(r, a) == if a == [] then r else Residue(Next(r, a[0]), a[1..])
  {
    hide Next;
  }

  function AllOnes(n: nat): (s: seq<bool>)
    ensures |s| == n && forall i :: 0 <= i < n ==> s[i]
  {
    seq(n, i => true)
  }

  lemma UpThenShift(h: bv32)
    requires And(h, TOP) == TOP
    ensures Xor(Shift(Up(h)), TOP) == h
  {
  }

  /** x^(n-1) + ... + x + 1 is its own residue for n <= 32. */
  lemma {:induction false} ResidueOfOnes(n: nat)
    requires n <= 32
    ensures Residue(0, AllOnes(n)) == High(32 - n)
    decreases n
  {
    if n == 0 {
      HighOf31();
      assert Up(TOP) == 0;
    } else {
      hide Shift, Xor, Up, And;
      ResidueOfOnes(n - 1);
      assert AllOnes(n) == AllOnes(n - 1) + [true];
      ResidueConcat(0, AllOnes(n - 1), [true]);
      HighKeepsTop(32 - n);
      UpThenShift(High(32 - n));
    }
  }

  /** The message polynomial times x^32, with its 32 leading coefficients complemented. */
  function Dividend(bits: seq<bool>): seq<bool> {
    Xored(AllOnes(32) + Zeros(|bits|), bits + Zeros(32))
  }

  /**
   The register the bootloader ends with is the remainder the standard defines:
   the message polynomial with its leading 32 bits complemented, times x^32,
   modulo the generator. It holds for messages of every length.
   */
  lemma ChecksumIsPolynomialRemainder(data: seq<byte>)
    ensures Checksum(data) == Finalize(Residue(0, Dividend(Bits(data))))
  {
    hide Absorb, Bits, Run, Residue, Shifts, Xor, Finalize;
    var bits := Bits(data);
    var n := |bits|;
    var ones, message := AllOnes(32) + Zeros(n), bits + Zeros(32);
    AbsorbIsRun(ONES, data);
    RunLinear(ONES, 0, Zeros(n), bits);
    XorFacts(ONES);
    assert Xored(Zeros(n), bits) == bits;
    assert Run(ONES, Zeros(n)) == Residue(0, ones) by {
      RunZeros(ONES, n);
      ResidueZeros(ONES, n);
      ResidueOfOnes(32);
      ResidueConcat(0, AllOnes(32), Zeros(n));
    }
    assert Run(0, bits) == Residue(0, message) by {
      ZeroStaysZero(32);
      RunIsResidue(0, bits);
      ResidueZeros(Residue(0, bits), 32);
      ResidueConcat(0, bits, Zeros(32));
    }
    ResidueLinear(0, 0, ones, message);
    XorFacts(0);
  }
}
