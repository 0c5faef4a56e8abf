/**
 The canonical low-S rule of a P-256 signature r || s, both 32 bytes big-endian:
 the device's byte-wise borrow chain and the signing tool's normalisation.
 */
module LowS {
  import opened Bytes

  /** The order n of the P-256 group. */
  const ORDER: nat := 0xFFFFFFFF_00000000_FFFFFFFF_FFFFFFFF_BCE6FAAD_A7179E84_F3B9CAC2_FC632551

  /** n / 2 as the device stores it. */
  const HALF_ORDER: seq<byte> := [
    0x7F, 0xFF, 0xFF, 0xFF, 0x80, 0x00, 0x00, 0x00, 0x7F, 0xFF, 0xFF, 0xFF, 0xFF, 0xFF, 0xFF, 0xFF,
    0xDE, 0x73, 0x7D, 0x56, 0xD3, 0x8B, 0xCF, 0x42, 0x79, 0xDC, 0xE5, 0x61, 0x7E, 0x31, 0x92, 0xA8
  ]

  /** What the device accepts: both halves positive, s at most n / 2. */
  predicate Canonical(sig: seq<byte>)
    requires |sig| == 64
  {
    0 < BigEndian(sig[..32]) && 0 < BigEndian(sig[32..]) <= ORDER / 2
  }

  lemma {:induction false} BigEndianBelow(s: seq<byte>)
    ensures BigEndian(s) < Pow256(|s|)
    decreases |s|
  {
    if s != [] {
      BigEndianBelow(s[..|s| - 1]);
    }
  }

  lemma {:induction false} BigEndianConcat(a: seq<byte>, b: seq<byte>)
    ensures BigEndian(a + b) == BigEndian(a) * Pow256(|b|) + BigEndian(b)
    decreases |b|
  {
    if b == [] {
      assert a + b == a;
    } else {
      var b', x := b[..|b| - 1], b[|b| - 1];
      assert (a + b)[..|a + b| - 1] == a + b';
      BigEndianConcat(a, b');
      Distribute(BigEndian(a), Pow256(|b'|), BigEndian(b'), x);
    }
  }

  lemma Distribute(n: nat, p: nat, m: nat, x: nat)
    ensures 0x100 * (n * p + m) + x == n * (0x100 * p) + (0x100 * m + x)
  {
  }

  lemma {:induction false} BigEndianZero(s: seq<byte>)
    ensures BigEndian(s) == 0 <==> forall i :: 0 <= i < |s| ==> s[i] == 0
    decreases |s|
  {
    if s != [] {
      var t := s[..|s| - 1];
      BigEndianZero(t);
      if forall i :: 0 <= i < |s| ==> s[i] == 0 {
        forall i | 0 <= i < |t| ensures t[i] == 0 { assert t[i] == s[i]; }
      } else if s[|s| - 1] == 0 {
        var i :| 0 <= i < |s| && s[i] != 0;
        assert t[i] != 0;
      }
    }
  }

  lemma FourOctets(a: byte, b: byte, c: byte, d: byte)
    ensures BigEndian([a, b, c, d]) == 0x100 * (0x100 * (0x100 * (a as int) + b) + c) + d
  {
    assert [a, b, c, d][..3] == [a, b, c] && [a, b, c][..2] == [a, b] && [a, b][..1] == [a] && [a][..0] == [];
    assert BigEndian([a]) == a && BigEndian([a, b]) == 0x100 * BigEndian([a]) + b;
    assert BigEndian([a, b, c]) == 0x100 * BigEndian([a, b]) + c;
  }

  /** Appending four octets with value `low`. */
  lemma AppendFour(s: seq<byte>, t: seq<byte>, high: nat, low: nat)
    requires BigEndian(s) == high && |t| == 4 && BigEndian(t) == low
    ensures BigEndian(s + t) == high * 0x1_0000_0000 + low
  {
    assert Pow256(4) == 0x1_0000_0000;
    BigEndianConcat(s, t);
  }

  lemma UpperHalf()
    ensures BigEndian([0x7F, 0xFF, 0xFF, 0xFF] + [0x80, 0x00, 0x00, 0x00] + [0x7F, 0xFF, 0xFF, 0xFF]
                      + [0xFF, 0xFF, 0xFF, 0xFF]) == 0x7FFF_FFFF_8000_0000_7FFF_FFFF_FFFF_FFFF
  {
    var a, b, c: seq<byte> := [0x7F, 0xFF, 0xFF, 0xFF], [0x80, 0x00, 0x00, 0x00], [0xFF, 0xFF, 0xFF, 0xFF];
    FourOctets(0x7F, 0xFF, 0xFF, 0xFF);
    FourOctets(0x80, 0x00, 0x00, 0x00);
    FourOctets(0xFF, 0xFF, 0xFF, 0xFF);
    hide BigEndian;
    AppendFour(a, b, 0x7FFF_FFFF, 0x8000_0000);
    AppendFour(a + b, a, 0x7FFF_FFFF_8000_0000, 0x7FFF_FFFF);
    AppendFour(a + b + a, c, 0x7FFF_FFFF_8000_0000_7FFF_FFFF, 0xFFFF_FFFF);
  }

  lemma LowerHalf(s: seq<byte>, high: nat)
    requires BigEndian(s) == high
    ensures BigEndian(s + [0xDE, 0x73, 0x7D, 0x56] + [0xD3, 0x8B, 0xCF, 0x42] + [0x79, 0xDC, 0xE5, 0x61]
                      + [0x7E, 0x31, 0x92, 0xA8])
         == high * 0x1_0000_0000_0000_0000_0000_0000_0000_0000 + 0xDE73_7D56_D38B_CF42_79DC_E561_7E31_92A8
  {
    var d, e: seq<byte> := [0xDE, 0x73, 0x7D, 0x56], [0xD3, 0x8B, 0xCF, 0x42];
    var f, g: seq<byte> := [0x79, 0xDC, 0xE5, 0x61], [0x7E, 0x31, 0x92, 0xA8];
    FourOctets(0xDE, 0x73, 0x7D, 0x56);
    FourOctets(0xD3, 0x8B, 0xCF, 0x42);
    FourOctets(0x79, 0xDC, 0xE5, 0x61);
    FourOctets(0x7E, 0x31, 0x92, 0xA8);
    hide BigEndian;
    AppendFour(s, d, high, 0xDE73_7D56);
    AppendFour(s + d, e, BigEndian(s + d), 0xD38B_CF42);
    AppendFour(s + d + e, f, BigEndian(s + d + e), 0x79DC_E561);
    AppendFour(s + d + e + f, g, BigEndian(s + d + e + f), 0x7E31_92A8);
  }

  lemma HalfOrderWords()
    ensures HALF_ORDER == [0x7F, 0xFF, 0xFF, 0xFF] + [0x80, 0x00, 0x00, 0x00] + [0x7F, 0xFF, 0xFF, 0xFF]
      + [0xFF, 0xFF, 0xFF, 0xFF] + [0xDE, 0x73, 0x7D, 0x56] + [0xD3, 0x8B, 0xCF, 0x42]
      + [0x79, 0xDC, 0xE5, 0x61] + [0x7E, 0x31, 0x92, 0xA8]
  {
  }

  /** The stored constant is the half order. */
  lemma HalfOrderValue()
    ensures BigEndian(HALF_ORDER) == ORDER / 2
  {
    hide BigEndian;
    HalfOrderWords();
    UpperHalf();
    LowerHalf([0x7F, 0xFF, 0xFF, 0xFF] + [0x80, 0x00, 0x00, 0x00] + [0x7F, 0xFF, 0xFF, 0xFF]
              + [0xFF, 0xFF, 0xFF, 0xFF], 0x7FFF_FFFF_8000_0000_7FFF_FFFF_FFFF_FFFF);
  }

  /** The borrow of the octets from `i` on. */
  function BorrowOf(a: seq<byte>, b: seq<byte>, i: nat): int
    requires i <= |a| == |b|
  {
    if BigEndian(a[i..]) < BigEndian(b[i..]) then 1 else 0
  }

  lemma BorrowEnds(a: seq<byte>, b: seq<byte>)
    requires |a| == |b|
    ensures BorrowOf(a, b, |a|) == 0
    ensures BorrowOf(a, b, 0) == if BigEndian(a) < BigEndian(b) then 1 else 0
  {
    assert a[|a|..] == [] && b[|b|..] == [] && a[0..] == a && b[0..] == b;
  }

  /** One step of the borrow chain compares one more leading octet. */
  lemma BorrowStep(a: seq<byte>, b: seq<byte>, i: nat)
    requires |a| == |b| && i < |a|
    ensures a[i] as int - b[i] as int - BorrowOf(a, b, i + 1) < 0 <==> BorrowOf(a, b, i) == 1
    ensures 0 <= BorrowOf(a, b, i) <= 1
  {
    var u, v := a[i + 1..], b[i + 1..];
    assert a[i..] == [a[i]] + u && b[i..] == [b[i]] + v;
    BigEndianConcat([a[i]], u);
    BigEndianConcat([b[i]], v);
    assert BigEndian([a[i]]) == a[i] && BigEndian([b[i]]) == b[i];
    BigEndianBelow(u);
    BigEndianBelow(v);
    LeadingOctet(a[i], b[i], Pow256(|u|), BigEndian(u), BigEndian(v));
  }

  lemma LeadingOctet(x: nat, y: nat, p: nat, u: nat, v: nat)
    requires u < p && v < p
    ensures x * p + u < y * p + v <==> x < y || (x == y && u < v)
  {
    if x < y { assert (x + 1) * p <= y * p; }
    if y < x { assert (y + 1) * p <= x * p; }
  }

  /** The canonical range in the terms the loops compute. */
  lemma CanonicalParts(sig: seq<byte>)
    requires |sig| == 64
    ensures Canonical(sig) <==>
      && BigEndian(sig[..32]) != 0 && BigEndian(sig[32..]) != 0
      && !(BigEndian(HALF_ORDER) < BigEndian(sig[32..]))
  {
    HalfOrderValue();
    hide BigEndian;
  }

  /** is_canonical_low_s: zero tests and the borrow of n / 2 - s. */
  method IsCanonicalLowS(sig: seq<byte>) returns (ok: bool)
    requires |sig| == 64
    ensures ok <==> Canonical(sig)
  {
    hide BigEndian, Pow256, Canonical;
    var r, s := sig[..32], sig[32..];
    CanonicalParts(sig);
    // The OR of all octets of each half, as "some octet is not zero".
    var rAny, sAny := false, false;
    var i := 0;
    while i < 32
      invariant 0 <= i <= 32
      invariant rAny <==> exists j :: 0 <= j < i && r[j] != 0
      invariant sAny <==> exists j :: 0 <= j < i && s[j] != 0
    {
      rAny, sAny := rAny || r[i] != 0, sAny || s[i] != 0;
      i := i + 1;
    }
    BigEndianZero(r);
    BigEndianZero(s);
    if !rAny || !sAny {
      return false;
    }
    var borrow := Borrow(HALF_ORDER, s);
    ok := borrow == 0;
  }

  /** The borrow of a - b, from the last octet to the first. */
  method Borrow(a: seq<byte>, b: seq<byte>) returns (borrow: int)
    requires |a| == |b|
    ensures borrow == if BigEndian(a) < BigEndian(b) then 1 else 0
  {
    hide BigEndian, BorrowOf;
    borrow := 0;
    BorrowEnds(a, b);
    var i := |a| - 1;
    while i >= 0
      invariant -1 <= i < |a|
      invariant borrow == BorrowOf(a, b, i + 1)
    {
      var diff := a[i] as int - b[i] as int - borrow;
      BorrowStep(a, b, i);
      borrow := if diff < 0 then 1 else 0;
      i := i - 1;
    }
  }

  /** sigencode_canonical. */
  function Encode(r: nat, s: nat): (sig: seq<byte>)
    requires s < ORDER
    ensures |sig| == 64
  {
    ToBigEndian(r, 32) + ToBigEndian(if s > ORDER / 2 then ORDER - s else s, 32)
  }

  /** Every signature the tool encodes is canonical and denotes r and one of s, n - s. */
  lemma EncodedIsCanonical(r: nat, s: nat)
    requires 0 < r < ORDER && 0 < s < ORDER
    ensures Canonical(Encode(r, s))
    ensures BigEndian(Encode(r, s)[..32]) == r
    ensures BigEndian(Encode(r, s)[32..]) == s || BigEndian(Encode(r, s)[32..]) == ORDER - s
  {
    var sig := Encode(r, s);
    var low := if s > ORDER / 2 then ORDER - s else s;
    OrderForm();
    BigEndianRoundTrip(r, 32);
    BigEndianRoundTrip(low, 32);
    assert sig[..32] == ToBigEndian(r, 32) && sig[32..] == ToBigEndian(low, 32);
  }

  /** The order of P-256, by the powers of two it is close to. */
  lemma OrderForm()
    ensures ORDER == Pow256(32) - Pow256(28) + Pow256(24) - 0x4319_0552_58E8_617B_0C46_353D_039C_DAAF
    ensures ORDER < Pow256(32)
  {
    assert Pow256(8) == 0x1_0000_0000_0000_0000;
    assert Pow256(16) == 0x1_0000_0000_0000_0000_0000_0000_0000_0000;
    assert Pow256(24) == 0x1_0000_0000_0000_0000_0000_0000_0000_0000_0000_0000_0000_0000;
    assert Pow256(28) == 0x1_0000_0000_0000_0000_0000_0000_0000_0000_0000_0000_0000_0000_0000_0000;
    assert Pow256(32) == 0x1_0000_0000_0000_0000_0000_0000_0000_0000_0000_0000_0000_0000_0000_0000_0000_0000;
  }
}
