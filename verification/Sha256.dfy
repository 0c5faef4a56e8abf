/**
 Streaming SHA-256. The specification follows FIPS 180-4: the functions of section
 4.1.2, the constants of 4.2.2, the padding of 5.1.1, the initial value of 5.3.3 and
 the hash computation of 6.2.2. The context buffers one block; however the message
 is split into updates, the digest is the one of the whole message.
 */
module Sha256 {
  import opened Bytes

  const K0: seq<bv32> := [
    0x428a_2f98, 0x7137_4491, 0xb5c0_fbcf, 0xe9b5_dba5, 0x3956_c25b, 0x59f1_11f1, 0x923f_82a4, 0xab1c_5ed5,
    0xd807_aa98, 0x1283_5b01, 0x2431_85be, 0x550c_7dc3, 0x72be_5d74, 0x80de_b1fe, 0x9bdc_06a7, 0xc19b_f174
  ]

  const K16: seq<bv32> := [
    0xe49b_69c1, 0xefbe_4786, 0x0fc1_9dc6, 0x240c_a1cc, 0x2de9_2c6f, 0x4a74_84aa, 0x5cb0_a9dc, 0x76f9_88da,
    0x983e_5152, 0xa831_c66d, 0xb003_27c8, 0xbf59_7fc7, 0xc6e0_0bf3, 0xd5a7_9147, 0x06ca_6351, 0x1429_2967
  ]

  const K32: seq<bv32> := [
    0x27b7_0a85, 0x2e1b_2138, 0x4d2c_6dfc, 0x5338_0d13, 0x650a_7354, 0x766a_0abb, 0x81c2_c92e, 0x9272_2c85,
    0xa2bf_e8a1, 0xa81a_664b, 0xc24b_8b70, 0xc76c_51a3, 0xd192_e819, 0xd699_0624, 0xf40e_3585, 0x106a_a070
  ]

  const K48: seq<bv32> := [
    0x19a4_c116, 0x1e37_6c08, 0x2748_774c, 0x34b0_bcb5, 0x391c_0cb3, 0x4ed8_aa4a, 0x5b9c_ca4f, 0x682e_6ff3,
    0x748f_82ee, 0x78a5_636f, 0x84c8_7814, 0x8cc7_0208, 0x90be_fffa, 0xa450_6ceb, 0xbef9_a3f7, 0xc671_78f2
  ]

  const K: seq<bv32> := K0 + K16 + K32 + K48

  /** The working variables, and likewise the eight words of a hash value. */
  datatype Vars = Vars(a: bv32, b: bv32, c: bv32, d: bv32, e: bv32, f: bv32, g: bv32, h: bv32)

  const H0 := Vars(0x6a09_e667, 0xbb67_ae85, 0x3c6e_f372, 0xa54f_f53a,
                   0x510e_527f, 0x9b05_688c, 0x1f83_d9ab, 0x5be0_cd19)

  function Ch(x: bv32, y: bv32, z: bv32): bv32 { (x & y) ^ (!x & z) }

  function Maj(x: bv32, y: bv32, z: bv32): bv32 { ((x & y) ^ (x & z)) ^ (y & z) }

  function BigSigma0(x: bv32): bv32 {
    (((x >> 2) | (x << 30)) ^ ((x >> 13) | (x << 19))) ^ ((x >> 22) | (x << 10))
  }

  function BigSigma1(x: bv32): bv32 {
    (((x >> 6) | (x << 26)) ^ ((x >> 11) | (x << 21))) ^ ((x >> 25) | (x << 7))
  }

  function SmallSigma0(x: bv32): bv32 {
    (((x >> 7) | (x << 25)) ^ ((x >> 18) | (x << 14))) ^ (x >> 3)
  }

  function SmallSigma1(x: bv32): bv32 {
    (((x >> 17) | (x << 15)) ^ ((x >> 19) | (x << 13))) ^ (x >> 10)
  }

  function Add(x: bv32, y: bv32): bv32 { x + y }

  /** Four bytes as a big-endian word. */
  function Word(b0: byte, b1: byte, b2: byte, b3: byte): bv32 {
    (((b0 as bv32) << 24) | ((b1 as bv32) << 16)) | (((b2 as bv32) << 8) | (b3 as bv32))
  }

  /** The message schedule W_t of a block. */
  function Schedule(block: seq<byte>, t: nat): bv32
    requires |block| == 64 && t < 64
  {
    if t < 16 then Word(block[4 * t], block[4 * t + 1], block[4 * t + 2], block[4 * t + 3])
    else Add(Add(Add(SmallSigma1(Schedule(block, t - 2)), Schedule(block, t - 7)),
                 SmallSigma0(Schedule(block, t - 15))), Schedule(block, t - 16))
  }

  lemma ScheduleStep(block: seq<byte>, t: nat)
    requires |block| == 64 && 16 <= t < 64
    ensures Schedule(block, t) == Add(Add(Add(SmallSigma1(Schedule(block, t - 2)), Schedule(block, t - 7)),
                                          SmallSigma0(Schedule(block, t - 15))), Schedule(block, t - 16))
  {
    hide Word, Add, SmallSigma0, SmallSigma1;
  }

  function Round(v: Vars, k: bv32, w: bv32): Vars {
    var t1 := Add(Add(Add(Add(v.h, BigSigma1(v.e)), Ch(v.e, v.f, v.g)), k), w);
    var t2 := Add(BigSigma0(v.a), Maj(v.a, v.b, v.c));
    Vars(Add(t1, t2), v.a, v.b, v.c, Add(v.d, t1), v.e, v.f, v.g)
  }

  function Rounds(v: Vars, block: seq<byte>, n: nat): Vars
    requires |block| == 64 && n <= 64
    decreases n
  {
    if n == 0 then v else Round(Rounds(v, block, n - 1), K[n - 1], Schedule(block, n - 1))
  }

  function Compress(v: Vars, block: seq<byte>): Vars
    requires |block| == 64
  {
    var r := Rounds(v, block, 64);
    Vars(Add(v.a, r.a), Add(v.b, r.b), Add(v.c, r.c), Add(v.d, r.d),
         Add(v.e, r.e), Add(v.f, r.f), Add(v.g, r.g), Add(v.h, r.h))
  }

  function Blocks(v: Vars, m: seq<byte>): Vars
    requires |m| % 64 == 0
    decreases |m|
  {
    if m == [] then v else Blocks(Compress(v, m[..64]), m[64..])
  }

  /** The least number of zero bytes that makes room for the length at the end of a block. */
  function ZeroBytes(n: nat): (z: nat)
    ensures z < 64 && (n + z + 9) % 64 == 0
  {
    (119 - n % 64) % 64
  }

  function Pad(m: seq<byte>): (p: seq<byte>)
    ensures |p| % 64 == 0 && |m| + 9 <= |p| < |m| + 9 + 64
  {
    m + [0x80] + Fill(ZeroBytes(|m|), 0) + ToBigEndian(8 * |m|, 8)
  }

  function OctetAt(w: bv32, k: nat): byte
    requires k <= 24
  {
    (((w >> k) & 0xFF) as bv8) as int
  }

  function WordOctets(w: bv32): (s: seq<byte>)
    ensures |s| == 4
  {
    [OctetAt(w, 24), OctetAt(w, 16), OctetAt(w, 8), OctetAt(w, 0)]
  }

  /** Words as octets, each word big-endian. */
  function Octets(h: seq<bv32>): (s: seq<byte>)
    ensures |s| == 4 * |h|
  {
    if h == [] then [] else WordOctets(h[0]) + Octets(h[1..])
  }

  function Digest(v: Vars): (s: seq<byte>)
    ensures |s| == 32
  {
    Octets([v.a, v.b, v.c, v.d, v.e, v.f, v.g, v.h])
  }

  lemma {:induction false} OctetsAt(h: seq<bv32>, p: nat)
    requires p < 4 * |h|
    ensures Octets(h)[p] == OctetAt(h[p / 4], 24 - 8 * (p % 4))
    decreases |h|
  {
    hide OctetAt;
    if p >= 4 {
      OctetsAt(h[1..], p - 4);
    }
  }

  function Hash(m: seq<byte>): (s: seq<byte>)
    ensures |s| == 32
  {
    Digest(Blocks(H0, Pad(m)))
  }

  lemma {:induction false} BlocksAppend(v: Vars, m: seq<byte>, block: seq<byte>)
    requires |m| % 64 == 0 && |block| == 64
    ensures Blocks(v, m + block) == Compress(Blocks(v, m), block)
    decreases |m|
  {
    hide Compress;
    if m == [] {
      assert m + block == block && block[..64] == block && block[64..] == [];
      assert Blocks(Compress(v, block), []) == Compress(v, block);
    } else {
      assert (m + block)[..64] == m[..64] && (m + block)[64..] == m[64..] + block;
      BlocksAppend(Compress(v, m[..64]), m[64..], block);
    }
  }

  /** Padding loses nothing: the length at the end tells the message from its padding. */
  lemma PadInjective(m: seq<byte>, n: seq<byte>)
    requires Pad(m) == Pad(n) && 8 * |m| < Pow256(8) && 8 * |n| < Pow256(8)
    ensures m == n
  {
    var p := Pad(m);
    assert p[|p| - 8..] == ToBigEndian(8 * |m|, 8) && p[|p| - 8..] == ToBigEndian(8 * |n|, 8);
    BigEndianRoundTrip(8 * |m|, 8);
    BigEndianRoundTrip(8 * |n|, 8);
    assert p[..|m|] == m && p[..|n|] == n;
  }

  /** The low octet of `n` shifted right by `k` octets. */
  function ShiftedOctet(n: nat, k: nat): byte {
    if k == 0 then n % 0x100 else ShiftedOctet(n / 0x100, k - 1)
  }

  lemma {:induction false} LengthOctet(n: nat, len: nat, k: nat)
    requires k < len
    ensures ToBigEndian(n, len)[len - 1 - k] == ShiftedOctet(n, k)
  {
    if k > 0 {
      LengthOctet(n / 0x100, len - 1, k - 1);
    }
  }

  /** The tail leaves room for the length: one block is added. */
  lemma {:induction false} PadShort(m: seq<byte>, whole: nat)
    requires whole % 64 == 0 && whole <= |m| < whole + 56
    ensures Pad(m) == m[..whole] +
      (m[whole..] + [0x80] + Fill(56 - (|m| - whole) - 1, 0) + ToBigEndian(8 * |m|, 8))
  {
    hide ToBigEndian;
    assert ZeroBytes(|m|) == 55 - (|m| - whole);
    assert m == m[..whole] + m[whole..];
  }

  /** The tail leaves no room: two blocks are added, the second all zeros but for the length. */
  lemma {:induction false} PadLong(m: seq<byte>, whole: nat)
    requires whole % 64 == 0 && whole + 56 <= |m| < whole + 64
    ensures Pad(m) == m[..whole] + (m[whole..] + [0x80] + Fill(64 - (|m| - whole) - 1, 0))
                      + (Fill(56, 0) + ToBigEndian(8 * |m|, 8))
  {
    hide ToBigEndian;
    var rest := 64 - (|m| - whole) - 1;
    assert ZeroBytes(|m|) == rest + 56;
    assert Fill(rest + 56, 0) == Fill(rest, 0) + Fill(56, 0);
    assert m == m[..whole] + m[whole..];
  }

  function Wrap64(n: nat): nat { n % 0x1_0000_0000_0000_0000 }

  lemma WrapSmall(n: nat)
    ensures n < 0x1_0000_0000_0000_0000 ==> Wrap64(n) == n
  {
  }

  /** sha256_ctx_t. */
  class Context {
    const data: array<byte>
    var datalen: nat
    var bitlen: nat
    const state: array<bv32>
    ghost var message: seq<byte>
    ghost var whole: nat

    ghost predicate Shaped()
    {
      data.Length == 64 && state.Length == 8 && data as object != state as object
    }

    ghost function Value(): Vars
      requires Shaped()
      reads state
    {
      Vars(state[0], state[1], state[2], state[3], state[4], state[5], state[6], state[7])
    }

    /** The context stands for `message`: whole blocks are compressed, the rest is buffered. */
    ghost predicate Valid()
      reads this, data, state
    {
      && Shaped()
      && whole % 64 == 0 && datalen < 64
      && |message| == whole + datalen
      && data[..datalen] == message[whole..]
      && Value() == Blocks(H0, message[..whole])
      && (8 * whole < 0x1_0000_0000_0000_0000 ==> bitlen == 8 * whole)
    }

    /** sha256_init. */
    constructor ()
      ensures Valid() && message == [] && fresh(data) && fresh(state)
    {
      data := new byte[64];
      var h := new bv32[8];
      h[0], h[1], h[2], h[3] := 0x6a09_e667, 0xbb67_ae85, 0x3c6e_f372, 0xa54f_f53a;
      h[4], h[5], h[6], h[7] := 0x510e_527f, 0x9b05_688c, 0x1f83_d9ab, 0x5be0_cd19;
      state := h;
      datalen, bitlen := 0, 0;
      message, whole := [], 0;
    }

    /** The first half of sha256_transform: the message schedule, filled in place. */
    static method Expand(block: seq<byte>) returns (m: array<bv32>)
      requires |block| == 64
      ensures fresh(m) && m.Length == 64
      ensures forall j :: 0 <= j < 64 ==> m[j] == Schedule(block, j)
    {
      hide Word, Add, SmallSigma0, SmallSigma1;
      m := new bv32[64];
      var i := 0;
      while i < 16
        invariant 0 <= i <= 16
        invariant forall j :: 0 <= j < i ==> m[j] == Schedule(block, j)
      {
        m[i] := Word(block[4 * i], block[4 * i + 1], block[4 * i + 2], block[4 * i + 3]);
        i := i + 1;
      }
      hide Schedule;
      while i < 64
        invariant 16 <= i <= 64
        invariant forall j :: 0 <= j < i ==> m[j] == Schedule(block, j)
      {
        ScheduleStep(block, i);
        m[i] := Add(Add(Add(SmallSigma1(m[i - 2]), m[i - 7]), SmallSigma0(m[i - 15])), m[i - 16]);
        i := i + 1;
      }
    }

    /** The second half: 64 rounds over the eight working variables. */
    static method RunRounds(v: Vars, ghost block: seq<byte>, m: array<bv32>) returns (r: Vars)
      requires |block| == 64 && m.Length == 64
      requires forall j :: 0 <= j < 64 ==> m[j] == Schedule(block, j)
      ensures r == Rounds(v, block, 64)
    {
      hide Add, BigSigma0, BigSigma1, Ch, Maj, Schedule;
      var a, b, c, d := v.a, v.b, v.c, v.d;
      var e, f, g, h := v.e, v.f, v.g, v.h;
      var i := 0;
      while i < 64
        invariant 0 <= i <= 64
        invariant Vars(a, b, c, d, e, f, g, h) == Rounds(v, block, i)
      {
        var t1 := Add(Add(Add(Add(h, BigSigma1(e)), Ch(e, f, g)), K[i]), m[i]);
        var t2 := Add(BigSigma0(a), Maj(a, b, c));
        h := g;
        g := f;
        f := e;
        e := Add(d, t1);
        d := c;
        c := b;
        b := a;
        a := Add(t1, t2);
        i := i + 1;
      }
      r := Vars(a, b, c, d, e, f, g, h);
    }

    /** sha256_transform. */
    method Transform()
      requires Shaped()
      modifies state
      ensures Value() == Compress(old(Value()), data[..])
    {
      hide Rounds, Schedule, Add;
      var m := Expand(data[..]);
      var r := RunRounds(Vars(state[0], state[1], state[2], state[3], state[4], state[5], state[6], state[7]),
                         data[..], m);
      state[0] := Add(state[0], r.a);
      state[1] := Add(state[1], r.b);
      state[2] := Add(state[2], r.c);
      state[3] := Add(state[3], r.d);
      state[4] := Add(state[4], r.e);
      state[5] := Add(state[5], r.f);
      state[6] := Add(state[6], r.g);
      state[7] := Add(state[7], r.h);
    }

    /** The body of sha256_update's loop. */
    method Push(b: byte)
      requires Valid()
      modifies this, data, state
      ensures Valid() && message == old(message) + [b]
    {
      hide Blocks, Compress, Value, Wrap64;
      ghost var before := message;
      data[datalen] := b;
      datalen := datalen + 1;
      message := message + [b];
      assert message[..whole] == before[..whole];
      assert message[whole..] == before[whole..] + [b];
      assert data[..datalen] == message[whole..];
      if datalen == 64 {
        assert message[..whole] + data[..] == message[..whole + 64];
        Transform();
        BlocksAppend(H0, message[..whole], data[..]);
        WrapSmall(bitlen + 512);
        bitlen := Wrap64(bitlen + 512);
        datalen := 0;
        whole := whole + 64;
      }
    }

    /** sha256_update: the context then stands for the longer message. */
    method Update(p: seq<byte>)
      requires Valid()
      modifies this, data, state
      ensures Valid() && message == old(message) + p
    {
      hide Valid;
      var i := 0;
      while i < |p|
        invariant 0 <= i <= |p|
        invariant Valid() && message == old(message) + p[..i]
      {
        Push(p[i]);
        assert p[..i + 1] == p[..i] + [p[i]];
        i := i + 1;
      }
      assert p[..|p|] == p;
    }

    /** Writes 0x80 and zeros from `datalen` up to `end`. */
    method FillUp(end: nat)
      requires Shaped() && datalen < end <= 64
      modifies data
      ensures data[..end] == old(data[..datalen]) + [0x80] + Fill(end - datalen - 1, 0)
    {
      var i := datalen;
      data[i] := 0x80;
      i := i + 1;
      while i < end
        invariant datalen < i <= end
        invariant data[..i] == old(data[..datalen]) + [0x80] + Fill(i - datalen - 1, 0)
      {
        data[i] := 0x00;
        i := i + 1;
        assert data[..i] == data[..i - 1] + [0];
        assert Fill(i - datalen - 1, 0) == Fill(i - datalen - 2, 0) + [0];
      }
    }

    /** Writes the length big-endian into the last eight octets. */
    method PutLength()
      requires Shaped()
      modifies data
      ensures data[..] == old(data[..56]) + ToBigEndian(bitlen, 8)
    {
      data[63] := ShiftedOctet(bitlen, 0);
      data[62] := ShiftedOctet(bitlen, 1);
      data[61] := ShiftedOctet(bitlen, 2);
      data[60] := ShiftedOctet(bitlen, 3);
      data[59] := ShiftedOctet(bitlen, 4);
      data[58] := ShiftedOctet(bitlen, 5);
      data[57] := ShiftedOctet(bitlen, 6);
      data[56] := ShiftedOctet(bitlen, 7);
      assert data[56..] == ToBigEndian(bitlen, 8) by {
        forall k | 0 <= k < 8 { LengthOctet(bitlen, 8, k); }
        hide ToBigEndian, ShiftedOctet;
        var t := ToBigEndian(bitlen, 8);
        assert t[0] == t[8 - 1 - 7] && t[1] == t[8 - 1 - 6] && t[2] == t[8 - 1 - 5] && t[3] == t[8 - 1 - 4];
        assert t[4] == t[8 - 1 - 3] && t[5] == t[8 - 1 - 2] && t[6] == t[8 - 1 - 1] && t[7] == t[8 - 1 - 0];
      }
      assert data[..] == data[..56] + data[56..];
    }

    /** sha256_final's padding: afterwards only the length is missing from the last block. */
    method PadTail() returns (ghost start: seq<byte>)
      requires Valid()
      modifies data, state
      ensures |start| % 64 == 0 && Value() == Blocks(H0, start)
      ensures start + (data[..56] + ToBigEndian(8 * |message|, 8)) == Pad(message)
    {
      hide Blocks, Compress, Value, Pad, ToBigEndian;
      start := message[..whole];
      if datalen < 56 {
        PadShort(message, whole);
        FillUp(56);
      } else {
        PadLong(message, whole);
        FillUp(64);
        assert data[..] == data[..64];
        Transform();
        BlocksAppend(H0, start, data[..]);
        start := start + data[..];
        ClearFirst56();
      }
    }

    /** sha256_final up to its last transform: the state is the hash value. */
    method Finish()
      requires Valid() && 8 * |message| < 0x1_0000_0000_0000_0000
      modifies this, data, state
      ensures Shaped() && Value() == Blocks(H0, Pad(old(message)))
    {
      hide Blocks, Compress, Value, Pad, ToBigEndian;
      ghost var start := PadTail();
      WrapSmall(bitlen + datalen * 8);
      bitlen := Wrap64(bitlen + datalen * 8);
      PutLength();
      Transform();
      BlocksAppend(H0, start, data[..]);
    }

    /** sha256_final: the digest of everything absorbed. The context is used up. */
    method Final() returns (out: seq<byte>)
      requires Valid() && 8 * |message| < 0x1_0000_0000_0000_0000
      modifies this, data, state
      ensures out == Hash(old(message))
    {
      hide Valid, Value, Blocks, Pad, Digest;
      Finish();
      out := WriteOut();
    }

    method ClearFirst56()
      requires Shaped()
      modifies data
      ensures data[..56] == Fill(56, 0)
    {
      var i := 0;
      while i < 56
        invariant 0 <= i <= 56
        invariant forall j :: 0 <= j < i ==> data[j] == 0
      {
        data[i] := 0x00;
        i := i + 1;
      }
    }

    /** The output loop: octet i of each of the eight words. */
    method WriteOut() returns (out: seq<byte>)
      requires Shaped()
      ensures out == Digest(Value())
    {
      hide OctetAt, Octets;
      var h := state[..];
      var o := new byte[32];
      var i := 0;
      while i < 4
        invariant 0 <= i <= 4
        invariant forall p :: 0 <= p < 32 && p % 4 < i ==> o[p] == OctetAt(h[p / 4], 24 - 8 * (p % 4))
      {
        var k := 0;
        while k < 8
          invariant 0 <= k <= 8
          invariant forall p :: 0 <= p < 32 && (p % 4 < i || (p % 4 == i && p / 4 < k)) ==>
            o[p] == OctetAt(h[p / 4], 24 - 8 * (p % 4))
        {
          o[i + 4 * k] := OctetAt(h[k], 24 - i * 8);
          k := k + 1;
        }
        i := i + 1;
      }
      out := o[..];
      assert h == [state[0], state[1], state[2], state[3], state[4], state[5], state[6], state[7]];
      forall p | 0 <= p < 32 ensures out[p] == Octets(h)[p] { OctetsAt(h, p); }
    }
  }

  function Flatten(pieces: seq<seq<byte>>): seq<byte> {
    if pieces == [] then [] else Flatten(pieces[..|pieces| - 1]) + pieces[|pieces| - 1]
  }

  /** Every split of a message into updates gives the digest of the whole message. */
  method HashPieces(pieces: seq<seq<byte>>) returns (out: seq<byte>)
    requires 8 * |Flatten(pieces)| < 0x1_0000_0000_0000_0000
    ensures out == Hash(Flatten(pieces))
  {
    hide Context.Valid, Hash;
    var ctx := new Context();
    var i := 0;
    while i < |pieces|
      invariant 0 <= i <= |pieces|
      invariant fresh(ctx) && fresh(ctx.data) && fresh(ctx.state)
      invariant ctx.Valid() && ctx.message == Flatten(pieces[..i])
    {
      ctx.Update(pieces[i]);
      assert pieces[..i + 1][..i] == pieces[..i];
      i := i + 1;
    }
    assert pieces[..|pieces|] == pieces;
    out := ctx.Final();
  }

  /** sha256: the one-shot form. */
  method Sha256(data: seq<byte>) returns (out: seq<byte>)
    requires 8 * |data| < 0x1_0000_0000_0000_0000
    ensures out == Hash(data)
  {
    var ctx := new Context();
    ctx.Update(data);
    assert [] + data == data;
    out := ctx.Final();
  }
}
