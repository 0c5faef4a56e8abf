/**
 Fixed-width unsigned integers, little- and big-endian byte strings, and the one
 way this project overwrites a stretch of a byte string.
 */
module Bytes {

  type byte = b: int | 0 <= b < 0x100
  type u16 = n: int | 0 <= n < 0x1_0000
  type u32 = n: int | 0 <= n < 0x1_0000_0000

  datatype Option<+T> = None | Some(value: T)

  function Fill(n: nat, b: byte): (s: seq<byte>)
    ensures |s| == n && forall i :: 0 <= i < n ==> s[i] == b
  {
    seq(n, i => b)
  }

  function Le16(n: u16): (s: seq<byte>)
    ensures |s| == 2
  {
    [n % 0x100, n / 0x100]
  }

  function U16(s: seq<byte>): u16
    requires |s| == 2
  {
    s[0] + 0x100 * (s[1] as int)
  }

  function Le32(n: u32): (s: seq<byte>)
    ensures |s| == 4
  {
    [n % 0x100, n / 0x100 % 0x100, n / 0x100 / 0x100 % 0x100, n / 0x100 / 0x100 / 0x100]
  }

  function U32(s: seq<byte>): u32
    requires |s| == 4
  {
    s[0] + 0x100 * (s[1] + 0x100 * (s[2] + 0x100 * (s[3] as int)) as int)
  }

  lemma Le16RoundTrip(n: u16)
    ensures U16(Le16(n)) == n
  {
  }

  lemma U16RoundTrip(s: seq<byte>)
    requires |s| == 2
    ensures Le16(U16(s)) == s
  {
  }

  lemma Le32RoundTrip(n: u32)
    ensures U32(Le32(n)) == n
  {
  }

  lemma U32RoundTrip(s: seq<byte>)
    requires |s| == 4
    ensures Le32(U32(s)) == s
  {
    var n := U32(s);
    assert n / 0x100 == s[1] + 0x100 * (s[2] + 0x100 * (s[3] as int) as int);
  }

  /** The number a big-endian byte string denotes. */
  function BigEndian(s: seq<byte>): nat {
    if s == [] then 0 else 0x100 * BigEndian(s[..|s| - 1]) + s[|s| - 1]
  }

  /** Little-endian is big-endian backwards. */
  lemma LittleEndian(a: byte, b: byte, c: byte, d: byte)
    ensures U16([a, b]) == BigEndian([b, a])
    ensures U32([a, b, c, d]) == BigEndian([d, c, b, a])
  {
    assert [b, a][..1] == [b] && [b][..0] == [];
    assert BigEndian([b]) == b;
    assert [d, c, b, a][..3] == [d, c, b] && [d, c, b][..2] == [d, c] && [d, c][..1] == [d] && [d][..0] == [];
    assert BigEndian([d]) == d && BigEndian([d, c]) == 0x100 * BigEndian([d]) + c;
    assert BigEndian([d, c, b]) == 0x100 * BigEndian([d, c]) + b;
  }

  /** `n` written big-endian in exactly `len` bytes (the low bytes when it does not fit). */
  function ToBigEndian(n: nat, len: nat): (s: seq<byte>)
    ensures |s| == len
  {
    if len == 0 then [] else ToBigEndian(n / 0x100, len - 1) + [n % 0x100]
  }

  function Pow256(k: nat): (p: nat)
    ensures p > 0
  {
    if k == 0 then 1 else 0x100 * Pow256(k - 1)
  }

  lemma {:induction false} BigEndianRoundTrip(n: nat, len: nat)
    requires n < Pow256(len)
    ensures BigEndian(ToBigEndian(n, len)) == n
  {
    if len > 0 {
      BigEndianRoundTrip(n / 0x100, len - 1);
      var s := ToBigEndian(n, len);
      assert s[..|s| - 1] == ToBigEndian(n / 0x100, len - 1);
    }
  }

  /** `mem` with `data` written over it at `off`. */
  function Splice(mem: seq<byte>, off: nat, data: seq<byte>): (r: seq<byte>)
    requires off + |data| <= |mem|
    ensures |r| == |mem|
    ensures forall i :: 0 <= i < |mem| ==>
      r[i] == if off <= i < off + |data| then data[i - off] else mem[i]
  {
    mem[..off] + data + mem[off + |data|..]
  }

  lemma SpliceInside(mem: seq<byte>, off: nat, data: seq<byte>)
    requires off + |data| <= |mem|
    ensures Splice(mem, off, data)[off..off + |data|] == data
  {
  }

  lemma SpliceOutside(mem: seq<byte>, off: nat, data: seq<byte>, lo: nat, hi: nat)
    requires off + |data| <= |mem| && lo <= hi <= |mem|
    requires hi <= off || off + |data| <= lo
    ensures Splice(mem, off, data)[lo..hi] == mem[lo..hi]
  {
  }

  lemma SliceOfSlice(m: seq<byte>, at: nat, n: nat, lo: nat, hi: nat)
    requires at + n <= |m| && lo <= hi <= n
    ensures m[at..at + n][lo..hi] == m[at + lo..at + hi]
  {
    var a, b := m[at..at + n][lo..hi], m[at + lo..at + hi];
    assert |a| == |b| && forall i :: 0 <= i < |a| ==> a[i] == b[i];
  }

  lemma SpliceAppend(mem: seq<byte>, off: nat, d: seq<byte>, e: seq<byte>)
    requires off + |d| + |e| <= |mem|
    ensures Splice(Splice(mem, off, d), off + |d|, e) == Splice(mem, off, d + e)
  {
  }
}
