/**
 The wire format of the OTA link: the host's frame printer, the receiver's frame
 reader over a byte stream in which a timeout is the end of the input, and responses.
 */
module Frame {
  import opened Bytes
  import Crc32

  const SOH: byte := 0x01
  const ACK: byte := 0x06
  const NAK: byte := 0x15
  const OP_START: byte := 0x21
  const OP_DATA: byte := 0x22
  const OP_END: byte := 0x23
  const OP_START_DELTA: byte := 0x24
  const OP_ABORT: byte := 0x2F
  const MAX_DATA: nat := 1024

  datatype Frame = Frame(op: byte, seqNo: u16, data: seq<byte>)

  // ----- ota_protocol.py ----------------------------------------------------------

  /** What the checksum of a frame covers. */
  function FrameBody(f: Frame): (s: seq<byte>)
    requires |f.data| < 0x1_0000
    ensures |s| == 5 + |f.data|
  {
    [f.op] + Le16(f.seqNo) + Le16(|f.data|) + f.data
  }

  /** A frame without its start byte: what the checksum covers, and the checksum. */
  function SealedBody(f: Frame): (s: seq<byte>)
    requires |f.data| <= MAX_DATA
    ensures |s| == 9 + |f.data|
  {
    FrameBody(f) + Le32(Crc32.Checksum(FrameBody(f)))
  }

  function Wire(f: Frame): (s: seq<byte>)
    requires |f.data| <= MAX_DATA
    ensures |s| == 10 + |f.data|
  {
    [SOH] + SealedBody(f)
  }

  /** build_frame: None where the tool raises; opcode and sequence number are masked. */
  function BuildFrame(op: int, seqNo: int, data: seq<byte>): Option<seq<byte>> {
    if |data| > MAX_DATA then None else Some(Wire(Frame(op % 0x100, seqNo % 0x1_0000, data)))
  }

  lemma BuildsWire(f: Frame)
    ensures BuildFrame(f.op, f.seqNo, f.data) == if |f.data| > MAX_DATA then None else Some(Wire(f))
  {
    hide Wire;
  }

  // ----- The reader's specification --------------------------------------------------

  datatype FrameStatus = FrameOk | FrameTimeout | FrameCrcBad | FrameTooBig

  /** What one call leaves: the status, the frame if there is one, and the unread input. */
  datatype Parse = Parse(status: FrameStatus, frame: Option<Frame>, rest: seq<byte>)

  /** Where the first start-of-header byte is, or the length of the input. */
  function Junk(s: seq<byte>): (n: nat)
    ensures n <= |s|
    ensures forall i :: 0 <= i < n ==> s[i] != SOH
    ensures n < |s| ==> s[n] == SOH
  {
    if s == [] || s[0] == SOH then 0 else 1 + Junk(s[1..])
  }

  /** Reading after the start-of-header byte. */
  function ParseBody(s: seq<byte>): Parse {
    if |s| < 5 then Parse(FrameTimeout, None, [])
    else
      var len := U16(s[3..5]);
      if len > MAX_DATA then Parse(FrameTooBig, None, s[5..])
      else if |s| < 9 + len then Parse(FrameTimeout, None, [])
      else
        var rest := s[9 + len..];
        if Crc32.Checksum(s[..5 + len]) != U32(s[5 + len..9 + len]) then Parse(FrameCrcBad, None, rest)
        else Parse(FrameOk, Some(Frame(s[0], U16(s[1..3]), s[5..5 + len])), rest)
  }

  function ParseFrame(s: seq<byte>): (p: Parse)
    ensures p.status == FrameOk <==> p.frame.Some?
    ensures |p.rest| <= |s| && (p.status == FrameOk ==> |p.rest| < |s| && |p.frame.value.data| <= MAX_DATA)
  {
    if Junk(s) == |s| then Parse(FrameTimeout, None, []) else ParseBody(s[Junk(s) + 1..])
  }

  // ----- The reader ------------------------------------------------------------------

  /** The receiving end of the link. */
  class Uart {
    var input: seq<byte>

    constructor (input: seq<byte>)
      ensures this.input == input
    {
      this.input := input;
    }

    method GetByte() returns (ok: bool, b: byte)
      modifies this
      ensures ok <==> old(input) != []
      ensures ok ==> b == old(input)[0] && input == old(input)[1..]
      ensures !ok ==> input == []
    {
      if input == [] {
        return false, 0;
      }
      b := input[0];
      input := input[1..];
      ok := true;
    }

    /** Up to `n` bytes, fewer only when the input ends. */
    method GetBytes(n: nat) returns (data: seq<byte>)
      modifies this
      ensures if n <= |old(input)| then data == old(input)[..n] && input == old(input)[n..]
              else data == old(input) && input == []
    {
      data := [];
      while |data| < n
        invariant |data| <= n && data + input == old(input)
      {
        ghost var before := data + input;
        var ok, b := GetByte();
        if !ok {
          break;
        }
        data := data + [b];
        assert data + input == before;
      }
      assert old(input)[..|data|] == data && old(input)[|data|..] == input;
    }

    /** Drops everything up to and including the first start-of-header byte. */
    method Resync() returns (found: bool)
      modifies this
      ensures found <==> Junk(old(input)) < |old(input)|
      ensures input == if found then old(input)[Junk(old(input)) + 1..] else []
    {
      var ok, b := GetByte();
      ghost var dropped := 0;
      while ok && b != SOH
        invariant ok ==> dropped < |old(input)| && b == old(input)[dropped] && input == old(input)[dropped + 1..]
        invariant ok ==> Junk(old(input)) == dropped + Junk(old(input)[dropped..])
        invariant !ok ==> Junk(old(input)) == |old(input)| && input == []
        decreases if ok then 1 + |input| else 0
      {
        assert old(input)[dropped..][1..] == old(input)[dropped + 1..];
        dropped := dropped + 1;
        ok, b := GetByte();
      }
      found := ok;
    }

    /** read_frame: resync, header, length check, payload, checksum. */
    method ReadFrame() returns (status: FrameStatus, frame: Option<Frame>)
      modifies this
      ensures Parse(status, frame, input) == ParseFrame(old(input))
    {
      hide Crc32.Checksum, Crc32.Absorb, Crc32.Finalize, U32, Junk;
      frame := None;
      var found := Resync();
      if !found {
        return FrameTimeout, None;
      }
      ghost var s := input;
      var hdr := GetBytes(5);
      if |hdr| != 5 {
        return FrameTimeout, None;
      }
      var len := U16(hdr[3..5]);
      assert hdr[3..5] == s[3..5] && hdr[1..3] == s[1..3];
      if len > MAX_DATA {
        return FrameTooBig, None;
      }
      var data: seq<byte> := [];
      if len > 0 {
        data := GetBytes(len);
        if |data| != len {
          return FrameTimeout, None;
        }
      }
      assert data == s[5..][..len] == s[5..5 + len] && input == s[5 + len..];
      var crcBytes := GetBytes(4);
      if |crcBytes| != 4 {
        return FrameTimeout, None;
      }
      assert crcBytes == s[5 + len..9 + len] && input == s[9 + len..];
      var crc := Crc32.Update(Crc32.ONES, hdr);
      if len > 0 {
        crc := Crc32.Update(crc, data);
      }
      ChecksumInTwoSteps(hdr, data);
      assert hdr + data == s[..5 + len];
      if Crc32.Finalize(crc) != U32(crcBytes) {
        return FrameCrcBad, None;
      }
      return FrameOk, Some(Frame(hdr[0], U16(hdr[1..3]), data));
    }
  }

  lemma ChecksumInTwoSteps(a: seq<byte>, b: seq<byte>)
    ensures Crc32.Finalize(Crc32.Absorb(Crc32.Absorb(Crc32.ONES, a), b)) == Crc32.Checksum(a + b)
    ensures b == [] ==> Crc32.Absorb(Crc32.Absorb(Crc32.ONES, a), b) == Crc32.Absorb(Crc32.ONES, a)
  {
    Crc32.AbsorbConcat(Crc32.ONES, a, b);
  }

  // ----- Printer and reader undo each other ----------------------------------------------

  lemma {:induction false} JunkThenSoh(junk: seq<byte>, s: seq<byte>)
    requires SOH !in junk && s != [] && s[0] == SOH
    ensures Junk(junk + s) == |junk|
  {
    if junk == [] {
      assert junk + s == s;
    } else {
      JunkThenSoh(junk[1..], s);
      assert (junk + s)[1..] == junk[1..] + s && junk[0] in junk;
    }
  }

  /** Any junk without a start-of-header byte, then a built frame: exactly that frame, and no byte more. */
  lemma BuiltFrameParses(junk: seq<byte>, f: Frame, rest: seq<byte>)
    requires SOH !in junk && |f.data| <= MAX_DATA
    ensures ParseFrame(junk + Wire(f) + rest) == Parse(FrameOk, Some(f), rest)
  {
    hide Crc32.Checksum, Le32, U32, Le16, U16;
    var crc := Crc32.Checksum(FrameBody(f));
    var after := FrameBody(f) + Le32(crc) + rest;
    var len := |f.data|;
    var s := junk + Wire(f) + rest;
    assert s == junk + ([SOH] + after);
    JunkThenSoh(junk, [SOH] + after);
    assert s[|junk| + 1..] == after;
    Le16RoundTrip(len);
    Le16RoundTrip(f.seqNo);
    Le32RoundTrip(crc);
    assert after[3..5] == Le16(len) && after[1..3] == Le16(f.seqNo) && after[5..5 + len] == f.data;
    assert after[..5 + len] == FrameBody(f) && after[5 + len..9 + len] == Le32(crc) && after[9 + len..] == rest;
  }

  /** Where the fields of a frame lie. */
  lemma WireLayout(f: Frame)
    requires |f.data| <= MAX_DATA
    ensures var s, n := Wire(f), |f.data|;
      && |s| == 10 + n && s[0] == 0x01 && s[1] == f.op && U16(s[2..4]) == f.seqNo && U16(s[4..6]) == n
      && s[6..6 + n] == f.data && U32(s[6 + n..]) == Crc32.Checksum(s[1..6 + n])
  {
    hide Crc32.Checksum, Le16, U16, Le32, U32;
    var s, n, crc := Wire(f), |f.data|, Crc32.Checksum(FrameBody(f));
    Le16RoundTrip(f.seqNo);
    Le16RoundTrip(n);
    Le32RoundTrip(crc);
    assert s == [0x01, f.op] + Le16(f.seqNo) + Le16(n) + f.data + Le32(crc);
    assert s[2..4] == Le16(f.seqNo) && s[4..6] == Le16(n) && s[6..6 + n] == f.data && s[6 + n..] == Le32(crc);
    assert s[1..6 + n] == FrameBody(f);
  }

  /** A frame that breaks off anywhere is waited for until the line goes quiet. */
  lemma PrefixTimesOut(junk: seq<byte>, f: Frame, k: nat)
    requires SOH !in junk && |f.data| <= MAX_DATA && k < |Wire(f)|
    ensures ParseFrame(junk + Wire(f)[..k]) == Parse(FrameTimeout, None, [])
  {
    hide Crc32.Checksum, U16, U32, Wire;
    var s := Wire(f)[..k];
    WireLayout(f);
    if k == 0 {
      assert junk + s == junk;
      AllJunk(junk);
    } else {
      JunkThenSoh(junk, s);
      var body := s[1..];
      assert (junk + s)[|junk| + 1..] == body;
      if k >= 6 { SliceOfSlice(Wire(f), 1, k - 1, 3, 5); assert body == Wire(f)[1..k]; }
    }
  }

  lemma {:induction false} AllJunk(junk: seq<byte>)
    requires SOH !in junk
    ensures Junk(junk) == |junk|
  {
    if junk != [] {
      assert junk[0] in junk;
      AllJunk(junk[1..]);
    }
  }

  /** A length above 1024 is refused, and reading goes on behind the length field. */
  lemma OversizeRefused(junk: seq<byte>, op: byte, seqNo: u16, len: u16, rest: seq<byte>)
    requires SOH !in junk && len > 1024
    ensures ParseFrame(junk + ([0x01, op] + Le16(seqNo) + Le16(len) + rest)) == Parse(FrameTooBig, None, rest)
  {
    hide Crc32.Checksum, U16, U32, Le16;
    var s := [0x01, op] + Le16(seqNo) + Le16(len) + rest;
    JunkThenSoh(junk, s);
    var body := s[1..];
    assert (junk + s)[|junk| + 1..] == body;
    Le16RoundTrip(len);
    assert body == [op] + Le16(seqNo) + Le16(len) + rest;
    assert body[3..5] == Le16(len) && body[5..] == rest;
  }

  /** `s` is some junk, the printed frame, and the rest. */
  ghost predicate Framed(s: seq<byte>, f: Frame, rest: seq<byte>) {
    |f.data| <= MAX_DATA && exists junk: seq<byte> :: SOH !in junk && s == junk + Wire(f) + rest
  }

  /** The reader accepts exactly what the printer prints, after any junk. */
  lemma ParsesIffFramed(s: seq<byte>, f: Frame, rest: seq<byte>)
    ensures ParseFrame(s) == Parse(FrameOk, Some(f), rest) <==> Framed(s, f, rest)
  {
    hide Wire, ParseFrame;
    if Framed(s, f, rest) {
      var junk :| SOH !in junk && s == junk + Wire(f) + rest;
      BuiltFrameParses(junk, f, rest);
    }
    if ParseFrame(s) == Parse(FrameOk, Some(f), rest) { AcceptedIsFramed(s, f, rest); }
  }

  lemma AcceptedIsFramed(s: seq<byte>, f: Frame, rest: seq<byte>)
    requires ParseFrame(s) == Parse(FrameOk, Some(f), rest)
    ensures Framed(s, f, rest)
  {
    hide Wire, ParseBody;
    var n := Junk(s);
    AcceptedBodyIsBuilt(s[n + 1..], f, rest);
    hide Junk;
    assert s == s[..n] + ([SOH] + s[n + 1..]);
    Regroup(s[..n], Wire(f), rest);
  }

  lemma Regroup(a: seq<byte>, b: seq<byte>, c: seq<byte>)
    ensures a + (b + c) == a + b + c
  {
  }

  lemma AcceptedBodyIsBuilt(s: seq<byte>, f: Frame, rest: seq<byte>)
    requires ParseBody(s) == Parse(FrameOk, Some(f), rest)
    ensures |f.data| <= MAX_DATA && [SOH] + s == Wire(f) + rest
  {
    hide Crc32.Checksum, Le32, U32, Le16, U16;
    var len := U16(s[3..5]);
    U16RoundTrip(s[1..3]);
    U16RoundTrip(s[3..5]);
    U32RoundTrip(s[5 + len..9 + len]);
    assert s[..5 + len] == [s[0]] + s[1..3] + s[3..5] + s[5..5 + len] == FrameBody(f);
    assert s == s[..5 + len] + s[5 + len..9 + len] + s[9 + len..];
  }

  /** Frames read one after the other, up to the first call that returns no frame. */
  function ReadAll(s: seq<byte>): seq<Frame>
    decreases |s|
  {
    var p := ParseFrame(s);
    if p.status != FrameOk then [] else [p.frame.value] + ReadAll(p.rest)
  }

  /** What the sender puts on the line, with line noise before every frame. */
  function Stream(junks: seq<seq<byte>>, fs: seq<Frame>): seq<byte>
    requires |junks| == |fs| && forall f <- fs :: |f.data| <= MAX_DATA
  {
    if fs == [] then [] else junks[0] + Wire(fs[0]) + Stream(junks[1..], fs[1..])
  }

  /** A whole stream of frames comes out as it went in. */
  lemma {:induction false} StreamRoundTrip(junks: seq<seq<byte>>, fs: seq<Frame>)
    requires |junks| == |fs| && (forall f <- fs :: |f.data| <= MAX_DATA) && (forall j <- junks :: SOH !in j)
    ensures ReadAll(Stream(junks, fs)) == fs
    decreases |fs|
  {
    hide Wire, ParseFrame;
    if fs == [] {
      assert ParseFrame([]).status == FrameTimeout by { EmptyTimesOut(); }
    } else {
      var rest := Stream(junks[1..], fs[1..]);
      BuiltFrameParses(junks[0], fs[0], rest);
      StreamRoundTrip(junks[1..], fs[1..]);
      assert ReadAll(Stream(junks, fs)) == [fs[0]] + ReadAll(rest);
    }
  }

  lemma EmptyTimesOut()
    ensures ParseFrame([]) == Parse(FrameTimeout, None, [])
  {
  }

  /** All differing bits lie in a window of 32 bits. */
  predicate Burst(a: seq<byte>, b: seq<byte>, w: nat)
    requires |a| == |b|
  {
    forall i :: 0 <= i < 8 * |a| && Crc32.Bits(a)[i] != Crc32.Bits(b)[i] ==> w <= i < w + 32
  }

  lemma PrintedIsSealed(f: Frame)
    requires |f.data| <= MAX_DATA
    ensures Crc32.Sealed(SealedBody(f)) && U16(SealedBody(f)[3..5]) == |f.data|
  {
    hide Crc32.Checksum, Le32, U32, U16, Le16;
    var s, crc := SealedBody(f), Crc32.Checksum(FrameBody(f));
    Le32RoundTrip(crc);
    Le16RoundTrip(|f.data|);
    assert s[..|s| - 4] == FrameBody(f) && s[|s| - 4..] == Le32(crc) && s[3..5] == Le16(|f.data|);
  }

  /** After a start byte and an intact length field, the checksum alone decides, and the reader is back in step. */
  lemma ReadsSealed(s: seq<byte>, len: nat, rest: seq<byte>)
    requires len <= MAX_DATA && |s| == 9 + len && U16(s[3..5]) == len
    ensures var p := ParseFrame([SOH] + s + rest);
      p.rest == rest && p.status == if Crc32.Sealed(s) then FrameOk else FrameCrcBad
  {
    hide Crc32.Checksum, U32, U16;
    var t := s + rest;
    assert [SOH] + s + rest == [SOH] + t && ([SOH] + t)[1..] == t;
    assert t[3..5] == s[3..5] && t[9 + len..] == rest;
    assert t[..5 + len] == s[..|s| - 4] && t[5 + len..9 + len] == s[|s| - 4..];
  }

  /**
   Whatever damage a frame takes behind its start byte, payload and checksum alike, that
   leaves the length field alone: it is reported exactly when the difference leaves an
   empty CRC register other than empty, and the reader is back in step after the frame.
   */
  lemma DamageSeenExactly(f: Frame, received: seq<byte>, rest: seq<byte>)
    requires |f.data| <= MAX_DATA && |received| == |SealedBody(f)| && received[3..5] == SealedBody(f)[3..5]
    ensures var p := ParseFrame([SOH] + received + rest);
      p.rest == rest && (p.status == FrameCrcBad <==> Crc32.Run(0, Crc32.Difference(received, SealedBody(f))) != 0)
  {
    hide Crc32.Run, Crc32.Difference, Crc32.Sealed, ParseFrame, U16, SealedBody;
    PrintedIsSealed(f);
    ReadsSealed(received, |f.data|, rest);
    Crc32.DamagePassesExactly(SealedBody(f), received);
  }

  /** So every burst of up to 32 bits is reported, also one across the end of the payload into the checksum. */
  lemma DamagedFrameIsCrcBad(f: Frame, received: seq<byte>, rest: seq<byte>, w: nat)
    requires |f.data| <= MAX_DATA && |received| == |SealedBody(f)| && received[3..5] == SealedBody(f)[3..5]
    requires received != SealedBody(f) && Burst(received, SealedBody(f), w)
    ensures ParseFrame([SOH] + received + rest) == Parse(FrameCrcBad, None, rest)
  {
    hide Crc32.Bits, Crc32.Sealed, ParseFrame, U16, SealedBody;
    PrintedIsSealed(f);
    ReadsSealed(received, |f.data|, rest);
    Crc32.SealedBurstDetected(SealedBody(f), received, w);
  }

  // ----- Responses ---------------------------------------------------------------------

  datatype Response = Response(code: byte, seqNo: u16)

  /** send_response. */
  function ResponseBytes(r: Response): (s: seq<byte>)
    ensures |s| == 3
  {
    [r.code] + Le16(r.seqNo)
  }

  /** parse_response: None where the tool raises. */
  function ParseResponse(s: seq<byte>): Option<Response> {
    if |s| != 3 || (s[0] != ACK && s[0] != NAK) then None else Some(Response(s[0], U16(s[1..3])))
  }

  predicate IsAck(code: byte) { code == ACK }

  /** Three bytes: the code, 0x06 for yes and 0x15 for no, and the number. */
  lemma ResponseLayout(seqNo: u16)
    ensures ResponseBytes(Response(ACK, seqNo)) == [0x06, seqNo % 0x100, seqNo / 0x100]
    ensures ResponseBytes(Response(NAK, seqNo)) == [0x15, seqNo % 0x100, seqNo / 0x100]
    ensures IsAck(0x06) && !IsAck(0x15)
  {
  }

  /** The host decodes exactly what the receiver sends. */
  lemma ResponseRoundTrip(s: seq<byte>, r: Response)
    ensures ParseResponse(s) == Some(r) <==> s == ResponseBytes(r) && (r.code == ACK || r.code == NAK)
  {
    hide U16, Le16;
    Le16RoundTrip(r.seqNo);
    assert ResponseBytes(r)[1..3] == Le16(r.seqNo);
    if |s| == 3 {
      U16RoundTrip(s[1..3]);
      assert s == [s[0]] + s[1..3];
    }
  }
}
