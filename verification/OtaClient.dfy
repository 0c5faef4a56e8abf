/**
 The OTA receiver: its session state, the frame handlers and the receive loop. What a
 handler does is also stated as a relation on values, so that whole runs of frames, and
 the sender's side of the protocol, can be reasoned about.
 */
module OtaClient {
  import opened Bytes
  import opened Layout
  import opened Flash
  import opened Crypto
  import opened BootConfig
  import opened Boot
  import opened Frame
  import Delta
  import FirmwareImage
  import Sha256

  const MAX_ERRORS: nat := 16
  const START_DELTA_BYTES: nat := 40

  datatype Kind = Whole | Patch

  /** The per-transfer state. */
  datatype Session = Session(active: bool, kind: Kind, slotAddr: u32, total: u32, written: u32, expectedSeq: u16,
                             tailBase: u32, expectedNew: u32, activeBase: u32)

  const IDLE: Session := Session(false, Whole, 0, 0, 0, 0, 0, 0, 0)

  /** What a frame can change; `faulty` says whether the flash controller ever misbehaved. */
  datatype Device = Device(mem: Memory, sram: Sram, session: Session, faulty: bool)

  datatype Platform = Platform(trust: Trust, g: Geometry, patcher: Delta.Patcher)

  /** An active session stays within its slot, and a patch lies behind the new image. */
  predicate SessionOk(s: Session) {
    s.active ==>
      && Delta.SlotBase(s.slotAddr) && 0 < s.total <= SLOT_SIZE && s.written <= s.total
      && (s.kind == Patch ==>
            && Delta.SlotBase(s.activeBase) && HEADER_SIZE <= s.expectedNew && s.expectedNew + s.total <= SLOT_SIZE
            && s.tailBase == s.slotAddr + SLOT_SIZE - s.total)
  }

  /** Where the transferred bytes go. */
  function Base(s: Session): u32 {
    if s.kind == Patch then s.tailBase else s.slotAddr
  }

  function NextSeq(n: u16): u16 {
    (n + 1) % 0x1_0000
  }

  // ----- What each handler does -----------------------------------------------------------

  /** The running slot and the other one, by the configuration as loaded. */
  function Running(w: Platform, mem: Memory): (addr: u32)
    ensures Delta.SlotBase(addr)
  {
    SlotAddr(Load(w.trust, mem).cfg.active)
  }

  function Target(w: Platform, mem: Memory): (addr: u32)
    ensures Delta.SlotBase(addr)
  {
    SlotAddr(OtherSlot(Load(w.trust, mem).cfg.active))
  }

  predicate StartInRange(f: Frame) {
    |f.data| >= 4 && HEADER_SIZE <= U32(f.data[0..4]) <= HEADER_SIZE + MAX_PAYLOAD
  }

  /** A frame that begins a transfer erases `n` bytes at `addr` and then opens `s`. */
  ghost predicate Begins(w: Platform, d: Device, d': Device, ok: bool, addr: u32, n: nat, s: Session) {
    && d'.sram == d.sram && d'.faulty == (d.faulty || !ok)
    && if ok then d'.session == s && d'.mem == Erased(w.g, d.mem, addr, addr + n)
       else d'.session == d.session && OnlyErasedSectorsChange(w.g, d.mem, d'.mem, addr, addr + n)
  }

  function WholeSession(s: Session, f: Frame, addr: u32): Session
    requires StartInRange(f)
  {
    s.(active := true, kind := Whole, slotAddr := addr, total := U32(f.data[0..4]), written := 0,
       expectedSeq := NextSeq(f.seqNo))
  }

  ghost predicate HandlesStart(w: Platform, d: Device, f: Frame, d': Device, ok: bool) {
    if !StartInRange(f) then !ok && d' == d
    else
      var addr, total := Target(w, d.mem), U32(f.data[0..4]);
      Begins(w, d, d', ok, addr, total, WholeSession(d.session, f, addr))
  }

  predicate DeltaInRange(f: Frame) {
    && |f.data| >= START_DELTA_BYTES
    && var patchTotal, expectedNew := U32(f.data[0..4]), U32(f.data[4..8]);
      && 0 < patchTotal <= SLOT_SIZE && HEADER_SIZE <= expectedNew <= HEADER_SIZE + MAX_PAYLOAD
      && expectedNew + patchTotal <= SLOT_SIZE
  }

  /** The image in a slot hashes to `digest`. */
  predicate HasDigest(s: Slot, digest: seq<byte>) {
    Delta.BaseRegion(s).Some? && Sha256.Hash(Delta.BaseRegion(s).value) == digest
  }

  predicate BaseMatches(mem: Memory, addr: u32, digest: seq<byte>)
    requires Delta.SlotBase(addr)
  {
    HasDigest(SlotAt(mem, addr), digest)
  }

  function DeltaSession(f: Frame, addr: u32, running: u32): Session
    requires DeltaInRange(f) && Delta.SlotBase(addr)
  {
    var total := U32(f.data[0..4]);
    Session(true, Patch, addr, total, 0, NextSeq(f.seqNo), addr + SLOT_SIZE - total, U32(f.data[4..8]), running)
  }

  ghost predicate HandlesStartDelta(w: Platform, d: Device, f: Frame, d': Device, ok: bool) {
    if !DeltaInRange(f) || !BaseMatches(d.mem, Running(w, d.mem), f.data[8..40]) then !ok && d' == d
    else
      var addr := Target(w, d.mem);
      Begins(w, d, d', ok, addr, SLOT_SIZE, DeltaSession(f, addr, Running(w, d.mem)))
  }

  predicate DataInSequence(s: Session, f: Frame) {
    s.active && f.seqNo == s.expectedSeq && f.data != [] && s.written + |f.data| <= s.total
  }

  ghost predicate HandlesData(d: Device, f: Frame, d': Device, ok: bool)
    requires SessionOk(d.session)
  {
    var s := d.session;
    if !DataInSequence(s, f) then !ok && d' == d
    else
      && d'.sram == d.sram && d'.faulty == (d.faulty || !ok)
      && if ok then
           && d'.mem == Splice(d.mem, Base(s) + s.written - FLASH_BASE, f.data)
           && d'.session == s.(written := s.written + |f.data|, expectedSeq := NextSeq(s.expectedSeq))
         else d'.session == s && WrittenOnly(d.mem, d'.mem, Base(s) + s.written, |f.data|)
  }

  /** The patch is applied, for a delta; `m` is the flash afterwards. */
  ghost predicate Reconstructs(w: Platform, d: Device, m: Memory, applied: bool, faults: seq<bool>, faulty: bool)
    requires SessionOk(d.session) && d.session.active
  {
    var s := d.session;
    if s.kind == Whole then applied && m == d.mem && faulty == d.faulty
    else
      && WrittenOnly(d.mem, m, s.slotAddr, s.expectedNew) && faulty == (d.faulty || Delta.AnyFault(faults))
      && Delta.Refines(w.patcher, d.mem, m, s.activeBase, s.slotAddr, s.total, s.expectedNew, applied, faults, !faulty)
  }

  /** The image in the slot verifies and its version is permitted. */
  predicate Acceptable(w: Platform, mem: Memory, addr: u32)
    requires Delta.SlotBase(addr)
  {
    VerifySlot(w.trust, SlotAt(mem, addr)) && Allowed(Load(w.trust, mem).cfg, FirmwareImage.Version(SlotAt(mem, addr)))
  }

  const PENDING: Sram := Sram(SHARED_BLOCK_MAGIC, 0, 1)

  ghost predicate HandlesEnd(w: Platform, d: Device, d': Device, ok: bool)
    requires SessionOk(d.session)
  {
    var s := d.session;
    if !s.active || s.written != s.total then !ok && d' == d
    else
      && d'.session == s
      && exists applied: bool, faults: seq<bool> ::
           && Reconstructs(w, d, d'.mem, applied, faults, d'.faulty)
           && ok == (applied && Acceptable(w, d'.mem, s.slotAddr))
           && d'.sram == if ok then PENDING else d.sram
  }

  /** One frame, for any opcode but ABORT. */
  ghost predicate Handles(w: Platform, d: Device, f: Frame, d': Device, ok: bool)
    requires SessionOk(d.session)
  {
    if f.op == OP_START then HandlesStart(w, d, f, d', ok)
    else if f.op == OP_START_DELTA then HandlesStartDelta(w, d, f, d', ok)
    else if f.op == OP_DATA then HandlesData(d, f, d', ok)
    else if f.op == OP_END then HandlesEnd(w, d, d', ok)
    else !ok && d' == d
  }

  /** A handled frame: what it found, what it left, whether it was acknowledged. */
  datatype Event = Event(before: Device, frame: Frame, after: Device, ok: bool)

  /** One pass of the receive loop. */
  datatype Pass = Handled(e: Event) | Damaged | Silent | Aborted(seqNo: u16)

  /** The passes follow one another, starting from an idle session. */
  ghost predicate Follows(w: Platform, first: Device, log: seq<Pass>, last: Device)
    decreases |log|
  {
    if log == [] then last == first && first.session == IDLE
    else
      var rest, x := log[..|log| - 1], log[|log| - 1];
      if x.Handled? then
        && Follows(w, first, rest, x.e.before)
        && SessionOk(x.e.before.session) && Handles(w, x.e.before, x.e.frame, x.e.after, x.e.ok) && last == x.e.after
      else Follows(w, first, rest, last)
  }

  /** How many passes in a row have failed. */
  function Errors(log: seq<Pass>): nat
    decreases |log|
  {
    if log == [] || (log[|log| - 1].Handled? && log[|log| - 1].e.ok) then 0 else 1 + Errors(log[..|log| - 1])
  }

  function Reply(x: Pass): seq<byte> {
    match x
    case Handled(e) => ResponseBytes(Response(if e.ok then ACK else NAK, e.frame.seqNo))
    case Damaged => ResponseBytes(Response(NAK, 0))
    case Silent => []
    case Aborted(seqNo) => ResponseBytes(Response(ACK, seqNo))
  }

  function Replies(log: seq<Pass>): seq<byte>
    decreases |log|
  {
    if log == [] then [] else Replies(log[..|log| - 1]) + Reply(log[|log| - 1])
  }

  /** The unread input after `n` calls of the frame reader. */
  function RestAfter(input: seq<byte>, n: nat): seq<byte> {
    if n == 0 then input else ParseFrame(RestAfter(input, n - 1)).rest
  }

  /** The pass is about what the frame reader returned. */
  predicate Concerns(x: Pass, p: Parse) {
    match p.frame
    case Some(f) => if f.op == OP_ABORT then x == Aborted(f.seqNo) else x.Handled? && x.e.frame == f
    case None => x == if p.status == FrameTimeout then Silent else Damaged
  }

  /** Every frame handled is one the input holds, in order, and the input is read up to `rest`. */
  predicate Reads(input: seq<byte>, log: seq<Pass>, rest: seq<byte>) {
    && rest == RestAfter(input, |log|)
    && forall i :: 0 <= i < |log| ==> Concerns(log[i], ParseFrame(RestAfter(input, i)))
  }

  // ----- The code ------------------------------------------------------------------------

  class Receiver {
    const trust: Trust
    const nor: Nor
    const shared: SharedBlock
    const patcher: Delta.Patcher
    const uart: Uart
    var active: bool
    var kind: Kind
    var slotAddr: u32
    var total: u32
    var written: u32
    var expectedSeq: u16
    var tailBase: u32
    var expectedNew: u32
    var activeBase: u32
    /** Response bytes sent so far. */
    var sent: seq<byte>

    constructor (trust: Trust, nor: Nor, shared: SharedBlock, patcher: Delta.Patcher, uart: Uart)
      ensures this.trust == trust && this.nor == nor && this.shared == shared && this.patcher == patcher
      ensures this.uart == uart && V() == IDLE && sent == []
    {
      this.trust, this.nor, this.shared, this.patcher, this.uart := trust, nor, shared, patcher, uart;
      active, kind, slotAddr, total, written := false, Whole, 0, 0, 0;
      expectedSeq, tailBase, expectedNew, activeBase := 0, 0, 0, 0;
      sent := [];
    }

    ghost function W(): Platform {
      Platform(trust, nor.g, patcher)
    }

    ghost function V(): Session
      reads this
    {
      Session(active, kind, slotAddr, total, written, expectedSeq, tailBase, expectedNew, activeBase)
    }

    ghost function Dev(): Device
      requires nor.Valid()
      reads this, nor, nor.cells, shared
    {
      Device(nor.Mem(), shared.V(), V(), nor.faulty)
    }

    /** The memset of the session when receiving begins. */
    method Reset()
      modifies this
      ensures V() == IDLE && sent == old(sent)
    {
      active, kind, slotAddr, total, written := false, Whole, 0, 0, 0;
      expectedSeq, tailBase, expectedNew, activeBase := 0, 0, 0, 0;
    }

    /** Loads the configuration to find the running and the inactive slot. */
    method PickSlots() returns (running: u32, target: u32)
      requires nor.Valid()
      ensures running == Running(W(), nor.Mem()) && target == Target(W(), nor.Mem())
    {
      hide Load;
      var cfg := new Cell();
      var loaded := cfg.LoadFrom(trust, nor);
      target := SlotAddr(OtherSlot(cfg.active));
      running := SlotAddr(cfg.active);
    }

    method HandleStart(f: Frame) returns (ok: bool)
      requires nor.Valid()
      modifies this, nor, nor.cells
      ensures sent == old(sent) && HandlesStart(W(), old(Dev()), f, Dev(), ok)
    {
      hide Erased, OnlyErasedSectorsChange, Running, Target, WholeSession, U32;
      if |f.data| < 4 {
        return false;
      }
      var running, addr := PickSlots();
      var size := U32(f.data[0..4]);
      if size < HEADER_SIZE || size > HEADER_SIZE + MAX_PAYLOAD {
        return false;
      }
      var s := nor.EraseRange(addr, size);
      if s != Status.Ok {
        return false;
      }
      OpenWhole(f, addr, size);
      ok := true;
    }

    method OpenWhole(f: Frame, addr: u32, size: u32)
      requires StartInRange(f) && size == U32(f.data[0..4])
      modifies this
      ensures sent == old(sent) && V() == WholeSession(old(V()), f, addr)
    {
      hide U32;
      active, kind, slotAddr, total, written := true, Whole, addr, size, 0;
      expectedSeq := NextSeq(f.seqNo);
    }

    method HandleStartDelta(f: Frame) returns (ok: bool)
      requires nor.Valid()
      modifies this, nor, nor.cells
      ensures sent == old(sent) && HandlesStartDelta(W(), old(Dev()), f, Dev(), ok)
    {
      hide Begins, DeltaSession, Running, Target, Sha256.Hash, Delta.BaseRegion, U32;
      if |f.data| < START_DELTA_BYTES {
        return false;
      }
      var running, addr := PickSlots();
      var patchTotal := U32(f.data[0..4]);
      var newTotal := U32(f.data[4..8]);
      var digest := f.data[8..40];
      if patchTotal == 0 || patchTotal > SLOT_SIZE {
        return false;
      }
      if newTotal < HEADER_SIZE || newTotal > HEADER_SIZE + MAX_PAYLOAD {
        return false;
      }
      if newTotal + patchTotal > SLOT_SIZE {
        return false;
      }
      var matches := Delta.VerifyActiveBase(nor, running, digest);
      assert matches == BaseMatches(nor.Mem(), running, digest);
      hide BaseMatches;
      if !matches {
        return false;
      }
      ok := BeginDelta(f, addr, running);
    }

    /** The erase, and the new session if it succeeds. */
    method BeginDelta(f: Frame, addr: u32, running: u32) returns (ok: bool)
      requires nor.Valid() && DeltaInRange(f) && Delta.SlotBase(addr)
      modifies this, nor, nor.cells
      ensures sent == old(sent) && Begins(W(), old(Dev()), Dev(), ok, addr, SLOT_SIZE, DeltaSession(f, addr, running))
    {
      hide Erased, OnlyErasedSectorsChange, InOneSector, DeltaSession, DeltaInRange;
      var s := nor.EraseRange(addr, SLOT_SIZE);
      if s != Status.Ok {
        return false;
      }
      OpenDelta(f, addr, running);
      ok := true;
    }

    method OpenDelta(f: Frame, addr: u32, running: u32)
      requires DeltaInRange(f) && Delta.SlotBase(addr)
      modifies this
      ensures sent == old(sent) && V() == DeltaSession(f, addr, running)
    {
      hide U32;
      active, kind, slotAddr, total := true, Patch, addr, U32(f.data[0..4]);
      expectedNew, activeBase, tailBase := U32(f.data[4..8]), running, addr + SLOT_SIZE - total;
      written := 0;
      expectedSeq := NextSeq(f.seqNo);
    }

    method HandleData(f: Frame) returns (ok: bool)
      requires nor.Valid() && SessionOk(V())
      modifies this, nor, nor.cells
      ensures sent == old(sent) && HandlesData(old(Dev()), f, Dev(), ok)
    {
      hide Within, Splice;
      if !active {
        return false;
      }
      if f.seqNo != expectedSeq {
        return false;
      }
      if |f.data| == 0 {
        return false;
      }
      if written + |f.data| > total {
        return false;
      }
      var dest := if kind == Patch then tailBase + written else slotAddr + written;
      var s := nor.ProgramBytes(dest, f.data);
      if s != Status.Ok {
        return false;
      }
      written := written + |f.data|;
      expectedSeq := NextSeq(expectedSeq);
      ok := true;
    }

    /** Verification, header read-back and the anti-downgrade check of the written image. */
    method CheckImage() returns (ok: bool)
      requires nor.Valid() && Delta.SlotBase(slotAddr)
      ensures ok == Acceptable(W(), nor.Mem(), slotAddr)
    {
      hide VerifySlot, Load, Allowed;
      var verified := VerifyFirmware(trust, nor, slotAddr);
      if !verified {
        return false;
      }
      var hdr := nor.Read(slotAddr, HEADER_SIZE);
      SliceOfSlice(nor.Mem(), slotAddr - FLASH_BASE, SLOT_SIZE, 0, HEADER_SIZE);
      assert hdr == SlotAt(nor.Mem(), slotAddr)[..HEADER_SIZE];
      VerifiedHeader(trust, SlotAt(nor.Mem(), slotAddr));
      HeaderFields(SlotAt(nor.Mem(), slotAddr), hdr);
      if FirmwareImage.Magic(hdr) != FIRMWARE_MAGIC {
        return false;
      }
      var cfg := new Cell();
      var loaded := cfg.LoadFrom(trust, nor);
      ok := Allowed(cfg.Snapshot(), FirmwareImage.Version(hdr));
    }

    method HandleEnd() returns (ok: bool)
      requires nor.Valid() && SessionOk(V())
      modifies shared, nor, nor.cells
      ensures HandlesEnd(W(), old(Dev()), Dev(), ok)
    {
      hide Delta.Refines, Delta.AnyFault, WrittenOnly, Acceptable;
      ghost var d, faults := Dev(), [];
      if !active {
        return false;
      }
      if written != total {
        return false;
      }
      var applied := true;
      if kind == Patch {
        applied, faults := Delta.ApplyPatch(nor, patcher, activeBase, slotAddr, total, expectedNew);
      }
      assert Reconstructs(W(), d, nor.Mem(), applied, faults, nor.faulty);
      if !applied {
        return false;
      }
      var acceptable := CheckImage();
      if !acceptable {
        return false;
      }
      shared.magic := SHARED_BLOCK_MAGIC;
      shared.pending := 1;
      shared.confirmed := 0;
      ok := true;
    }
 
    /** Dispatch on the opcode. */
    method Dispatch(f: Frame) returns (ok: bool)
      requires nor.Valid() && SessionOk(V())
      modifies this, shared, nor, nor.cells
      ensures sent == old(sent) && Handles(W(), old(Dev()), f, Dev(), ok)
    {
      hide HandlesStart, HandlesStartDelta, HandlesData, HandlesEnd;
      if f.op == OP_START {
        ok := HandleStart(f);
      } else if f.op == OP_START_DELTA {
        ok := HandleStartDelta(f);
      } else if f.op == OP_DATA {
        ok := HandleData(f);
      } else if f.op == OP_END {
        ok := HandleEnd();
      } else {
        ok := false;
      }
    }

    /**
     ota_client_receive. The log accounts for every byte read and every byte sent; the
     call ends with an accepted END, an ABORT, or sixteen failures in a row.
     */
    method Receive() returns (done: bool, ghost log: seq<Pass>)
      requires nor.Valid()
      modifies this, shared, uart, nor, nor.cells
      ensures Follows(W(), old(Dev()).(session := IDLE), log, Dev())
      ensures Reads(old(uart.input), log, uart.input) && sent == old(sent) + Replies(log)
      ensures Ends(log, done)
    {
      hide Handles, ParseFrame, Concerns, Follows, Reads, Replies, Errors, Ongoing, Ends;
      Reset();
      log := [];
      NothingRead(W(), Dev(), uart.input);
      var errors := 0;
      while errors < MAX_ERRORS
        invariant SessionOk(V()) && errors == Errors(log) <= MAX_ERRORS
        invariant Follows(W(), old(Dev()).(session := IDLE), log, Dev())
        invariant Reads(old(uart.input), log, uart.input) && sent == old(sent) + Replies(log)
        invariant Ongoing(log)
        decreases |uart.input|, MAX_ERRORS - errors
      {
        ghost var before, log0, rest := Dev(), log, uart.input;
        var f, ok, x := OnePass();
        Appended(W(), old(Dev()).(session := IDLE), before, Dev(), old(uart.input), log0, rest, x);
        log := log0 + [x];
        SentSoFar(old(sent), Replies(log0), Reply(x));
        errors := if ok then 0 else errors + 1;
        if f.Some? && f.value.op == OP_ABORT {
          return false, log;
        }
        if ok && f.value.op == OP_END {
          return true, log;
        }
      }
      Exhausted(log);
      done := false;
    }

    /** The body of the loop: reads a frame, handles it, responds. */
    method OnePass() returns (frame: Option<Frame>, ok: bool, ghost x: Pass)
      requires nor.Valid() && SessionOk(V())
      modifies this, shared, uart, nor, nor.cells
      ensures SessionOk(V()) && frame == ParseFrame(old(uart.input)).frame && uart.input == ParseFrame(old(uart.input)).rest
      ensures Concerns(x, ParseFrame(old(uart.input))) && sent == old(sent) + Reply(x)
      ensures x.Aborted? <==> frame.Some? && frame.value.op == OP_ABORT
      ensures ok <==> x.Handled? && x.e.ok
      ensures if x.Handled? then
          && x.e.before == old(Dev()) && x.e.after == Dev() && frame == Some(x.e.frame)
          && Handles(W(), x.e.before, x.e.frame, x.e.after, x.e.ok)
        else Dev() == old(Dev())
    {
      hide Handles, ParseFrame;
      ghost var before := Dev();
      ok := false;
      var status;
      status, frame := uart.ReadFrame();
      if status != FrameOk {
        if status == FrameCrcBad || status == FrameTooBig {
          sent := sent + ResponseBytes(Response(NAK, 0));
          x := Damaged;
        } else {
          x := Silent;
        }
        return;
      }
      var f := frame.value;
      if f.op == OP_ABORT {
        sent := sent + ResponseBytes(Response(ACK, f.seqNo));
        x := Aborted(f.seqNo);
        return;
      }
      ok := Dispatch(f);
      sent := sent + ResponseBytes(Response(if ok then ACK else NAK, f.seqNo));
      x := Handled(Event(before, f, Dev(), ok));
      HandlesKeepsSession(W(), before, f, Dev(), ok);
    }
  }

  lemma NothingRead(w: Platform, d: Device, input: seq<byte>)
    ensures d.session == IDLE ==> Follows(w, d, [], d)
    ensures Reads(input, [], input) && Replies([]) == [] && Errors([]) == 0 && Ongoing([])
  {
  }

  lemma SentSoFar(a: seq<byte>, b: seq<byte>, c: seq<byte>)
    ensures a + b + c == a + (b + c)
  {
  }

  lemma Exhausted(log: seq<Pass>)
    requires Ongoing(log) && Errors(log) == MAX_ERRORS
    ensures Ends(log, false)
  {
  }

  /** A pass that ends the call. */
  predicate Final(x: Pass) {
    x.Aborted? || (x.Handled? && x.e.ok && x.e.frame.op == OP_END)
  }

  /** No pass has ended the call, and there never were sixteen failures in a row. */
  predicate Ongoing(log: seq<Pass>)
    decreases |log|
  {
    log == [] || (Ongoing(log[..|log| - 1]) && Errors(log[..|log| - 1]) < MAX_ERRORS && !Final(log[|log| - 1]))
  }

  /** The call ended here and not before: on an accepted END, an ABORT, or sixteen failures in a row. */
  predicate Ends(log: seq<Pass>, done: bool) {
    if log != [] && Final(log[|log| - 1]) then
      && Ongoing(log[..|log| - 1]) && Errors(log[..|log| - 1]) < MAX_ERRORS
      && done == !log[|log| - 1].Aborted?
    else !done && Ongoing(log) && Errors(log) == MAX_ERRORS
  }

  /** One more pass of the loop. */
  lemma Appended(w: Platform, first: Device, before: Device, after: Device, input: seq<byte>, log: seq<Pass>,
                 rest: seq<byte>, x: Pass)
    requires Follows(w, first, log, before) && Reads(input, log, rest) && Concerns(x, ParseFrame(rest))
    requires if x.Handled? then
        x.e.before == before && x.e.after == after && SessionOk(before.session)
        && Handles(w, before, x.e.frame, after, x.e.ok)
      else after == before
    ensures Follows(w, first, log + [x], after) && Reads(input, log + [x], ParseFrame(rest).rest)
    ensures Replies(log + [x]) == Replies(log) + Reply(x)
    ensures Errors(log + [x]) == if x.Handled? && x.e.ok then 0 else 1 + Errors(log)
    ensures Ongoing(log) && Errors(log) < MAX_ERRORS ==>
      if Final(x) then Ends(log + [x], !x.Aborted?) else Ongoing(log + [x])
  {
    hide Handles, ParseFrame, Concerns, Reply;
    assert (log + [x])[..|log|] == log;
  }

  /** No frame takes an active session out of its slot. */
  lemma HandlesKeepsSession(w: Platform, d: Device, f: Frame, d': Device, ok: bool)
    requires SessionOk(d.session) && Handles(w, d, f, d', ok)
    ensures SessionOk(d'.session)
  {
    hide Running, Target, BaseMatches, Erased, OnlyErasedSectorsChange, Reconstructs, Acceptable, U32;
  }

  /** What a frame does, by its opcode. */
  lemma HandlesByOpcode(w: Platform, d: Device, f: Frame, d': Device, ok: bool)
    requires SessionOk(d.session) && Handles(w, d, f, d', ok)
    ensures f.op == OP_START ==> HandlesStart(w, d, f, d', ok)
    ensures f.op == OP_START_DELTA ==> HandlesStartDelta(w, d, f, d', ok)
    ensures f.op == OP_DATA ==> HandlesData(d, f, d', ok)
    ensures f.op == OP_END ==> HandlesEnd(w, d, d', ok)
  {
    hide HandlesStart, HandlesStartDelta, HandlesData, HandlesEnd;
  }
}
