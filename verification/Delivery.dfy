/**
 Over a link that loses nothing, to a receiver that listens and a flash that does not fail,
 a transfer goes through: every frame is acknowledged once, up to END, and the slot ends up
 with the image. So what the receiver accepts is not merely nothing.
 */
module Delivery {
  import opened Bytes
  import opened Layout
  import opened Flash
  import opened Crypto
  import opened BootConfig
  import opened Boot
  import opened Frame
  import opened OtaClient
  import opened Channel
  import opened OtaServer
  import opened Transfers
  import BootRuns
  import Crc32
  import Delta
  import DeltaScript
  import EndToEnd
  import FirmwareImage
  import LowS
  import Sha256

  // ----- A run without losses ---------------------------------------------------------------

  /** Three states to a frame: it is still to be sent, or on the line, or acknowledged. */
  predicate InPhase(job: Job, k: nat, x: System, i: nat)
    requires JobOk(job)
  {
    && x.turn == TurnAt(job, k + i / 3)
    && x.net.queue == (if i % 3 == 1 then [x.turn.cur] else [])
    && x.net.responses == (if i % 3 == 2 then [Acked(x.turn)] else [])
  }

  /** Frame after frame from the `k`-th on, each sent once, accepted and acknowledged, END being the last. */
  ghost predicate Smooth(w: Platform, job: Job, k: nat, run: seq<System>)
    requires JobOk(job)
  {
    && |run| > 0 && |run| % 3 == 0
    && (forall i :: 0 <= i < |run| - 1 ==> SystemStep(w, job, run[i], run[i + 1]))
    && (forall i :: 0 <= i < |run| ==> InPhase(job, k, run[i], i))
    && run[|run| - 1].turn.cur.op == OP_END
  }

  /** From this device and an empty line, a run without losses to an accepted END, which leaves `m` and the flag raised. */
  ghost predicate GoesThrough(w: Platform, job: Job, d: Device, run: seq<System>, m: Memory)
    requires JobOk(job)
  {
    && Smooth(w, job, 0, run) && SystemRun(w, job, run)
    && run[0] == System(FirstTurn(job), Net(d, [], [], false, None))
    && var end := run[|run| - 1].net;
      && end.done == Some(end.device) && Completed(w, job, end.device)
      && end.device.mem == m && end.device.sram == Sram(0x5EAF_B001, 0, 1)
      && end.device.faulty == d.faulty && end.device.session.slotAddr == Target(w, d.mem)
      && (KindOf(job) == Patch ==> end.device.session.activeBase == Running(w, d.mem))
  }

  /** The receiver accepts the frame. */
  ghost predicate Takes(w: Platform, d: Device, f: Frame, d': Device) {
    SessionOk(d.session) && Handles(w, d, f, d', true)
  }

  /** The device once the first `sent` bytes are stored. */
  function DeviceAt(job: Job, e: Device, sent: nat, next: u16): Device
    requires SessionOk(e.session) && e.session.active && e.session.total == |job.blob| && sent <= |job.blob|
  {
    e.(mem := Splice(e.mem, Base(e.session) - FLASH_BASE, job.blob[..sent]),
       session := e.session.(written := sent, expectedSeq := next))
  }

  /** Where an accepted END leaves it. */
  function DeviceDone(job: Job, e: Device, m: Memory, next: u16): Device
    requires SessionOk(e.session) && e.session.active && e.session.total == |job.blob|
  {
    DeviceAt(job, e, |job.blob|, next).(mem := m, sram := PENDING)
  }

  /** An END with all bytes stored is accepted and leaves `m`. */
  ghost predicate EndTakes(w: Platform, job: Job, e: Device, m: Memory, next: u16)
    requires SessionOk(e.session) && e.session.active && e.session.total == |job.blob|
  {
    Takes(w, DeviceAt(job, e, |job.blob|, next), Frame(OP_END, next, []), DeviceDone(job, e, m, next))
  }

  /** What the frames after the START are. */
  lemma {:induction false} ShapeAt(job: Job, k: nat)
    requires JobOk(job) && job.chunk > 0 && k > 0
    ensures var turn := TurnAt(job, k);
      if turn.cur.op == OP_END then turn.cur.data == [] && turn.sent == |job.blob|
      else
        && turn.cur.op == OP_DATA && 0 < |turn.cur.data| <= job.chunk && turn.sent + |turn.cur.data| <= |job.blob|
        && turn.cur.data == job.blob[turn.sent..turn.sent + |turn.cur.data|]
    ensures TurnAt(job, k).prev.Some?
  {
  }

  /** The chunk of a turn is accepted. */
  lemma DataTaken(w: Platform, job: Job, e: Device, f: Frame, sent: nat)
    requires SessionOk(e.session) && e.session.active && e.session.total == |job.blob|
    requires f.op == OP_DATA && f.data != [] && sent + |f.data| <= |job.blob|
    requires f.data == job.blob[sent..sent + |f.data|]
    ensures Takes(w, DeviceAt(job, e, sent, f.seqNo), f, DeviceAt(job, e, sent + |f.data|, NextSeq(f.seqNo)))
  {
    hide Splice, HandlesStart, HandlesStartDelta, HandlesEnd;
    var at := Base(e.session) - FLASH_BASE;
    assert job.blob[..sent] + f.data == job.blob[..sent + |f.data|];
    SpliceAppend(e.mem, at, job.blob[..sent], f.data);
  }

  /** Sent, accepted, acknowledged. */
  lemma OneFrame(w: Platform, job: Job, k: nat, d: Device, done: Option<Device>, d': Device) returns (run: seq<System>)
    requires JobOk(job) && |TurnAt(job, k).cur.data| <= MAX_DATA && TurnAt(job, k).cur.op != OP_ABORT
    requires Takes(w, d, TurnAt(job, k).cur, d')
    ensures var turn := TurnAt(job, k);
      var end := turn.cur.op == OP_END;
      && run == [System(turn, Net(d, [], [], false, done)), System(turn, Net(d, [turn.cur], [], false, done)),
                 System(turn, Net(d', [], [Acked(turn)], end, if end then Some(d') else done))]
      && SystemStep(w, job, run[0], run[1]) && SystemStep(w, job, run[1], run[2])
    ensures forall i :: 0 <= i < 3 ==> InPhase(job, k, run[i], i)
  {
    hide Handles, SessionOk, SystemStep, TurnAt, JobOk;
    var turn := TurnAt(job, k);
    var n0, n1 := Net(d, [], [], false, done), Net(d, [turn.cur], [], false, done);
    SendStep(w, job, turn, n0);
    AcceptStep(w, job, turn, n1, d');
    var end := turn.cur.op == OP_END;
    run := [System(turn, n0), System(turn, n1),
            System(turn, Net(d', [], [Acked(turn)], end, if end then Some(d') else done))];
  }

  /** One frame, and the run that follows it. */
  lemma Joined(w: Platform, job: Job, k: nat, head: seq<System>, rest: seq<System>)
    requires JobOk(job) && |head| == 3 && Smooth(w, job, k + 1, rest)
    requires SystemStep(w, job, head[0], head[1]) && SystemStep(w, job, head[1], head[2])
    requires SystemStep(w, job, head[2], rest[0])
    requires forall i :: 0 <= i < 3 ==> InPhase(job, k, head[i], i)
    ensures Smooth(w, job, k, head + rest)
  {
    hide SystemStep, TurnAt, JobOk, InPhase;
    var run := head + rest;
    forall i | 0 <= i < |run| - 1 ensures SystemStep(w, job, run[i], run[i + 1]) {
      if i >= 3 { assert SystemStep(w, job, rest[i - 3], rest[i - 3 + 1]); }
    }
    forall i | 0 <= i < |run| ensures InPhase(job, k, run[i], i) {
      if i >= 3 {
        assert InPhase(job, k + 1, rest[i - 3], i - 3);
        LaterPhase(job, k, rest[i - 3], i);
      }
    }
  }

  lemma LaterPhase(job: Job, k: nat, x: System, i: nat)
    requires JobOk(job) && i >= 3 && InPhase(job, k + 1, x, i - 3)
    ensures InPhase(job, k, x, i)
  {
    hide TurnAt, JobOk, Acked;
    Thirds(i);
  }

  lemma Thirds(i: nat)
    requires i >= 3
    ensures (i - 3) / 3 + 1 == i / 3 && (i - 3) % 3 == i % 3
  {
  }

  /** From the acknowledged START on. */
  lemma {:induction false} ChunksThrough(w: Platform, job: Job, e: Device, m: Memory, k: nat) returns (run: seq<System>)
    requires JobOk(job) && 0 < job.chunk <= MAX_DATA && k > 0
    requires SessionOk(e.session) && e.session.active && e.session.total == |job.blob|
    requires forall next: u16 :: EndTakes(w, job, e, m, next)
    ensures Smooth(w, job, k, run)
    ensures var turn := TurnAt(job, k);
      turn.sent <= |job.blob|
      && run[0] == System(turn, Net(DeviceAt(job, e, turn.sent, turn.cur.seqNo), [], [], false, None))
    ensures var x := run[|run| - 1];
      x.net.away && x.net.done == Some(x.net.device) && x.net.device == DeviceDone(job, e, m, x.turn.cur.seqNo)
    decreases |job.blob| - TurnAt(job, k).sent, if TurnAt(job, k).cur.op == OP_END then 0 else 1
  {
    hide Takes, SessionOk, SystemStep, JobOk, TurnOk, DeviceDone, Base, Splice, InPhase;
    ShapeAt(job, k);
    var turn := TurnAt(job, k);
    var d := DeviceAt(job, e, turn.sent, turn.cur.seqNo);
    if turn.cur.op == OP_END {
      assert EndTakes(w, job, e, m, turn.cur.seqNo);
      run := OneFrame(w, job, k, d, None, DeviceDone(job, e, m, turn.cur.seqNo));
    } else {
      var d' := DeviceAt(job, e, turn.sent + |turn.cur.data|, NextSeq(turn.cur.seqNo));
      DataTaken(w, job, e, turn.cur, turn.sent);
      var head := OneFrame(w, job, k, d, None, d');
      AckStep(w, job, turn, head[2].net);
      NextAfterData(job, k);
      var rest := ChunksThrough(w, job, e, m, k + 1);
      Joined(w, job, k, head, rest);
      run := head + rest;
    }
  }

  lemma NextAfterData(job: Job, k: nat)
    requires JobOk(job) && TurnAt(job, k).cur.op == OP_DATA
    ensures var turn, next := TurnAt(job, k), TurnAt(job, k + 1);
      && next == NextTurn(job, turn) && next.sent == turn.sent + |turn.cur.data|
      && next.cur.seqNo == NextSeq(turn.cur.seqNo)
  {
    hide TurnOk, JobOk;
  }

  // ----- Whole images --------------------------------------------------------------------------

  /** The flash once the image lies in the inactive slot. */
  function Uploaded(w: Platform, mem: Memory, image: seq<byte>): Memory
    requires |image| <= SLOT_SIZE
  {
    var target := Target(w, mem);
    Splice(Erased(w.g, mem, target, target + |image|), target - FLASH_BASE, image)
  }

  /** The slot verifies and its version is at or above the floor of the configuration loaded from this flash. */
  predicate Permitted(w: Platform, m: Memory, addr: u32)
    requires Delta.SlotBase(addr)
  {
    VerifySlot(w.trust, SlotAt(m, addr)) && FirmwareImage.Version(SlotAt(m, addr)) >= Floor(Load(w.trust, m).cfg)
  }

  /** The START's number and what it leaves. */
  lemma StartTaken(w: Platform, job: Job, d: Device) returns (e: Device)
    requires JobOk(job) && job.start.op == OP_START && d.session == IDLE && 512 <= |job.blob| <= 471_040
    ensures Takes(w, d, job.start, e)
    ensures var target := Target(w, d.mem);
      && e == d.(mem := Erased(w.g, d.mem, target, target + |job.blob|), session := e.session)
      && e.session == Session(true, Whole, target, |job.blob|, 0, NextSeq(job.start.seqNo), 0, 0, 0)
      && SessionOk(e.session) && Base(e.session) == target
  {
    hide Target, Erased, Begins, WholeSession, StartInRange, Handles, JobOk, U32;
    AnnouncesBlob(job);
    var target := Target(w, d.mem);
    e := Begun(w, d, target, |job.blob|, WholeSession(d.session, job.start, target));
    WholeHandled(w, d, job.start, e);
    OpenedWhole(job, target);
  }

  lemma AnnouncesBlob(job: Job)
    requires JobOk(job) && 512 <= |job.blob| <= 471_040
    ensures StartInRange(job.start) && U32(job.start.data[0..4]) == |job.blob|
  {
    hide U32;
  }

  lemma OpenedWhole(job: Job, target: u32)
    requires JobOk(job) && StartInRange(job.start) && U32(job.start.data[0..4]) == |job.blob| && Delta.SlotBase(target)
    ensures var s := WholeSession(IDLE, job.start, target);
      && s == Session(true, Whole, target, |job.blob|, 0, NextSeq(job.start.seqNo), 0, 0, 0)
      && SessionOk(s) && Base(s) == target
  {
    hide U32, JobOk;
  }

  lemma WholeEnds(w: Platform, job: Job, e: Device, next: u16)
    requires SessionOk(e.session) && e.session.active && e.session.kind == Whole && e.session.total == |job.blob|
    requires Acceptable(w, DeviceAt(job, e, |job.blob|, next).mem, e.session.slotAddr)
    ensures EndTakes(w, job, e, DeviceAt(job, e, |job.blob|, next).mem, next)
  {
    hide Acceptable, Handles, Splice;
    var d := DeviceAt(job, e, |job.blob|, next);
    var d' := EndAccepted(w, d, Frame(OP_END, next, []));
    assert d' == DeviceDone(job, e, d.mem, next);
  }

  /**
   push, when nothing goes wrong: an image of 512 bytes to 460 KB that verifies in the
   inactive slot and is no older than the floor goes through to the acknowledged END.
   */
  lemma ImageGoesThrough(w: Platform, image: seq<byte>, chunk: nat, d: Device) returns (run: seq<System>)
    requires d.session == IDLE && 512 <= |image| <= 471_040 && 0 < chunk <= 1024
    requires Permitted(w, Uploaded(w, d.mem, image), Target(w, d.mem))
    ensures GoesThrough(w, PushJob(image, chunk), d, run, Uploaded(w, d.mem, image))
  {
    hide Takes, GoesThrough, Target, Erased, VerifySlot, Load, Floor, FirmwareImage.Version, SlotAt, SystemStep, Splice;
    hide JobOk, PushJob, TurnOk, Completed, InPhase;
    var job := PushJob(image, chunk);
    PushJobIs(image, chunk);
    var e := StartTaken(w, job, d);
    var m := Uploaded(w, d.mem, image);
    assert image[..|image|] == image;
    forall next: u16 ensures EndTakes(w, job, e, m, next) {
      WholeEnds(w, job, e, next);
    }
    run := StartThrough(w, job, d, e, m);
  }

  /** The START and everything behind it. */
  lemma StartThrough(w: Platform, job: Job, d: Device, e: Device, m: Memory) returns (run: seq<System>)
    requires JobOk(job) && 0 < job.chunk <= MAX_DATA && d.session == IDLE
    requires Takes(w, d, job.start, e)
    requires SessionOk(e.session) && e.session.active && e.session.total == |job.blob|
    requires e.session.written == 0 && e.session.expectedSeq == NextSeq(job.start.seqNo)
    requires e.faulty == d.faulty && e.session.slotAddr == Target(w, d.mem)
    requires KindOf(job) == Patch ==> e.session.activeBase == Running(w, d.mem)
    requires forall next: u16 :: EndTakes(w, job, e, m, next)
    ensures GoesThrough(w, job, d, run, m)
  {
    hide Takes, SystemStep, TurnOk, Completed, EndTakes, Splice, SessionOk, Target, Running;
    StartGoesOn(job);
    FirstTurns(job);
    NothingStored(job, e);
    hide JobOk, TurnAt, DeviceAt;
    var head := OneFrame(w, job, 0, d, None, e);
    AckStep(w, job, TurnAt(job, 0), head[2].net);
    var rest := ChunksThrough(w, job, e, m, 1);
    Joined(w, job, 0, head, rest);
    run := head + rest;
    SmoothCompletes(w, job, run);
  }

  lemma FirstTurns(job: Job)
    requires JobOk(job)
    ensures TurnAt(job, 0) == FirstTurn(job) && TurnAt(job, 1) == NextTurn(job, FirstTurn(job))
    ensures TurnAt(job, 1).sent == 0 && TurnAt(job, 1).cur.seqNo == NextSeq(job.start.seqNo)
  {
  }

  lemma NothingStored(job: Job, e: Device)
    requires SessionOk(e.session) && e.session.active && e.session.total == |job.blob| && e.session.written == 0
    ensures DeviceAt(job, e, 0, e.session.expectedSeq) == e
  {
    assert job.blob[..0] == [];
    SpliceNothing(e.mem, Base(e.session) - FLASH_BASE);
  }

  /** Such a run is one of the protocol's, and its END is acknowledged. */
  lemma SmoothCompletes(w: Platform, job: Job, run: seq<System>)
    requires JobOk(job) && Smooth(w, job, 0, run) && run[0].net.device.session == IDLE
    ensures SystemRun(w, job, run)
    ensures var end := run[|run| - 1].net;
      end.done.Some? && Completed(w, job, end.done.value)
  {
    hide SystemStep, Completed, JobOk, InPhase, Opening;
    var last := |run| - 1;
    StartsIdle(job, run[0]);
    EndsAcked(job, run[last], last);
    EndAckedMeansCompleted(w, job, run, last);
  }

  lemma StartsIdle(job: Job, x: System)
    requires JobOk(job) && InPhase(job, 0, x, 0) && x.net.device.session == IDLE
    ensures Opening(job, x)
  {
    hide JobOk;
  }

  lemma EndsAcked(job: Job, x: System, i: nat)
    requires JobOk(job) && InPhase(job, 0, x, i) && i % 3 == 2
    ensures x.net.responses == [Acked(x.turn)]
  {
    hide JobOk, TurnAt;
  }

  /** The upload reaches neither the stored configuration, if that is away from the slot, nor anything but the slot. */
  lemma UploadKeepsConfig(w: Platform, mem: Memory, image: seq<byte>)
    requires TargetAway(w, mem) && 0 < |image| <= SLOT_SIZE
    ensures var m := Uploaded(w, mem, image);
      && Load(w.trust, m) == Load(w.trust, mem) && image <= SlotAt(m, Target(w, mem))
  {
    hide Load, Target, AwayFromConfig;
    var target, m := Target(w, mem), Uploaded(w, mem, image);
    ConfigSpared(w.g, mem, target, image);
    BootRuns.LoadOfSameRecord(w.trust, mem, m);
  }

  lemma ConfigSpared(g: Geometry, mem: Memory, target: u32, image: seq<byte>)
    requires Delta.SlotBase(target) && AwayFromConfig(g, target) && 0 < |image| <= SLOT_SIZE
    ensures var m := Splice(Erased(g, mem, target, target + |image|), target - FLASH_BASE, image);
      ConfigAt(m) == ConfigAt(mem) && image <= SlotAt(m, target)
  {
  }

  /** The slot that was inactive runs this payload under its version, on its first attempt. */
  predicate Updated(w: Platform, mem: Memory, img: FirmwareImage.Image, b: Booted) {
    && SlotAddr(b.slot) == Target(w, mem) && b.cfg.attempts == 1
    && EndToEnd.HoldsPayload(SlotAt(b.mem, SlotAddr(b.slot)), img)
  }

  /** A device that may be updated to this payload, which is built and signed as `blob`. */
  predicate MayUpdate(w: Platform, mem: Memory, img: FirmwareImage.Image, r: nat, s: nat, blob: seq<byte>) {
    && TargetAway(w, mem) && KeyOk(w.trust) && EndToEnd.BuiltAndSigned(w.trust, img, r, s, blob)
    && img.version >= Floor(Load(w.trust, mem).cfg)
  }

  /**
   All the way: a payload built and signed for the device's key, no older than the floor, is
   pushed to an idle receiver, with nothing lost and no flash failure and the slot away from
   a valid configuration. END is acknowledged, which leaves the device `e`, and the reset
   that follows runs this payload.
   */
  lemma SignedPayloadGoesThrough(w: Platform, img: FirmwareImage.Image, r: nat, s: nat, blob: seq<byte>, chunk: nat,
                                 d: Device)
    returns (run: seq<System>, e: Device)
    requires d.session == IDLE && 0 < chunk <= 1024 && MayUpdate(w, d.mem, img, r, s, blob)
    ensures |blob| <= SLOT_SIZE && GoesThrough(w, PushJob(blob, chunk), d, run, Uploaded(w, d.mem, blob))
    ensures run[|run| - 1].net.done == Some(e)
    ensures Updated(w, d.mem, img, EndToEnd.NextBoot(w, e))
  {
    hide Load, Target, VerifySlot, FirmwareImage.Version, AwayFromConfig, Floor, SlotAt, KeyOk, Uploaded, GoesThrough;
    hide PushJob, JobOk, EndToEnd.BuiltAndSigned, Updated;
    BlobSize(w.trust, img, r, s, blob);
    UploadKeepsConfig(w, d.mem, blob);
    var m, target := Uploaded(w, d.mem, blob), Target(w, d.mem);
    BlobVerifies(w.trust, img, r, s, blob, SlotAt(m, target));
    run := ImageGoesThrough(w, blob, chunk, d);
    e := AtTheEnd(w, PushJob(blob, chunk), d, run, m);
    Rebooted(w, PushJob(blob, chunk), d, e, img, r, s);
  }

  lemma AtTheEnd(w: Platform, job: Job, d: Device, run: seq<System>, m: Memory) returns (e: Device)
    requires JobOk(job) && GoesThrough(w, job, d, run, m)
    ensures run != [] && run[|run| - 1].net.done == Some(e)
    ensures Completed(w, job, e) && e.mem == m && e.faulty == d.faulty
    ensures e.session.slotAddr == Target(w, d.mem) && e.session.kind == KindOf(job)
    ensures KindOf(job) == Patch ==> e.session.activeBase == Running(w, d.mem)
  {
    hide SystemStep, InPhase, Target, Running, Acceptable, Transferred, Aimable;
    e := run[|run| - 1].net.device;
  }

  /** The boot after it. */
  lemma Rebooted(w: Platform, job: Job, d: Device, e: Device, img: FirmwareImage.Image, r: nat, s: nat)
    requires JobOk(job) && job.start.op == OP_START && Completed(w, job, e) && TargetAway(w, d.mem)
    requires Load(w.trust, e.mem) == Load(w.trust, d.mem)
    requires e.session.slotAddr == Target(w, d.mem) && e.session.kind == KindOf(job)
    requires EndToEnd.BuiltAndSigned(w.trust, img, r, s, job.blob)
    ensures Updated(w, d.mem, img, EndToEnd.NextBoot(w, e))
  {
    hide Load, AwayFromConfig, JobOk, Completed, SlotAt;
    hide EndToEnd.NextBoot, EndToEnd.HoldsPayload, EndToEnd.BuiltAndSigned;
    assert EndToEnd.ReadyToSwap(w, e);
    EndToEnd.SignedPayloadRuns(w, job, e, img, r, s);
  }

  lemma BlobSize(t: Trust, img: FirmwareImage.Image, r: nat, s: nat, blob: seq<byte>)
    requires EndToEnd.BuiltAndSigned(t, img, r, s, blob)
    ensures 512 <= |blob| <= 471_040
  {
    hide FirmwareImage.SigningBytes, Sha256.Hash, FirmwareImage.ParseUnsigned, Crc32.Checksum, LowS.Encode;
    SignToolBuilds(img, r, s);
  }

  lemma BlobVerifies(t: Trust, img: FirmwareImage.Image, r: nat, s: nat, blob: seq<byte>, slot: Slot)
    requires EndToEnd.BuiltAndSigned(t, img, r, s, blob) && KeyOk(t) && blob <= slot
    ensures VerifySlot(t, slot) && FirmwareImage.Version(slot) == img.version
  {
    hide FirmwareImage.SigningBytes, FirmwareImage.SignedImage, SignTool, Signs, Sha256.Hash, KeyOk, VerifySlot;
    SignThenVerify(t, img, r, s, slot);
  }

  // ----- Deltas ---------------------------------------------------------------------------------

  /** The flash with the patch in the tail of the erased slot. */
  function PatchStored(w: Platform, mem: Memory, patch: seq<byte>): Memory
    requires |patch| <= SLOT_SIZE
  {
    var target := Target(w, mem);
    Splice(Erased(w.g, mem, target, target + SLOT_SIZE), target + SLOT_SIZE - |patch| - FLASH_BASE, patch)
  }

  /** And with the new image at its head. */
  function PatchApplied(w: Platform, mem: Memory, patch: seq<byte>, image: seq<byte>): Memory
    requires |patch| <= SLOT_SIZE && |image| <= SLOT_SIZE
  {
    Splice(PatchStored(w, mem, patch), Target(w, mem) - FLASH_BASE, image)
  }

  /** With the patch stored, the pure patch makes `image` of what the running slot still holds. */
  predicate Makes(w: Platform, mem: Memory, patch: seq<byte>, image: seq<byte>)
    requires |patch| <= SLOT_SIZE
  {
    var m, base := PatchStored(w, mem, patch), Running(w, mem);
    && base != Target(w, mem) && DeltaScript.BaseFound(SlotAt(m, base))
    && Delta.Patched(w.patcher, patch, Delta.OldImage(m, base), |image|) == Delta.Outcome(true, image)
  }

  /** The running slot holds an image with this digest. */
  predicate HasBase(w: Platform, mem: Memory, digest: seq<byte>) {
    HasDigest(SlotAt(mem, Running(w, mem)), digest)
  }

  /** The session a START_DELTA opens. */
  predicate OpenedBy(w: Platform, job: Job, mem: Memory, s: Session)
    requires JobOk(job) && KindOf(job) == Patch
  {
    && SessionOk(s) && s.active && s.kind == Patch && s.slotAddr == Target(w, mem) && s.activeBase == Running(w, mem)
    && s.total == |job.blob| && s.expectedNew == NewTotal(job) && s.written == 0
    && s.expectedSeq == NextSeq(job.start.seqNo)
  }

  lemma DeltaStartTaken(w: Platform, job: Job, d: Device) returns (e: Device)
    requires JobOk(job) && job.start.op == OP_START_DELTA && d.session == IDLE
    requires 0 < |job.blob| && 512 <= NewTotal(job) && NewTotal(job) + |job.blob| <= 471_040
    requires HasBase(w, d.mem, BaseDigest(job))
    ensures Takes(w, d, job.start, e)
    ensures OpenedBy(w, job, d.mem, e.session)
    ensures var target := Target(w, d.mem);
      e == d.(mem := Erased(w.g, d.mem, target, target + SLOT_SIZE), session := e.session)
  {
    hide Target, Running, HasDigest, Erased, Begins, DeltaSession, DeltaInRange, U32, SlotAt, JobOk, Handles, OpenedBy;
    DeltaFits(job);
    var target := Target(w, d.mem);
    e := Begun(w, d, target, SLOT_SIZE, DeltaSession(job.start, target, Running(w, d.mem)));
    OpenedDelta(w, job, d.mem);
    DeltaHandled(w, d, job.start, e);
  }

  lemma DeltaFits(job: Job)
    requires JobOk(job) && job.start.op == OP_START_DELTA
    requires 0 < |job.blob| && 512 <= NewTotal(job) && NewTotal(job) + |job.blob| <= 471_040
    ensures DeltaInRange(job.start)
  {
    hide U32;
  }

  lemma OpenedDelta(w: Platform, job: Job, mem: Memory)
    requires JobOk(job) && job.start.op == OP_START_DELTA && DeltaInRange(job.start)
    ensures OpenedBy(w, job, mem, DeltaSession(job.start, Target(w, mem), Running(w, mem)))
  {
    hide Target, Running, U32;
  }

  lemma DeltaHandled(w: Platform, d: Device, f: Frame, e: Device)
    requires SessionOk(d.session) && f.op == OP_START_DELTA && DeltaInRange(f) && HasBase(w, d.mem, f.data[8..40])
    requires Begins(w, d, e, true, Target(w, d.mem), SLOT_SIZE, DeltaSession(f, Target(w, d.mem), Running(w, d.mem)))
    ensures Handles(w, d, f, e, true)
  {
    hide Target, Running, HasDigest, Begins, DeltaSession, DeltaInRange, SlotAt, SessionOk;
    assert HandlesStartDelta(w, d, f, e, true);
    hide HandlesStartDelta;
  }

  /** Applying the patch as the pure patch does is one of the things END can do. */
  lemma Reconstructed(w: Platform, d: Device, m: Memory, patch: seq<byte>, image: seq<byte>)
    requires SessionOk(d.session) && d.session.active && d.session.kind == Patch && |image| == d.session.expectedNew
    requires Delta.StoredPatch(d.mem, d.session.slotAddr, d.session.total) == patch
    requires DeltaScript.BaseFound(SlotAt(d.mem, d.session.activeBase)) && d.session.total > 0
    requires Delta.Patched(w.patcher, patch, Delta.OldImage(d.mem, d.session.activeBase), |image|)
          == Delta.Outcome(true, image)
    requires m == Splice(d.mem, d.session.slotAddr - FLASH_BASE, image)
    ensures Reconstructs(w, d, m, true, Delta.NoFaults(w.patcher.limit), d.faulty)
  {
    hide Delta.Applied, Delta.OldImage, Delta.StoredPatch, DeltaScript.BaseFound, Delta.LogicalTotal;
    hide FirmwareImage.Magic, FirmwareImage.PayloadSize, SlotAt;
    DeltaScript.BaseByHeader(d.mem, d.session.activeBase, SlotAt(d.mem, d.session.activeBase));
    ImageWritten(d.mem, d.session.slotAddr, image);
    hide WrittenOnly, Stretch, Splice;
    assert !Delta.AnyFault(Delta.NoFaults(w.patcher.limit));
  }

  lemma ImageWritten(m: Memory, addr: u32, image: seq<byte>)
    requires Delta.SlotBase(addr) && |image| <= SLOT_SIZE
    ensures var m' := Splice(m, addr - FLASH_BASE, image);
      WrittenOnly(m, m', addr, |image|) && Stretch(m', addr, |image|) == image
  {
  }

  lemma TailStored(m: Memory, addr: u32, patch: seq<byte>)
    requires Delta.SlotBase(addr) && |patch| <= SLOT_SIZE
    ensures Delta.StoredPatch(Splice(m, addr + SLOT_SIZE - |patch| - FLASH_BASE, patch), addr, |patch|) == patch
  {
  }

  lemma PatchEnds(w: Platform, d: Device, m: Memory, f: Frame)
    requires SessionOk(d.session) && d.session.active && d.session.written == d.session.total && f.op == OP_END
    requires Reconstructs(w, d, m, true, Delta.NoFaults(w.patcher.limit), d.faulty)
    requires Acceptable(w, m, d.session.slotAddr)
    ensures Takes(w, d, f, d.(mem := m, sram := PENDING))
  {
    hide Acceptable, Reconstructs, HandlesStart, HandlesStartDelta, HandlesData;
  }

  /** Sizes within the slot, a base with the digest, and a patch that makes this image of it. */
  predicate Patches(w: Platform, mem: Memory, patch: seq<byte>, digest: seq<byte>, image: seq<byte>) {
    && |digest| == 32 && 0 < |patch| && 512 <= |image| && |image| + |patch| <= 471_040
    && HasBase(w, mem, digest) && Makes(w, mem, patch, image)
  }

  /** And the image verifies and is permitted. */
  predicate Sendable(w: Platform, mem: Memory, patch: seq<byte>, digest: seq<byte>, image: seq<byte>) {
    && Patches(w, mem, patch, digest, image)
    && Permitted(w, PatchApplied(w, mem, patch, image), Target(w, mem))
  }

  /** push_delta, when nothing goes wrong. */
  lemma DeltaGoesThrough(w: Platform, patch: seq<byte>, digest: seq<byte>, image: seq<byte>, chunk: nat, d: Device)
    returns (run: seq<System>)
    requires d.session == IDLE && 0 < chunk <= 1024 && Sendable(w, d.mem, patch, digest, image)
    ensures GoesThrough(w, DeltaJob(patch, |image|, digest, chunk), d, run, PatchApplied(w, d.mem, patch, image))
  {
    hide Takes, GoesThrough, Target, Running, Erased, VerifySlot, Load, Floor, FirmwareImage.Version, SlotAt, Splice;
    hide JobOk, DeltaJob, TurnOk, Completed, InPhase, HasDigest, Delta.Patched, Delta.OldImage, DeltaScript.BaseFound;
    var job := DeltaJob(patch, |image|, digest, chunk);
    DeltaJobIs(patch, |image|, digest, chunk);
    var e := DeltaStartTaken(w, job, d);
    var m := PatchApplied(w, d.mem, patch, image);
    assert patch[..|patch|] == patch;
    TailStored(e.mem, e.session.slotAddr, patch);
    hide Delta.StoredPatch;
    forall next: u16 ensures EndTakes(w, job, e, m, next) {
      var full := DeviceAt(job, e, |patch|, next);
      assert full.mem == PatchStored(w, d.mem, patch);
      Reconstructed(w, full, m, patch, image);
      PatchEnds(w, full, m, Frame(OP_END, next, []));
    }
    run := StartThrough(w, job, d, e, m);
  }

  lemma DeltaJobIs(patch: seq<byte>, newTotal: u32, digest: seq<byte>, chunk: nat)
    requires |patch| < 0x1_0000_0000 && |digest| == 32
    ensures var job := DeltaJob(patch, newTotal, digest, chunk);
      job.start.op == OP_START_DELTA && job.blob == patch && job.chunk == chunk && NewTotal(job) == newTotal
      && BaseDigest(job) == digest
  {
  }

  /** Applying it spares the configuration and what the running slot still holds. */
  lemma PatchKeepsRest(w: Platform, mem: Memory, patch: seq<byte>, image: seq<byte>)
    requires TargetAway(w, mem) && |patch| <= SLOT_SIZE && |image| <= SLOT_SIZE && Running(w, mem) != Target(w, mem)
    ensures var m := PatchApplied(w, mem, patch, image);
      && Load(w.trust, m) == Load(w.trust, mem) && image <= SlotAt(m, Target(w, mem))
      && Delta.OldImage(m, Running(w, mem)) == Delta.OldImage(PatchStored(w, mem, patch), Running(w, mem))
  {
    hide Load, Target, Running, AwayFromConfig, Erased, Splice, Delta.OldImage, SlotAt, ConfigAt;
    var target, m0, m := Target(w, mem), PatchStored(w, mem, patch), PatchApplied(w, mem, patch, image);
    var e := Erased(w.g, mem, target, target + SLOT_SIZE);
    EraseSparesConfig(w.g, mem, target);
    SpliceSparesRest(e, target, SLOT_SIZE - |patch|, patch);
    SpliceSparesRest(m0, target, 0, image);
    BootRuns.LoadOfSameRecord(w.trust, mem, m);
    SameOldImage(m0, m, Running(w, mem));
  }

  lemma EraseSparesConfig(g: Geometry, mem: Memory, target: u32)
    requires Delta.SlotBase(target) && AwayFromConfig(g, target)
    ensures ConfigAt(Erased(g, mem, target, target + SLOT_SIZE)) == ConfigAt(mem)
  {
  }

  /** Writing into a slot changes nothing outside it. */
  lemma SpliceSparesRest(m: Memory, target: u32, off: nat, data: seq<byte>)
    requires Delta.SlotBase(target) && off + |data| <= SLOT_SIZE
    ensures var m' := Splice(m, target + off - FLASH_BASE, data);
      && ConfigAt(m') == ConfigAt(m)
      && (forall addr :: Delta.SlotBase(addr) && addr != target ==> SlotAt(m', addr) == SlotAt(m, addr))
      && (off == 0 ==> data <= SlotAt(m', target))
  {
  }

  lemma SameOldImage(m: Memory, m': Memory, addr: u32)
    requires Delta.SlotBase(addr) && SlotAt(m, addr) == SlotAt(m', addr)
    ensures Delta.OldImage(m, addr) == Delta.OldImage(m', addr)
  {
    hide Delta.LogicalTotal;
    EndToEnd.HeadOfSlot(m, m', addr, HEADER_SIZE);
    forall n: nat | n <= SLOT_SIZE ensures Stretch(m, addr, n) == Stretch(m', addr, n) {
      EndToEnd.HeadOfSlot(m, m', addr, n);
    }
  }

  /** The same for a delta whose pure patch, applied to the image in the running slot, gives such a payload. */
  lemma SignedDeltaGoesThrough(w: Platform, img: FirmwareImage.Image, r: nat, s: nat, patch: seq<byte>,
                               digest: seq<byte>, blob: seq<byte>, chunk: nat, d: Device)
    returns (run: seq<System>, e: Device)
    requires d.session == IDLE && !d.faulty && 0 < chunk <= 1024 && MayUpdate(w, d.mem, img, r, s, blob)
    requires Patches(w, d.mem, patch, digest, blob)
    ensures GoesThrough(w, DeltaJob(patch, |blob|, digest, chunk), d, run, PatchApplied(w, d.mem, patch, blob))
    ensures run[|run| - 1].net.done == Some(e)
    ensures Updated(w, d.mem, img, EndToEnd.NextBoot(w, e))
  {
    hide Load, Target, Running, VerifySlot, FirmwareImage.Version, AwayFromConfig, Floor, SlotAt, KeyOk, PatchApplied;
    hide GoesThrough, DeltaJob, JobOk, EndToEnd.BuiltAndSigned, Updated, PatchStored, Delta.Patched, Delta.OldImage;
    hide HasBase, DeltaScript.BaseFound;
    PatchKeepsRest(w, d.mem, patch, blob);
    var m, target := PatchApplied(w, d.mem, patch, blob), Target(w, d.mem);
    BlobVerifies(w.trust, img, r, s, blob, SlotAt(m, target));
    run := DeltaGoesThrough(w, patch, digest, blob, chunk, d);
    var job := DeltaJob(patch, |blob|, digest, chunk);
    DeltaJobIs(patch, |blob|, digest, chunk);
    e := AtTheEnd(w, job, d, run, m);
    RebootedDelta(w, job, d, e, blob, img, r, s);
  }

  lemma RebootedDelta(w: Platform, job: Job, d: Device, e: Device, blob: seq<byte>, img: FirmwareImage.Image, r: nat,
                      s: nat)
    requires JobOk(job) && job.start.op == OP_START_DELTA && Completed(w, job, e) && TargetAway(w, d.mem) && !e.faulty
    requires Load(w.trust, e.mem) == Load(w.trust, d.mem) && Running(w, d.mem) != Target(w, d.mem)
    requires e.session.slotAddr == Target(w, d.mem) && e.session.kind == Patch
    requires e.session.activeBase == Running(w, d.mem) && NewTotal(job) == |blob|
    requires Delta.Patched(w.patcher, job.blob, Delta.OldImage(e.mem, Running(w, d.mem)), |blob|)
          == Delta.Outcome(true, blob)
    requires EndToEnd.BuiltAndSigned(w.trust, img, r, s, blob)
    ensures Updated(w, d.mem, img, EndToEnd.NextBoot(w, e))
  {
    hide Load, AwayFromConfig, JobOk, Completed, SlotAt;
    hide EndToEnd.NextBoot, EndToEnd.HoldsPayload, EndToEnd.BuiltAndSigned;
    hide Delta.Patched, Delta.OldImage;
    assert Apart(w, e.mem);
    assert EndToEnd.ReadyToSwap(w, e);
    EndToEnd.SignedDeltaRuns(w, job, e, blob, img, r, s);
  }
}
