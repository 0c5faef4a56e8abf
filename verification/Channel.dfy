/**
 The link between the host and the receiver: a FIFO of frames that can be lost or
 damaged, and a FIFO of responses that can be lost or late but not altered. A protocol
 invariant ties the frames in flight, the answers in flight and the receiver together,
 and every step of the link keeps it.
 */
module Channel {
  import opened Bytes
  import opened Layout
  import opened Flash
  import opened Crypto
  import opened BootConfig
  import opened Frame
  import opened OtaClient
  import opened Transfers
  import BootRuns
  import Delta

  /**
   The receiver is away once it accepted an END, and reboots, or was sent an ABORT. `done`
   remembers the device as it was when it accepted an END.
   */
  datatype Net = Net(device: Device, queue: seq<Frame>, responses: seq<Response>, away: bool, done: Option<Device>)

  function Without<T>(s: seq<T>, i: nat): seq<T>
    requires i < |s|
  {
    s[..i] + s[i + 1..]
  }

  // ----- What can happen on the link ----------------------------------------------------

  ghost predicate FrameLost(n: Net, n': Net) {
    exists i :: 0 <= i < |n.queue| && n' == n.(queue := Without(n.queue, i))
  }

  ghost predicate ResponseLost(n: Net, n': Net) {
    exists i :: 0 <= i < |n.responses| && n' == n.(responses := Without(n.responses, i))
  }

  /** The reader reports a bad checksum, and the receiver answers with sequence number 0. */
  predicate FrameDamaged(n: Net, n': Net) {
    n.queue != [] && !n.away
    && n' == n.(queue := n.queue[1..], responses := n.responses + [Response(NAK, 0)])
  }

  function Answer(f: Frame, ok: bool): Response {
    Response(if ok then ACK else NAK, f.seqNo)
  }

  /** The answers on the link are the bytes the receive loop sends. */
  lemma AnswersAreReplies(e: Event)
    ensures ResponseBytes(Answer(e.frame, e.ok)) == Reply(Handled(e))
    ensures ResponseBytes(Answer(e.frame, true)) == Reply(Aborted(e.frame.seqNo))
    ensures ResponseBytes(Response(NAK, 0)) == Reply(Damaged)
  {
  }

  /** Any frame but ABORT is handled and answered. */
  ghost predicate Delivered(w: Platform, n: Net, n': Net) {
    && n.queue != [] && !n.away && n.queue[0].op != OP_ABORT && SessionOk(n.device.session)
    && exists ok ::
         && Handles(w, n.device, n.queue[0], n'.device, ok)
         && n'.queue == n.queue[1..] && n'.responses == n.responses + [Answer(n.queue[0], ok)]
         && n'.away == (ok && n.queue[0].op == OP_END)
         && n'.done == if n'.away then Some(n'.device) else n.done
  }

  /** An ABORT is acknowledged, and the receiver leaves without touching anything. */
  predicate Abandoned(n: Net, n': Net) {
    && n.queue != [] && !n.away && n.queue[0].op == OP_ABORT
    && n' == n.(queue := n.queue[1..], responses := n.responses + [Answer(n.queue[0], true)], away := true)
  }

  /**
   The receiver gave up or left, or the device was reset; afterwards, perhaps after any
   number of boots, it listens again with an idle session. Flash and SRAM can be anything
   then.
   */
  predicate Restarted(n: Net, n': Net) {
    n' == n.(device := n'.device, away := false) && n'.device.session == IDLE
  }

  ghost predicate EnvStep(w: Platform, n: Net, n': Net) {
    || n' == n || FrameLost(n, n') || ResponseLost(n, n') || FrameDamaged(n, n')
    || Delivered(w, n, n') || Abandoned(n, n') || Restarted(n, n')
  }

  // ----- The transfer in progress ----------------------------------------------------------

  /** A START frame, the bytes to send after it (an image, or a patch), and how many at a time. */
  datatype Job = Job(start: Frame, blob: seq<byte>, chunk: nat)

  predicate JobOk(job: Job) {
    && (job.start.op == OP_START || job.start.op == OP_START_DELTA)
    && |job.start.data| >= (if job.start.op == OP_START then 4 else START_DELTA_BYTES)
    && U32(job.start.data[0..4]) == |job.blob| && |job.start.data| <= MAX_DATA
  }

  function KindOf(job: Job): Kind {
    if job.start.op == OP_START_DELTA then Patch else Whole
  }

  /** The frame being sent, the one before it, and how much of the blob was acknowledged. */
  datatype Turn = Turn(prev: Option<Frame>, cur: Frame, sent: nat)

  predicate TurnOk(job: Job, turn: Turn) {
    && turn.sent <= |job.blob|
    && (turn.prev.None? ==> turn.cur == job.start && turn.sent == 0)
    && (turn.prev.Some? ==>
          && (turn.prev.value.op == OP_DATA || (turn.prev.value == job.start && turn.sent == 0))
          && turn.cur.seqNo == NextSeq(turn.prev.value.seqNo)
          && if turn.cur.op == OP_DATA then
               && |turn.cur.data| <= job.chunk && turn.sent + |turn.cur.data| <= |job.blob|
               && turn.cur.data == job.blob[turn.sent..turn.sent + |turn.cur.data|]
             else turn.cur.op == OP_END && turn.cur.data == [] && turn.sent == |job.blob|)
  }

  /** How much the receiver has stored once it took the current frame. */
  function After(turn: Turn): nat {
    if turn.cur.op == OP_DATA then turn.sent + |turn.cur.data| else turn.sent
  }

  /** The session is aimed at the inactive slot, and a delta's base comes from an image with the digest asked for. */
  ghost predicate Aimed(w: Platform, job: Job, d: Device)
    requires JobOk(job)
  {
    Aimable(w, d) ==>
      && OnTarget(w, d)
      && (KindOf(job) == Patch && BaseKnown(w, d) ==> Descends(w, d.mem, BaseDigest(job)))
  }

  /** The slots are told apart, and erasing the inactive one spares the other or no flash operation has failed. */
  predicate BaseKnown(w: Platform, d: Device) {
    Apart(w, d.mem) && (!d.faulty || RunningSpared(w, d.mem))
  }

  predicate Apart(w: Platform, mem: Memory) {
    BootRuns.WellFormed(Load(w.trust, mem).cfg)
  }

  /** The running slot holds what erasing the inactive one left of an image with this digest. */
  ghost predicate Descends(w: Platform, mem: Memory, digest: seq<byte>) {
    exists s: Slot :: LeftOf(w, mem, s, digest)
  }

  predicate LeftOf(w: Platform, mem: Memory, s: Slot, digest: seq<byte>) {
    var base, target := Running(w, mem), Target(w, mem);
    HasDigest(s, digest) && SlotAt(mem, base) == SlotAfterErase(w.g, s, base, target, target + SLOT_SIZE)
  }

  /** The size of the new image a delta job asks for. */
  function NewTotal(job: Job): u32
    requires JobOk(job) && KindOf(job) == Patch
  {
    U32(job.start.data[4..8])
  }

  /** The digest of the old image a delta job asks for. */
  function BaseDigest(job: Job): (d: seq<byte>)
    requires JobOk(job) && KindOf(job) == Patch
    ensures |d| == 32
  {
    job.start.data[8..40]
  }

  /** An open session with this job's parameters. */
  predicate OfJob(job: Job, s: Session)
    requires JobOk(job)
  {
    && SessionOk(s) && s.active && s.kind == KindOf(job) && s.total == |job.blob|
    && (s.kind == Patch ==> s.expectedNew == NewTotal(job))
  }

  /** The session is this job's: it stores the first `written` bytes and expects `next`. */
  ghost predicate Holds(w: Platform, job: Job, d: Device, written: nat, next: u16)
    requires JobOk(job)
  {
    && OfJob(job, d.session) && d.session.written == written <= |job.blob| && d.session.expectedSeq == next
    && Stored(d) == job.blob[..written] && Aimed(w, job, d)
  }

  ghost predicate Before(w: Platform, job: Job, turn: Turn, d: Device)
    requires JobOk(job)
  {
    d.session.active ==> if turn.prev.None? then SessionOk(d.session) else Holds(w, job, d, turn.sent, turn.cur.seqNo)
  }

  /** The current frame has been taken; an END leaves the session as it is. */
  ghost predicate Taken(w: Platform, job: Job, turn: Turn, d: Device)
    requires JobOk(job)
  {
    turn.cur.op != OP_END && (d.session.active ==> Holds(w, job, d, After(turn), NextSeq(turn.cur.seqNo)))
  }

  // ----- The invariant ---------------------------------------------------------------------

  predicate NoPrev(turn: Turn, queue: seq<Frame>) {
    forall i :: 0 <= i < |queue| ==> queue[i] == turn.cur
  }

  /** A frame from before the transfer, of any kind, but not numbered like the START. */
  predicate Leftover(turn: Turn, f: Frame) {
    turn.prev == None && f.seqNo != turn.cur.seqNo
  }

  /** Leftovers or copies of the previous frame, then copies of the current one. */
  predicate Queued(turn: Turn, queue: seq<Frame>) {
    && (forall i :: 0 <= i < |queue| ==> queue[i] == turn.cur || Some(queue[i]) == turn.prev || Leftover(turn, queue[i]))
    && (forall i, j :: 0 <= i < j < |queue| && queue[i] == turn.cur ==> queue[j] == turn.cur)
  }

  function Acked(turn: Turn): Response {
    Response(ACK, turn.cur.seqNo)
  }

  /** An acknowledgement that is not for the current frame: for the previous one, or left over. */
  predicate Older(turn: Turn, r: Response) {
    r.seqNo != turn.cur.seqNo && (turn.prev.Some? ==> r.seqNo == turn.prev.value.seqNo)
  }

  /** Acknowledgements in flight are older ones, then ones for the current frame. */
  predicate Answered(turn: Turn, responses: seq<Response>) {
    && (forall i :: 0 <= i < |responses| && responses[i].code == ACK ==>
          responses[i] == Acked(turn) || Older(turn, responses[i]))
    && (forall i, j :: 0 <= i < j < |responses| && responses[i] == Acked(turn) && responses[j].code == ACK ==>
          responses[j] == Acked(turn))
  }

  /** What an acknowledgement of the current frame stands for. */
  ghost predicate Accepted(w: Platform, job: Job, turn: Turn, n: Net)
    requires JobOk(job)
  {
    && NoPrev(turn, n.queue) && (turn.cur.op == OP_DATA ==> turn.cur.data != [])
    && if turn.cur.op == OP_END then n.done.Some? && Completed(w, job, n.done.value) else Taken(w, job, turn, n.device)
  }

  ghost predicate Inv(w: Platform, job: Job, turn: Turn, n: Net)
    requires JobOk(job)
  {
    && TurnOk(job, turn) && SessionOk(n.device.session)
    && Queued(turn, n.queue) && Answered(turn, n.responses)
    && (Before(w, job, turn, n.device) || (NoPrev(turn, n.queue) && Taken(w, job, turn, n.device)))
    && (Acked(turn) in n.responses ==> Accepted(w, job, turn, n))
  }

  // ----- What a completed transfer means -----------------------------------------------------

  /** The device as it accepted END: pending, and its slot holds what the job was for. */
  ghost predicate Completed(w: Platform, job: Job, d: Device)
    requires JobOk(job)
  {
    && Finished(job, d.session) && d.sram == PENDING && Acceptable(w, d.mem, d.session.slotAddr)
    && (Aimable(w, d) ==> OnTarget(w, d)) && Transferred(w, job, d)
  }

  ghost predicate Transferred(w: Platform, job: Job, d: Device)
    requires JobOk(job) && Finished(job, d.session)
  {
    if KindOf(job) == Whole then Stretch(d.mem, d.session.slotAddr, |job.blob|) == job.blob
    else SlotRebuilt(w, job, d) && (Aimable(w, d) && BaseKnown(w, d) ==> Descends(w, d.mem, BaseDigest(job)))
  }

  /** The slot starts with what the patch makes of the image in the other one. */
  ghost predicate SlotRebuilt(w: Platform, job: Job, d: Device)
    requires JobOk(job) && KindOf(job) == Patch && Finished(job, d.session)
  {
    var s := d.session;
    s.activeBase != s.slotAddr ==>
      Rebuilt(w, job, Stretch(d.mem, s.slotAddr, s.expectedNew), Delta.OldImage(d.mem, s.activeBase), d.faulty)
  }

  predicate Finished(job: Job, s: Session)
    requires JobOk(job)
  {
    OfJob(job, s) && s.written == s.total
  }

  /**
   The image is what the patcher makes of the host's patch and of the old image; when no
   flash operation has failed, it is the pure patch.
   */
  ghost predicate Rebuilt(w: Platform, job: Job, image: seq<byte>, oldImg: seq<byte>, faulty: bool) {
    exists faults: seq<bool> :: RebuiltFrom(w, job, image, oldImg, faulty, faults)
  }

  predicate RebuiltFrom(w: Platform, job: Job, image: seq<byte>, oldImg: seq<byte>, faulty: bool, faults: seq<bool>) {
    && Delta.Applied(w.patcher, job.blob, oldImg, |image|, faults) == Delta.Outcome(true, image)
    && (!faulty ==> Delta.Patched(w.patcher, job.blob, oldImg, |image|) == Delta.Outcome(true, image))
  }

  // ----- What a frame does to the aim ----------------------------------------------------------

  /** Outside of an accepted START, a frame leaves the base of a delta alone. */
  lemma BaseKept(w: Platform, d: Device, f: Frame, d': Device, ok: bool)
    requires SessionOk(d.session) && Handles(w, d, f, d', ok) && (IsStart(f) ==> !ok) && OnTarget(w, d)
    requires Aimable(w, d') && BaseKnown(w, d')
    ensures BaseKnown(w, d) && SlotAt(d'.mem, Running(w, d.mem)) == SlotAt(d.mem, Running(w, d.mem))
  {
    hide Handles, Aimable, Load, Target, Running, Separate, SessionOk, SlotAt;
    AimableBackwards(w, d, f, d', ok);
    if !IsStart(f) {
      ProgramsSpareBase(w, d, f, d', ok);
    } else if d'.faulty {
      FrameKeepsRunning(w, d, f, d', ok);
    } else {
      FaultsStay(w, d, f, d', ok);
    }
  }

  lemma ProgramsSpareBase(w: Platform, d: Device, f: Frame, d': Device, ok: bool)
    requires SessionOk(d.session) && Handles(w, d, f, d', ok) && !IsStart(f) && OnTarget(w, d) && Apart(w, d.mem)
    ensures SlotAt(d'.mem, Running(w, d.mem)) == SlotAt(d.mem, Running(w, d.mem))
  {
    hide Handles, Load, Target, Running, SessionOk, SlotAt;
    RunningApart(w, d.mem);
    ProgramsSpareOther(w, d, f, d', ok, Running(w, d.mem));
  }

  /** DATA and END leave the other slot alone. */
  lemma ProgramsSpareOther(w: Platform, d: Device, f: Frame, d': Device, ok: bool, addr: u32)
    requires SessionOk(d.session) && Handles(w, d, f, d', ok) && !IsStart(f)
    requires Delta.SlotBase(addr) && (d.session.active ==> addr != d.session.slotAddr)
    ensures SlotAt(d'.mem, addr) == SlotAt(d.mem, addr)
  {
    hide Handles, SlotAt, WrittenOnly, Stretch;
    if d.session.active {
      ProgramsStayInSlot(w, d, f, d', ok);
      WrittenSpares(d.mem, d'.mem, d.session.slotAddr, SLOT_SIZE, addr, SLOT_SIZE);
      SlotIsStretch(d.mem, d'.mem, addr);
    } else {
      IdleRejects(w, d, f, d', ok);
    }
  }

  lemma DescendsKept(w: Platform, m: Memory, m': Memory, digest: seq<byte>)
    requires Running(w, m') == Running(w, m) && Target(w, m') == Target(w, m)
    requires SlotAt(m', Running(w, m)) == SlotAt(m, Running(w, m)) && Descends(w, m, digest)
    ensures Descends(w, m', digest)
  {
    hide Running, Target, SlotAt, HasDigest, SlotAfterErase;
    var s: Slot :| LeftOf(w, m, s, digest);
    assert LeftOf(w, m', s, digest);
  }

  /** A frame other than an accepted START keeps an open session's aim. */
  lemma AimKept(w: Platform, job: Job, d: Device, f: Frame, d': Device, ok: bool)
    requires JobOk(job) && SessionOk(d.session) && Handles(w, d, f, d', ok) && d.session.active && Aimed(w, job, d)
    requires IsStart(f) ==> !ok
    requires d'.session.active && d'.session.slotAddr == d.session.slotAddr
    requires d'.session.kind == d.session.kind && d'.session.activeBase == d.session.activeBase
    ensures Aimed(w, job, d')
  {
    hide Handles, Aimable, BaseKnown, Descends, Target, Running, SlotAt;
    if Aimable(w, d') {
      AimableBackwards(w, d, f, d', ok);
      if KindOf(job) == Patch && BaseKnown(w, d') {
        BaseKept(w, d, f, d', ok);
        DescendsKept(w, d.mem, d'.mem, BaseDigest(job));
      }
    }
  }

  /** An accepted START of the job opens a session of the job, aimed at the inactive slot. */
  lemma StartOpens(w: Platform, job: Job, d: Device, d': Device)
    requires JobOk(job) && SessionOk(d.session) && Handles(w, d, job.start, d', true)
    ensures Holds(w, job, d', 0, NextSeq(job.start.seqNo))
  {
    hide Handles, Target, Running, BaseMatches, Erased, Aimed, Stored, U32;
    HandlesKeepsSession(w, d, job.start, d', true);
    StartAims(w, job, d, d');
    HandlesByOpcode(w, d, job.start, d', true);
    StartStores(w, job, d, d');
  }

  lemma StartStores(w: Platform, job: Job, d: Device, d': Device)
    requires JobOk(job) && SessionOk(d.session) && Handles(w, d, job.start, d', true) && SessionOk(d'.session)
    ensures d'.session.active && Stored(d') == job.blob[..0]
  {
    hide SessionOk, Stored, Handles;
    StartStep(w, Event(d, job.start, d', true));
  }

  lemma StartAims(w: Platform, job: Job, d: Device, d': Device)
    requires JobOk(job) && SessionOk(d.session) && Handles(w, d, job.start, d', true)
    ensures Aimed(w, job, d')
  {
    hide Handles, Aimable, BaseKnown, Descends, Erased, Target, Running, BaseMatches, U32;
    HandlesByOpcode(w, d, job.start, d', true);
    if Aimable(w, d') {
      AimableBackwards(w, d, job.start, d', true);
      if KindOf(job) == Patch { StartDescends(w, job, d, d'); }
    }
  }

  /** An accepted START_DELTA checked the digest, and then erased. */
  lemma StartDescends(w: Platform, job: Job, d: Device, d': Device)
    requires JobOk(job) && KindOf(job) == Patch && HandlesStartDelta(w, d, job.start, d', true)
    requires Target(w, d'.mem) == Target(w, d.mem) && Running(w, d'.mem) == Running(w, d.mem)
    ensures Descends(w, d'.mem, BaseDigest(job))
  {
    hide Erased, Target, Running, HasDigest, SlotAt, SlotAfterErase, DeltaSession, DeltaInRange;
    var base, target := Running(w, d.mem), Target(w, d.mem);
    SlotErased(w.g, d.mem, base, target, target + SLOT_SIZE);
    assert LeftOf(w, d'.mem, SlotAt(d.mem, base), BaseDigest(job));
  }

  // ----- What each frame does to the session ---------------------------------------------------

  lemma NextDiffers(n: u16)
    ensures NextSeq(n) != n
  {
  }

  /** A rejected frame that opens a transfer leaves the session, and what a fresh one stores, alone. */
  lemma StartRejected(w: Platform, job: Job, d: Device, d': Device, next: u16)
    requires JobOk(job) && SessionOk(d.session) && Handles(w, d, job.start, d', false)
    ensures d'.session == d.session
    ensures Holds(w, job, d, 0, next) ==> Holds(w, job, d', 0, next)
  {
    StartRejectedSession(w, job, d, d');
    hide Handles, Aimed;
    if Holds(w, job, d, 0, next) { AimKept(w, job, d, job.start, d', false); }
  }

  lemma StartRejectedSession(w: Platform, job: Job, d: Device, d': Device)
    requires JobOk(job) && SessionOk(d.session) && Handles(w, d, job.start, d', false)
    ensures d'.session == d.session
  {
    hide Handles, SessionOk;
    StartSession(w, d, job.start, d', false);
  }

  /** A DATA frame with the expected number is stored or rejected; with another number it does nothing. */
  lemma DataStep(w: Platform, job: Job, d: Device, f: Frame, d': Device, ok: bool, written: nat, next: u16)
    requires JobOk(job) && Holds(w, job, d, written, next) && f.op == OP_DATA && Handles(w, d, f, d', ok)
    requires f.seqNo == next ==> written + |f.data| <= |job.blob| && f.data == job.blob[written..written + |f.data|]
    ensures ok ==> f.seqNo == next && Holds(w, job, d', written + |f.data|, NextSeq(next))
    ensures !ok ==> Holds(w, job, d', written, next)
    ensures f.seqNo != next ==> !ok
  {
    hide Handles, HandlesData, Aimed, Stored, SessionOk;
    DataExtends(w, d, f, d', ok);
    HandlesByOpcode(w, d, f, d', ok);
    DataCounters(d, f, d', ok);
    HandlesKeepsSession(w, d, f, d', ok);
    AimKept(w, job, d, f, d', ok);
    if ok {
      assert job.blob[..written] + f.data == job.blob[..written + |f.data|];
    } else {
      assert Stored(d) + [] == Stored(d);
    }
  }

  lemma DataCounters(d: Device, f: Frame, d': Device, ok: bool)
    requires SessionOk(d.session) && d.session.active && HandlesData(d, f, d', ok)
    ensures ok ==> f.seqNo == d.session.expectedSeq && d'.session.expectedSeq == NextSeq(d.session.expectedSeq)
    ensures ok ==> d'.session.written == d.session.written + |f.data|
    ensures d'.session.(written := d.session.written, expectedSeq := d.session.expectedSeq) == d.session
    ensures !ok ==> d'.session == d.session
  {
    hide Splice, WrittenOnly;
  }

  /** An END that is accepted completes the job; any other leaves the session to be tried again. */
  lemma EndStep(w: Platform, job: Job, d: Device, f: Frame, d': Device, ok: bool, next: u16)
    requires JobOk(job) && Holds(w, job, d, |job.blob|, next) && f.op == OP_END && Handles(w, d, f, d', ok)
    ensures Holds(w, job, d', |job.blob|, next)
    ensures ok ==> Completed(w, job, d')
  {
    hide Handles, Aimed, Stored, Completed, SessionOk;
    EndKeepsStored(w, d, f, d', ok);
    AimKept(w, job, d, f, d', ok);
    if ok { EndCompletes(w, job, d, f, d', next); }
  }

  lemma EndCompletes(w: Platform, job: Job, d: Device, f: Frame, d': Device, next: u16)
    requires JobOk(job) && Holds(w, job, d, |job.blob|, next) && f.op == OP_END && Handles(w, d, f, d', true)
    requires Holds(w, job, d', |job.blob|, next)
    ensures Completed(w, job, d')
  {
    hide Handles, Acceptable, Aimable, BaseKnown, Descends, OnTarget, SlotRebuilt, Stretch, SessionOk;
    EndAccepts(w, d, f, d');
    assert Finished(job, d'.session);
    WholeStored(job, d');
    if KindOf(job) == Patch { EndRebuilds(w, job, d, f, d', next); }
  }

  lemma WholeStored(job: Job, d: Device)
    requires JobOk(job) && Finished(job, d.session) && Stored(d) == job.blob[..|job.blob|]
    ensures KindOf(job) == Whole ==> Stretch(d.mem, d.session.slotAddr, |job.blob|) == job.blob
  {
    hide Stretch;
    assert job.blob[..|job.blob|] == job.blob;
  }

  lemma EndAccepts(w: Platform, d: Device, f: Frame, d': Device)
    requires SessionOk(d.session) && Handles(w, d, f, d', true) && f.op == OP_END
    ensures d.session.active && d'.session == d.session && d.session.written == d.session.total
    ensures d'.sram == PENDING && Acceptable(w, d'.mem, d.session.slotAddr)
  {
    hide Handles, Acceptable, Reconstructs;
    HandlesByOpcode(w, d, f, d', true);
  }

  /** The base that was hashed is the old image the patch is applied to. */
  lemma BaseIsOldImage(m: Memory, addr: u32)
    requires Delta.SlotBase(addr) && Delta.BaseRegion(SlotAt(m, addr)).Some?
    ensures Delta.BaseRegion(SlotAt(m, addr)) == Some(Delta.OldImage(m, addr))
  {
    var s, hdr := SlotAt(m, addr), Stretch(m, addr, HEADER_SIZE);
    SliceOfSlice(m, addr - FLASH_BASE, SLOT_SIZE, 0, HEADER_SIZE);
    assert hdr == s[0..HEADER_SIZE];
    SliceOfSlice(s, 0, HEADER_SIZE, 8, 12);
    SliceOfSlice(m, addr - FLASH_BASE, SLOT_SIZE, 0, Delta.LogicalTotal(s));
  }

  /** What END hands to the patcher. */
  lemma DeltaInputs(w: Platform, job: Job, d: Device, next: u16)
    requires JobOk(job) && KindOf(job) == Patch && Holds(w, job, d, |job.blob|, next)
    ensures Finished(job, d.session) && Delta.StoredPatch(d.mem, d.session.slotAddr, d.session.total) == job.blob
  {
    hide Aimed, Stretch;
    assert job.blob[..|job.blob|] == job.blob;
  }

  /** The old image is a function of the bytes of its slot. */
  lemma OldImageOfSlot(m: Memory, m': Memory, addr: u32)
    requires Delta.SlotBase(addr) && SlotAt(m, addr) == SlotAt(m', addr)
    ensures Delta.OldImage(m, addr) == Delta.OldImage(m', addr)
  {
    var hdr, hdr' := Stretch(m, addr, HEADER_SIZE), Stretch(m', addr, HEADER_SIZE);
    SliceOfSlice(m, addr - FLASH_BASE, SLOT_SIZE, 0, HEADER_SIZE);
    SliceOfSlice(m', addr - FLASH_BASE, SLOT_SIZE, 0, HEADER_SIZE);
    var n := Delta.LogicalTotal(hdr);
    if n <= SLOT_SIZE {
      SliceOfSlice(m, addr - FLASH_BASE, SLOT_SIZE, 0, n);
      SliceOfSlice(m', addr - FLASH_BASE, SLOT_SIZE, 0, n);
    }
  }

  lemma RefinesRebuilds(w: Platform, job: Job, d: Device, d': Device, faults: seq<bool>)
    requires JobOk(job) && KindOf(job) == Patch && Finished(job, d.session) && d'.session == d.session
    requires Delta.StoredPatch(d.mem, d.session.slotAddr, d.session.total) == job.blob
    requires var s := d.session; s.activeBase != s.slotAddr ==> SlotAt(d.mem, s.activeBase) == SlotAt(d'.mem, s.activeBase)
    requires var s := d.session;
      Delta.Refines(w.patcher, d.mem, d'.mem, s.activeBase, s.slotAddr, s.total, s.expectedNew, true, faults, !d'.faulty)
    ensures SlotRebuilt(w, job, d')
  {
    var s := d.session;
    hide SlotAt, Stretch, Delta.Applied, Delta.Patched, Delta.Applicable, Delta.StoredPatch, Delta.OldImage;
    if s.activeBase != s.slotAddr {
      OldImageOfSlot(d.mem, d'.mem, s.activeBase);
      var image := Stretch(d'.mem, s.slotAddr, s.expectedNew);
      assert RebuiltFrom(w, job, image, Delta.OldImage(d.mem, s.activeBase), d'.faulty, faults);
    }
  }

  lemma EndSparesBase(w: Platform, d: Device, f: Frame, d': Device)
    requires SessionOk(d.session) && d.session.active && d.session.kind == Patch
    requires f.op == OP_END && Handles(w, d, f, d', true)
    ensures var s := d.session; s.activeBase != s.slotAddr ==> SlotAt(d.mem, s.activeBase) == SlotAt(d'.mem, s.activeBase)
  {
    hide Handles, SlotAt;
    if d.session.activeBase != d.session.slotAddr { ProgramsSpareOther(w, d, f, d', true, d.session.activeBase); }
  }

  lemma EndFaults(w: Platform, d: Device, d': Device) returns (faults: seq<bool>)
    requires SessionOk(d.session) && d.session.active && d.session.kind == Patch && HandlesEnd(w, d, d', true)
    ensures var s := d.session;
      Delta.Refines(w.patcher, d.mem, d'.mem, s.activeBase, s.slotAddr, s.total, s.expectedNew, true, faults, !d'.faulty)
  {
    hide Delta.Refines, Acceptable, WrittenOnly, Delta.AnyFault;
    faults :| Reconstructs(w, d, d'.mem, true, faults, d'.faulty);
  }

  /** An accepted delta END leaves in the slot what the patcher makes of the host's patch and of the other slot's image. */
  lemma EndRebuilds(w: Platform, job: Job, d: Device, f: Frame, d': Device, next: u16)
    requires JobOk(job) && KindOf(job) == Patch && Holds(w, job, d, |job.blob|, next)
    requires f.op == OP_END && Handles(w, d, f, d', true) && Finished(job, d'.session)
    ensures SlotRebuilt(w, job, d')
  {
    hide Handles, HandlesEnd, Aimed, Stored, SlotAt, Stretch, Delta.Refines, Delta.StoredPatch, SlotRebuilt, Delta.SlotBase;
    EndAccepts(w, d, f, d');
    DeltaInputs(w, job, d, next);
    EndSparesBase(w, d, f, d');
    HandlesByOpcode(w, d, f, d', true);
    var faults := EndFaults(w, d, d');
    RefinesRebuilds(w, job, d, d', faults);
  }

  /** The current frame arrives. */
  lemma CurStep(w: Platform, job: Job, turn: Turn, d: Device, d': Device, ok: bool)
    requires JobOk(job) && TurnOk(job, turn) && SessionOk(d.session) && Handles(w, d, turn.cur, d', ok)
    requires Before(w, job, turn, d) || Taken(w, job, turn, d)
    ensures turn.cur.op != OP_END && ok ==> Taken(w, job, turn, d')
    ensures turn.cur.op == OP_DATA && ok ==> turn.cur.data != []
    ensures !ok && Before(w, job, turn, d) ==> Before(w, job, turn, d')
    ensures !ok && Taken(w, job, turn, d) ==> Taken(w, job, turn, d')
    ensures turn.cur.op == OP_END && ok ==> Before(w, job, turn, d') && Completed(w, job, d')
  {
    hide Handles, Holds, JobOk, SessionOk, Completed;
    EmptyDataRejected(w, d, turn.cur, d', ok);
    if turn.prev.None? {
      CurIsStart(w, job, turn, d, d', ok);
    } else if !d.session.active {
      IdleRejects(w, d, turn.cur, d', ok);
    } else if turn.cur.op == OP_DATA {
      NextDiffers(turn.cur.seqNo);
      if Before(w, job, turn, d) {
        DataStep(w, job, d, turn.cur, d', ok, turn.sent, turn.cur.seqNo);
      }
      if Taken(w, job, turn, d) {
        DataStep(w, job, d, turn.cur, d', ok, After(turn), NextSeq(turn.cur.seqNo));
      }
    } else {
      EndStep(w, job, d, turn.cur, d', ok, turn.cur.seqNo);
    }
  }

  lemma EmptyDataRejected(w: Platform, d: Device, f: Frame, d': Device, ok: bool)
    requires SessionOk(d.session) && Handles(w, d, f, d', ok)
    ensures ok && f.op == OP_DATA ==> f.data != []
  {
    hide Handles, Splice, WrittenOnly;
    HandlesByOpcode(w, d, f, d', ok);
  }

  lemma CurIsStart(w: Platform, job: Job, turn: Turn, d: Device, d': Device, ok: bool)
    requires JobOk(job) && TurnOk(job, turn) && turn.prev.None?
    requires SessionOk(d.session) && Handles(w, d, turn.cur, d', ok)
    ensures turn.cur.op != OP_END && SessionOk(d'.session) && Before(w, job, turn, d')
    ensures ok || Taken(w, job, turn, d) ==> Taken(w, job, turn, d')
  {
    hide Handles, Holds, JobOk, SessionOk;
    IsStartTurn(job, turn);
    HandlesKeepsSession(w, d, turn.cur, d', ok);
    if ok {
      StartOpens(w, job, d, d');
    } else {
      StartRejected(w, job, d, d', NextSeq(turn.cur.seqNo));
    }
  }

  lemma IsStartTurn(job: Job, turn: Turn)
    requires JobOk(job) && TurnOk(job, turn) && turn.prev.None?
    ensures turn.cur == job.start && turn.cur.op != OP_END && After(turn) == 0
  {
  }

  /** A late copy of the previous frame arrives. */
  lemma PrevStep(w: Platform, job: Job, turn: Turn, d: Device, d': Device, ok: bool)
    requires JobOk(job) && TurnOk(job, turn) && turn.prev.Some?
    requires SessionOk(d.session) && Handles(w, d, turn.prev.value, d', ok) && Before(w, job, turn, d)
    ensures Before(w, job, turn, d') && turn.prev.value.op != OP_END
  {
    var f := turn.prev.value;
    NextDiffers(f.seqNo);
    assert f.op != OP_END;
    if f.op != OP_DATA {
      hide Handles, Holds, JobOk;
      if ok {
        StartOpens(w, job, d, d');
      } else {
        StartRejected(w, job, d, d', turn.cur.seqNo);
      }
    } else if !d.session.active {
      hide Holds, JobOk;
      IdleRejects(w, d, f, d', ok);
    } else {
      hide Handles, Holds, JobOk;
      DataStep(w, job, d, f, d', ok, turn.sent, turn.cur.seqNo);
    }
  }

  // ----- The queues ----------------------------------------------------------------------

  lemma QueueShrinks(turn: Turn, q: seq<Frame>, i: nat)
    requires i < |q|
    ensures Queued(turn, q) ==> Queued(turn, Without(q, i))
    ensures NoPrev(turn, q) ==> NoPrev(turn, Without(q, i))
    ensures i == 0 ==> Without(q, i) == q[1..]
  {
  }

  lemma AnswersShrink(turn: Turn, r: seq<Response>, i: nat)
    requires i < |r|
    ensures Answered(turn, r) ==> Answered(turn, Without(r, i))
    ensures Acked(turn) in Without(r, i) ==> Acked(turn) in r
    ensures i == 0 ==> Without(r, i) == r[1..]
  {
  }

  lemma AnswersGrow(turn: Turn, r: seq<Response>, x: Response)
    requires Answered(turn, r)
    requires x.code == ACK && x != Acked(turn) ==> Older(turn, x) && Acked(turn) !in r
    ensures Answered(turn, r + [x])
    ensures Acked(turn) in r + [x] ==> Acked(turn) in r || x == Acked(turn)
  {
  }

  // ----- Every step keeps the invariant --------------------------------------------------------

  lemma DeliveryKeepsInv(w: Platform, job: Job, turn: Turn, n: Net, n': Net)
    requires JobOk(job) && Inv(w, job, turn, n) && Delivered(w, n, n')
    ensures Inv(w, job, turn, n')
  {
    hide Handles, Holds, Completed, Before, Taken, TurnOk, JobOk, Queued, NoPrev, Answered;
    var f, q := n.queue[0], n.queue[1..];
    var ok :| Handles(w, n.device, f, n'.device, ok) && n'.responses == n.responses + [Answer(f, ok)]
      && n'.away == (ok && f.op == OP_END);
    QueueShrinks(turn, n.queue, 0);
    HandlesKeepsSession(w, n.device, f, n'.device, ok);
    if f == turn.cur {
      HeadIsCur(turn, n.queue);
      CurStep(w, job, turn, n.device, n'.device, ok);
      AnswersGrow(turn, n.responses, Answer(f, ok));
      EndIsNeverTaken(w, job, turn, n.device);
    } else {
      HeadIsOlder(job, turn, n.queue);
      if turn.prev.Some? {
        PrevStep(w, job, turn, n.device, n'.device, ok);
      } else {
        BeforeStart(w, job, turn, n'.device);
      }
      AnswersGrow(turn, n.responses, Answer(f, ok));
    }
  }

  /** Only an ABORT left over from before the transfer can arrive, and none arrives behind the START. */
  lemma AbandonKeepsInv(w: Platform, job: Job, turn: Turn, n: Net, n': Net)
    requires JobOk(job) && Inv(w, job, turn, n) && Abandoned(n, n')
    ensures Inv(w, job, turn, n')
  {
    hide Holds, Completed, Before, Taken, TurnOk, JobOk, Queued, NoPrev, Answered, SessionOk;
    NoAbortSent(job, turn);
    var f := n.queue[0];
    QueueShrinks(turn, n.queue, 0);
    HeadIsOlder(job, turn, n.queue);
    AnswersGrow(turn, n.responses, Answer(f, true));
  }

  lemma NoAbortSent(job: Job, turn: Turn)
    requires JobOk(job) && TurnOk(job, turn)
    ensures turn.cur.op != OP_ABORT && (turn.prev.Some? ==> turn.prev.value.op != OP_ABORT)
  {
  }

  lemma BeforeStart(w: Platform, job: Job, turn: Turn, d: Device)
    requires JobOk(job) && turn.prev.None? && SessionOk(d.session)
    ensures Before(w, job, turn, d)
  {
  }

  lemma EndIsNeverTaken(w: Platform, job: Job, turn: Turn, d: Device)
    requires JobOk(job)
    ensures turn.cur.op == OP_END ==> !Taken(w, job, turn, d)
  {
  }

  lemma HeadIsCur(turn: Turn, q: seq<Frame>)
    requires q != [] && Queued(turn, q) && q[0] == turn.cur
    ensures NoPrev(turn, q) && NoPrev(turn, q[1..])
  {
  }

  lemma HeadIsOlder(job: Job, turn: Turn, q: seq<Frame>)
    requires TurnOk(job, turn) && q != [] && Queued(turn, q) && q[0] != turn.cur
    ensures turn.prev.Some? ==> q[0] == turn.prev.value
    ensures !NoPrev(turn, q) && Older(turn, Response(ACK, q[0].seqNo))
  {
    if turn.prev.Some? { NextDiffers(turn.prev.value.seqNo); }
  }

  /** Whatever the link and the receiver do next, the invariant stays. */
  lemma EnvKeepsInv(w: Platform, job: Job, turn: Turn, n: Net, n': Net)
    requires JobOk(job) && Inv(w, job, turn, n) && EnvStep(w, n, n')
    ensures Inv(w, job, turn, n')
  {
    hide Handles, Holds, Completed, TurnOk, JobOk, Queued, NoPrev, Answered;
    if FrameLost(n, n') {
      var i :| 0 <= i < |n.queue| && n' == n.(queue := Without(n.queue, i));
      QueueShrinks(turn, n.queue, i);
    } else if ResponseLost(n, n') {
      var i :| 0 <= i < |n.responses| && n' == n.(responses := Without(n.responses, i));
      AnswersShrink(turn, n.responses, i);
    } else if FrameDamaged(n, n') {
      QueueShrinks(turn, n.queue, 0);
      AnswersGrow(turn, n.responses, Response(NAK, 0));
    } else if Abandoned(n, n') {
      AbandonKeepsInv(w, job, turn, n, n');
    } else if Restarted(n, n') {
      IdleOk();
    } else if n' != n {
      DeliveryKeepsInv(w, job, turn, n, n');
    }
  }

  // ----- The sender's moves ----------------------------------------------------------------------

  function FirstTurn(job: Job): Turn {
    Turn(None, job.start, 0)
  }

  /** The frame that follows: the next chunk, or END once everything is acknowledged. */
  function NextFrame(job: Job, turn: Turn): Frame
    requires JobOk(job) && TurnOk(job, turn)
  {
    var sent, seqNo := After(turn), NextSeq(turn.cur.seqNo);
    if sent == |job.blob| then Frame(OP_END, seqNo, [])
    else Frame(OP_DATA, seqNo, job.blob[sent..if sent + job.chunk < |job.blob| then sent + job.chunk else |job.blob|])
  }

  function NextTurn(job: Job, turn: Turn): Turn
    requires JobOk(job) && TurnOk(job, turn)
  {
    Turn(Some(turn.cur), NextFrame(job, turn), After(turn))
  }

  /**
   What earlier transfers may have left in flight: any frames not numbered like the START,
   then copies of it; and any answers, but no acknowledgement of the START's number,
   unless the receiver is idle, at most copies of the START are in flight, and no other
   acknowledgement follows.
   */
  predicate Stale(turn: Turn, queue: seq<Frame>, responses: seq<Response>, active: bool) {
    && turn.prev == None && Queued(turn, queue) && Answered(turn, responses)
    && (Acked(turn) in responses ==> NoPrev(turn, queue) && !active)
  }

  lemma OpeningInv(w: Platform, job: Job, n: Net)
    requires JobOk(job) && SessionOk(n.device.session)
    requires Stale(FirstTurn(job), n.queue, n.responses, n.device.session.active)
    ensures Inv(w, job, FirstTurn(job), n)
  {
    hide SessionOk, Completed, Holds, Queued, Answered;
  }

  lemma SendKeepsInv(w: Platform, job: Job, turn: Turn, n: Net)
    requires JobOk(job) && Inv(w, job, turn, n)
    ensures Inv(w, job, turn, n.(queue := n.queue + [turn.cur]))
  {
    hide Holds, Completed, TurnOk, JobOk, Answered;
  }

  lemma DiscardKeepsInv(w: Platform, job: Job, turn: Turn, n: Net)
    requires JobOk(job) && Inv(w, job, turn, n) && n.responses != []
    ensures Inv(w, job, turn, n.(responses := n.responses[1..]))
  {
    hide Inv, JobOk, FrameLost, FrameDamaged, Delivered, Restarted;
    var n' := n.(responses := n.responses[1..]);
    assert Without(n.responses, 0) == n.responses[1..];
    assert n' == n.(responses := Without(n.responses, 0));
    assert ResponseLost(n, n');
    EnvKeepsInv(w, job, turn, n, n');
  }

  lemma NextTurnOk(job: Job, turn: Turn)
    requires JobOk(job) && TurnOk(job, turn) && turn.cur.op != OP_END
    ensures TurnOk(job, NextTurn(job, turn))
  {
  }

  /** An acknowledgement of START or DATA read by the sender: it may move on to the next frame. */
  lemma AckAdvances(w: Platform, job: Job, turn: Turn, n: Net)
    requires JobOk(job) && Inv(w, job, turn, n) && turn.cur.op != OP_END
    requires n.responses != [] && n.responses[0] == Acked(turn)
    ensures Inv(w, job, NextTurn(job, turn), n.(responses := n.responses[1..]))
    ensures turn.cur.op == OP_DATA ==> turn.cur.data != []
  {
    NextTurnOk(job, turn);
    NextDiffers(turn.cur.seqNo);
    hide Holds, Completed, TurnOk, JobOk, NextFrame, SessionOk, Queued, NoPrev, Answered;
    assert Acked(turn) in n.responses;
    LateAnswers(turn, NextTurn(job, turn), n.responses);
    LateFrames(turn, NextTurn(job, turn), n.queue);
  }

  /** Once the current frame is acknowledged, all answers left are for it. */
  lemma LateAnswers(turn: Turn, next: Turn, r: seq<Response>)
    requires Answered(turn, r) && r != [] && r[0] == Acked(turn)
    requires next.prev == Some(turn.cur) && next.cur.seqNo != turn.cur.seqNo
    ensures Answered(next, r[1..]) && Acked(next) !in r[1..]
  {
    forall i | 0 <= i < |r[1..]| && r[1..][i].code == ACK ensures r[1..][i] == Acked(turn) {
      assert r[1..][i] == r[i + 1];
    }
  }

  lemma LateFrames(turn: Turn, next: Turn, q: seq<Frame>)
    requires NoPrev(turn, q) && next.prev == Some(turn.cur) && next.cur != turn.cur
    ensures Queued(next, q)
  {
  }

  /** An acknowledgement of END: the transfer was completed. */
  lemma AckCompletes(w: Platform, job: Job, turn: Turn, n: Net)
    requires JobOk(job) && Inv(w, job, turn, n) && turn.cur.op == OP_END
    requires n.responses != [] && n.responses[0] == Acked(turn)
    ensures n.done.Some? && Completed(w, job, n.done.value)
  {
    hide Holds, Completed, TurnOk, JobOk, Queued, Answered;
    assert Acked(turn) in n.responses;
  }

  // ----- Sender, link and receiver together ---------------------------------------------------------

  datatype System = System(turn: Turn, net: Net)

  predicate Opening(job: Job, x: System) {
    && x.turn == FirstTurn(job) && SessionOk(x.net.device.session)
    && Stale(x.turn, x.net.queue, x.net.responses, x.net.device.session.active)
  }

  /** The sender sends or resends, discards a response, or moves on after an acknowledgement; or the link moves. */
  ghost predicate SystemStep(w: Platform, job: Job, x: System, y: System)
    requires JobOk(job)
  {
    || (|x.turn.cur.data| <= MAX_DATA && y == x.(net := x.net.(queue := x.net.queue + [x.turn.cur])))
    || (x.net.responses != [] && y == x.(net := x.net.(responses := x.net.responses[1..])))
    || (x.net.responses != [] && x.net.responses[0] == Acked(x.turn) && x.turn.cur.op != OP_END && TurnOk(job, x.turn)
        && y == System(NextTurn(job, x.turn), x.net.(responses := x.net.responses[1..])))
    || (y.turn == x.turn && EnvStep(w, x.net, y.net))
  }

  ghost predicate SystemRun(w: Platform, job: Job, run: seq<System>)
    requires JobOk(job)
  {
    && run != [] && Opening(job, run[0])
    && forall i :: 0 <= i < |run| - 1 ==> SystemStep(w, job, run[i], run[i + 1])
  }

  lemma {:induction false} RunKeepsInv(w: Platform, job: Job, run: seq<System>, i: nat)
    requires JobOk(job) && SystemRun(w, job, run) && i < |run|
    ensures Inv(w, job, run[i].turn, run[i].net)
    decreases i
  {
    hide JobOk, Inv, EnvStep, NextTurn, Acked;
    if i == 0 {
      OpeningInv(w, job, run[0].net);
    } else {
      RunKeepsInv(w, job, run, i - 1);
      var x, y := run[i - 1], run[i - 1 + 1];
      assert SystemStep(w, job, x, y);
      SystemKeepsInv(w, job, x, y);
    }
  }

  lemma SystemKeepsInv(w: Platform, job: Job, x: System, y: System)
    requires JobOk(job) && Inv(w, job, x.turn, x.net) && SystemStep(w, job, x, y)
    ensures Inv(w, job, y.turn, y.net)
  {
    hide JobOk, Inv, EnvStep, NextTurn, Acked;
    if y == x.(net := x.net.(queue := x.net.queue + [x.turn.cur])) {
      SendKeepsInv(w, job, x.turn, x.net);
    } else if x.net.responses != [] && y == x.(net := x.net.(responses := x.net.responses[1..])) {
      DiscardKeepsInv(w, job, x.turn, x.net);
    } else if y.turn == x.turn && EnvStep(w, x.net, y.net) {
      EnvKeepsInv(w, job, x.turn, x.net, y.net);
    } else {
      AckAdvances(w, job, x.turn, x.net);
    }
  }

  /**
   In every reachable state of sender, link and receiver, with START acknowledged and the
   receiver's session open: the receiver is at most one frame ahead of what the sender
   knows, and the flash holds exactly the first bytes of the image or patch.
   */
  lemma ReceiverAtMostOneAhead(w: Platform, job: Job, run: seq<System>, i: nat)
    requires JobOk(job) && SystemRun(w, job, run) && i < |run|
    requires run[i].turn.prev.Some? && run[i].net.device.session.active
    ensures var turn, d := run[i].turn, run[i].net.device;
      && SessionOk(d.session) && d.session.total == |job.blob|
      && turn.sent <= d.session.written <= turn.sent + job.chunk && d.session.written <= |job.blob|
      && (d.session.written == turn.sent || d.session.written == After(turn))
      && Stored(d) == job.blob[..d.session.written]
  {
    RunKeepsInv(w, job, run, i);
    hide SystemRun, Queued, Answered, Aimed, Accepted, Completed, JobOk, Stored;
  }

  /** An acknowledged END, in any run: the transfer is complete, once and as a whole. */
  lemma EndAckedMeansCompleted(w: Platform, job: Job, run: seq<System>, i: nat)
    requires JobOk(job) && SystemRun(w, job, run) && i < |run|
    requires run[i].turn.cur.op == OP_END
    requires run[i].net.responses != [] && run[i].net.responses[0] == Acked(run[i].turn)
    ensures run[i].net.done.Some? && Completed(w, job, run[i].net.done.value)
  {
    hide SystemRun, Inv, Completed, JobOk;
    RunKeepsInv(w, job, run, i);
    AckCompletes(w, job, run[i].turn, run[i].net);
  }

  // ----- What may not be left over --------------------------------------------------------------------

  /** An earlier session of which only the bytes of this blob are missing, in one chunk, numbered as the job's first. */
  predicate Unfinished(job: Job, d: Device)
    requires JobOk(job)
  {
    var s := d.session;
    && SessionOk(s) && s.active && s.kind == Whole && s.written > 0 && s.total == s.written + |job.blob|
    && s.expectedSeq == NextSeq(job.start.seqNo)
  }

  /** The flash with the blob behind what such a session has stored. */
  function Appended(job: Job, d: Device): Memory
    requires JobOk(job) && Unfinished(job, d)
  {
    Splice(d.mem, d.session.slotAddr + d.session.written - FLASH_BASE, job.blob)
  }

  lemma AckStep(w: Platform, job: Job, turn: Turn, n: Net)
    requires JobOk(job) && TurnOk(job, turn) && turn.cur.op != OP_END && n.responses == [Acked(turn)]
    ensures SystemStep(w, job, System(turn, n), System(NextTurn(job, turn), n.(responses := [])))
  {
    hide JobOk, TurnOk, NextTurn, EnvStep;
  }

  lemma SendStep(w: Platform, job: Job, turn: Turn, n: Net)
    requires JobOk(job) && |turn.cur.data| <= MAX_DATA && n.queue == []
    ensures SystemStep(w, job, System(turn, n), System(turn, n.(queue := [turn.cur])))
  {
    hide JobOk, TurnOk, NextTurn, EnvStep;
    assert [] + [turn.cur] == [turn.cur];
  }

  lemma AcceptStep(w: Platform, job: Job, turn: Turn, n: Net, d: Device)
    requires JobOk(job) && SessionOk(n.device.session) && Handles(w, n.device, turn.cur, d, true)
    requires n.queue == [turn.cur] && n.responses == [] && !n.away && turn.cur.op != OP_ABORT
    ensures var end := turn.cur.op == OP_END;
      SystemStep(w, job, System(turn, n), System(turn, Net(d, [], [Acked(turn)], end, if end then Some(d) else n.done)))
  {
    hide JobOk, TurnOk, NextTurn, Handles, SessionOk;
    var end := turn.cur.op == OP_END;
    var n' := Net(d, [], [Acked(turn)], end, if end then Some(d) else n.done);
    assert Delivered(w, n, n') by {
      assert n.queue[1..] == [] && n.responses + [Answer(turn.cur, true)] == [Acked(turn)];
    }
  }

  /**
   An acknowledgement of the START's number left over from before, with such a session
   open, is taken for one of this START: the bytes go to the end of the earlier image, and
   if that verifies, END is acknowledged although this transfer never took place.
   */
  lemma LeftoverAckMisleads(w: Platform, job: Job, d: Device) returns (run: seq<System>)
    requires JobOk(job) && Unfinished(job, d) && 0 < |job.blob| <= job.chunk && |job.blob| <= MAX_DATA
    requires Acceptable(w, Appended(job, d), d.session.slotAddr)
    ensures |run| == 7 && run[0] == System(FirstTurn(job), Net(d, [], [Acked(FirstTurn(job))], false, None))
    ensures forall i :: 0 <= i < |run| - 1 ==> SystemStep(w, job, run[i], run[i + 1])
    ensures run[6].turn.cur.op == OP_END && run[6].net.responses == [Acked(run[6].turn)]
    ensures run[6].net.done.Some? && !Completed(w, job, run[6].net.done.value)
  {
    hide Handles, Acceptable, SystemStep, Splice, Completed, NextTurn, JobOk, TurnOk, Unfinished, SessionOk;
    var start := FirstTurn(job);
    var data, end := SecondTurns(job);
    var e, last := Misled(w, job, d, data, end);
    var x0, x1 := Net(d, [], [Acked(start)], false, None), Net(d, [], [], false, None);
    var x2, x3 := Net(d, [data.cur], [], false, None), Net(e, [], [Acked(data)], false, None);
    var x4, x5 := Net(e, [], [], false, None), Net(e, [end.cur], [], false, None);
    AckStep(w, job, start, x0);
    SendStep(w, job, data, x1);
    AcceptStep(w, job, data, x2, e);
    AckStep(w, job, data, x3);
    SendStep(w, job, end, x4);
    AcceptStep(w, job, end, x5, last);
    run := [System(start, x0), System(data, x1), System(data, x2), System(data, x3), System(end, x4), System(end, x5),
            System(end, Net(last, [], [Acked(end)], true, Some(last)))];
  }

  /** With a blob of one chunk, the turns after the START. */
  lemma SecondTurns(job: Job) returns (data: Turn, end: Turn)
    requires JobOk(job) && 0 < |job.blob| <= job.chunk
    ensures TurnOk(job, FirstTurn(job)) && data == NextTurn(job, FirstTurn(job)) && FirstTurn(job).cur.op != OP_END
    ensures data.cur == Frame(OP_DATA, NextSeq(job.start.seqNo), job.blob)
    ensures TurnOk(job, data) && end == NextTurn(job, data) && end.cur == Frame(OP_END, NextSeq(data.cur.seqNo), [])
  {
    data := NextTurn(job, FirstTurn(job));
    NextTurnOk(job, FirstTurn(job));
    assert job.blob[0..|job.blob|] == job.blob;
    end := NextTurn(job, data);
  }

  /** The earlier session takes them for its own. */
  lemma Misled(w: Platform, job: Job, d: Device, data: Turn, end: Turn) returns (e: Device, last: Device)
    requires JobOk(job) && Unfinished(job, d) && 0 < |job.blob| && Acceptable(w, Appended(job, d), d.session.slotAddr)
    requires data.cur == Frame(OP_DATA, NextSeq(job.start.seqNo), job.blob) && end.cur.op == OP_END
    ensures SessionOk(d.session) && Handles(w, d, data.cur, e, true)
    ensures SessionOk(e.session) && Handles(w, e, end.cur, last, true) && !Completed(w, job, last)
  {
    hide Handles, Acceptable, Splice, JobOk;
    var f;
    f, e := ChunkAccepted(w, d, job.blob);
    HandlesKeepsSession(w, d, f, e, true);
    last := EndAccepted(w, e, end.cur);
  }
}
