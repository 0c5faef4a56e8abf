/**
 Deltas in recovery mode, the only place where the receiver runs: what their base can be,
 and which frames bring an image that verifies back under them.
 */
module Recovery {
  import opened Bytes
  import opened Layout
  import opened Flash
  import opened Crypto
  import opened BootConfig
  import opened Boot
  import opened Frame
  import opened OtaClient
  import opened Channel
  import opened Transfers
  import BootRuns
  import Crc32
  import Delta
  import FirmwareImage
  import Sha256

  // ----- Images that do not verify -----------------------------------------------------------

  /** Verification is a property of the image. */
  lemma VerifiesByImage(t: Trust, s: Slot, r: Slot)
    requires VerifySlot(t, s) && Delta.BaseRegion(r) == Delta.BaseRegion(s)
    ensures VerifySlot(t, r)
  {
    hide VerifySlot, Delta.BaseRegion, FirmwareImage.PayloadSize;
    ImageOfVerified(t, s);
    RegionIsHead(s);
    RegionIsHead(r);
    VerifyReadsLogicalImage(t, s, r);
  }

  lemma ImageOfVerified(t: Trust, s: Slot)
    requires VerifySlot(t, s)
    ensures SizeOk(s) && Delta.BaseRegion(s).Some?
    ensures |Delta.BaseRegion(s).value| == HEADER_SIZE + FirmwareImage.PayloadSize(s)
  {
    hide VerifySlot, FirmwareImage.Magic, FirmwareImage.PayloadSize;
    VerifiedHeader(t, s);
  }

  lemma RegionIsHead(s: Slot)
    ensures var region := Delta.BaseRegion(s);
      region.Some? ==> |region.value| <= SLOT_SIZE && region.value == s[..|region.value|]
  {
    hide FirmwareImage.Magic, FirmwareImage.PayloadSize;
  }

  /** Recovery mode was entered with this flash, with slots that can be told apart. */
  predicate InRecovery(w: Platform, v: BootRuns.Visit, mem: Memory) {
    var b := BootRuns.Outcome(w.trust, w.g, v);
    Apart(w, v.mem) && b.slot == 0 && b.mem == mem
  }

  /** No slot with this content would verify. */
  ghost predicate NeverVerifies(t: Trust, s: Slot) {
    forall r: Slot :: Delta.BaseRegion(r) == Delta.BaseRegion(s) ==> !VerifySlot(t, r)
  }

  /** Recovery mode starts with a valid record and slots that can be told apart. */
  lemma RecoveryLoads(w: Platform, v: BootRuns.Visit, mem: Memory)
    requires InRecovery(w, v, mem)
    ensures Load(w.trust, mem).ok && Apart(w, mem)
    ensures var bk := BanksOf(w.trust, mem); !bk.a.ok && !bk.b.ok
  {
    hide Load, BootStep, BanksOf, BootRuns.WellFormed, Stamp;
    BootRuns.RecoveryMeansNothingVerifies(w.trust, w.g, v);
    BootRuns.BootStepLoads(w.trust, w.g, v.mem, v.sram);
  }

  lemma RecoveryImageNeverVerifies(w: Platform, v: BootRuns.Visit, mem: Memory, s: Slot, addr: u32)
    requires InRecovery(w, v, mem) && Delta.SlotBase(addr) && Delta.BaseRegion(s) == Delta.BaseRegion(SlotAt(mem, addr))
    ensures NeverVerifies(w.trust, s)
  {
    hide Load, BootStep, VerifySlot, Delta.BaseRegion, FirmwareImage.Version, SlotAt;
    BootRuns.RecoveryMeansNothingVerifies(w.trust, w.g, v);
    forall r: Slot | Delta.BaseRegion(r) == Delta.BaseRegion(s) ensures !VerifySlot(w.trust, r) {
      if VerifySlot(w.trust, r) { VerifiesByImage(w.trust, r, SlotAt(mem, addr)); }
    }
  }

  lemma NeverVerifiesExactly(t: Trust, s: Slot)
    requires Delta.BaseRegion(s).Some?
    ensures NeverVerifies(t, s) <==> !VerifySlot(t, s)
  {
    hide VerifySlot, Delta.BaseRegion;
    forall r: Slot | Delta.BaseRegion(r) == Delta.BaseRegion(s) && VerifySlot(t, r) ensures VerifySlot(t, s) {
      VerifiesByImage(t, r, s);
    }
  }

  // ----- While the configuration is out of reach --------------------------------------------

  /**
   As the first frame in recovery mode, or after any frames when the inactive slot shares
   no sector with the configuration or the other slot, a delta is accepted only against an
   image that does not verify. So one made against an image that the device would boot is
   refused there, unless some other image has the same digest.
   */
  lemma RecoveryDeltaBaseNeverVerifies(w: Platform, v: BootRuns.Visit, first: Device, log: seq<Pass>, d: Device,
                                       f: Frame, d': Device)
    requires InRecovery(w, v, first.mem) && Follows(w, first, log, d) && SessionOk(d.session)
    requires log == [] || (TargetAway(w, first.mem) && RunningSpared(w, first.mem))
    requires Handles(w, d, f, d', true) && f.op == OP_START_DELTA
    ensures DeltaInRange(f) && BaseMatches(d.mem, Running(w, d.mem), f.data[8..40])
    ensures NeverVerifies(w.trust, SlotAt(d.mem, Running(w, d.mem)))
  {
    hide Handles, InRecovery, NeverVerifies, Load, Running, Target, TargetAway, RunningSpared, SlotAt, BaseMatches;
    hide SessionOk;
    AcceptedDeltaMatches(w, d, f, d');
    if log != [] {
      TransfersKeepRunning(w, first, log, d);
      RunningStays(w, first, log, d);
    }
    RecoveryImageNeverVerifies(w, v, first.mem, SlotAt(d.mem, Running(w, d.mem)), Running(w, d.mem));
  }

  lemma RunningStays(w: Platform, first: Device, log: seq<Pass>, d: Device)
    requires Follows(w, first, log, d) && TargetAway(w, first.mem)
    ensures Running(w, d.mem) == Running(w, first.mem)
  {
    hide Follows, Load, Running, Target, AwayFromConfig, OnTarget, ConfigAt;
    TransfersKeepAim(w, first, log, d);
  }

  lemma AcceptedDeltaMatches(w: Platform, d: Device, f: Frame, d': Device)
    requires SessionOk(d.session) && Handles(w, d, f, d', true) && f.op == OP_START_DELTA
    ensures DeltaInRange(f) && BaseMatches(d.mem, Running(w, d.mem), f.data[8..40])
  {
    hide Running, Target, BaseMatches, Erased, OnlyErasedSectorsChange, DeltaSession, Begins, SessionOk, U32;
  }

  /** The same on the shipped part, with slot A active, for images of at most 444 KB. */
  lemma ShippedDeltaBaseNeverVerifies(w: Platform, v: BootRuns.Visit, first: Device, log: seq<Pass>, d: Device)
    requires w.g == STM32F407 && InRecovery(w, v, first.mem) && Follows(w, first, log, d)
    requires Target(w, first.mem) == SLOT_B_ADDR
    requires var region := Delta.BaseRegion(SlotAt(d.mem, SLOT_A_ADDR)); region.Some? && |region.value| <= SLOT_A_REACH
    ensures NeverVerifies(w.trust, SlotAt(d.mem, SLOT_A_ADDR))
  {
    hide Follows, InRecovery, NeverVerifies, Load, Target, Delta.BaseRegion, SlotAt, Stretch;
    RecoveryLoads(w, v, first.mem);
    ShippedTransfersKeepHeadOfSlotA(w, first, log, d);
    var s, r := SlotAt(d.mem, SLOT_A_ADDR), SlotAt(first.mem, SLOT_A_ADDR);
    HeadDecidesImage(d.mem, first.mem, |Delta.BaseRegion(s).value|);
    SameImageExactly(s, r);
    RecoveryImageNeverVerifies(w, v, first.mem, s, SLOT_A_ADDR);
  }

  lemma HeadDecidesImage(m: Memory, m': Memory, n: nat)
    requires n <= SLOT_A_REACH && Stretch(m, SLOT_A_ADDR, SLOT_A_REACH) == Stretch(m', SLOT_A_ADDR, SLOT_A_REACH)
    ensures SameOnImage(SlotAt(m, SLOT_A_ADDR), SlotAt(m', SLOT_A_ADDR), n)
  {
    var s, r := SlotAt(m, SLOT_A_ADDR), SlotAt(m', SLOT_A_ADDR);
    forall i | 0 <= i < SLOT_SIZE && ImageByte(i, n) ensures r[i] == s[i] {
      assert s[i] == Stretch(m, SLOT_A_ADDR, SLOT_A_REACH)[i] && r[i] == Stretch(m', SLOT_A_ADDR, SLOT_A_REACH)[i];
    }
  }

  // ----- Exactly when no delta meets an image that verifies -----------------------------------

  /** A START_DELTA accepted after a log of frames, without flash failures. */
  ghost predicate AcceptedAfter(w: Platform, first: Device, log: seq<Pass>, d: Device, f: Frame, d': Device) {
    && Follows(w, first, log, d) && SessionOk(d.session) && !d.faulty
    && f.op == OP_START_DELTA && Handles(w, d, f, d', true)
  }

  /** Whatever frames arrive, every delta accepted has a base that does not verify. */
  ghost predicate OnlyDeadBases(w: Platform, first: Device) {
    forall log, d, f, d' :: AcceptedAfter(w, first, log, d, f, d') ==> DeadBase(w, d.mem)
  }

  /** No slot with the image of the active identifier's slot would verify. */
  ghost predicate DeadBase(w: Platform, mem: Memory) {
    NeverVerifies(w.trust, SlotAt(mem, Running(w, mem)))
  }

  /** What a START of `n` bytes into the inactive slot leaves of the other one; as it is, for no START. */
  function BaseLeft(w: Platform, mem: Memory, n: nat): Slot {
    var base, target := Running(w, mem), Target(w, mem);
    if n == 0 then SlotAt(mem, base) else SlotAfterErase(w.g, SlotAt(mem, base), base, target, target + n)
  }

  /** No START can erase its way to a base that verifies. */
  ghost predicate NoStartRevives(w: Platform, mem: Memory) {
    forall n :: HEADER_SIZE <= n <= SLOT_SIZE ==> !VerifySlot(w.trust, BaseLeft(w, mem, n))
  }

  /** The sizes a START can have, and none. */
  predicate StartSize(n: nat) {
    n == 0 || HEADER_SIZE <= n <= SLOT_SIZE
  }

  lemma EraseTwice(g: Geometry, s: Slot, addr: u32, lo: nat, m: nat, n: nat)
    requires m <= n
    ensures var small, large := SlotAfterErase(g, s, addr, lo, lo + m), SlotAfterErase(g, s, addr, lo, lo + n);
      SlotAfterErase(g, small, addr, lo, lo + n) == large && SlotAfterErase(g, large, addr, lo, lo + m) == large
  {
    var h, k := lo + m, lo + n;
    forall a: nat | InErasedSector(g, a, lo, h) ensures InErasedSector(g, a, lo, k) {
      var j :| 0 <= j < |g| && g[j].start <= a < g[j].End() && g[j].Meets(lo, h);
      assert g[j].Meets(lo, k);
    }
  }

  /** One frame: the base is left by the largest START so far. */
  lemma BaseLeftStep(w: Platform, first: Memory, d: Device, f: Frame, d': Device, ok: bool, m: nat) returns (n: nat)
    requires SessionOk(d.session) && Handles(w, d, f, d', ok) && !d'.faulty && OnTarget(w, d) && Apart(w, d.mem)
    requires Running(w, d.mem) == Running(w, first) && Target(w, d.mem) == Target(w, first)
    requires StartSize(m) && SlotAt(d.mem, Running(w, first)) == BaseLeft(w, first, m)
    ensures StartSize(n) && SlotAt(d'.mem, Running(w, first)) == BaseLeft(w, first, n)
  {
    hide Handles, Load, Running, Target, SessionOk, SlotAt, SlotAfterErase, EraseLength, BootRuns.WellFormed;
    n := m;
    if !IsStart(f) {
      ProgramsSpareBase(w, d, f, d', ok);
    } else if !ok {
      FaultsStay(w, d, f, d', ok);
    } else {
      AcceptedStartErases(w, d, f, d');
      var k := EraseLength(w, d.mem, f);
      StartLength(w, d.mem, f);
      var base, target := Running(w, first), Target(w, first);
      SlotErased(w.g, d.mem, base, target, target + k);
      if m == 0 {
        n := k;
      } else if m <= k {
        EraseTwice(w.g, SlotAt(first, base), base, target, m, k);
        n := k;
      } else {
        EraseTwice(w.g, SlotAt(first, base), base, target, k, m);
      }
    }
  }

  lemma StartLength(w: Platform, mem: Memory, f: Frame)
    ensures StartSize(EraseLength(w, mem, f))
  {
    hide U32, BaseMatches, Running;
  }

  lemma {:induction false} BaseLeftAlways(w: Platform, first: Device, log: seq<Pass>, last: Device) returns (n: nat)
    requires Follows(w, first, log, last) && TargetAway(w, first.mem) && Apart(w, first.mem) && !last.faulty
    ensures StartSize(n) && SlotAt(last.mem, Running(w, first.mem)) == BaseLeft(w, first.mem, n)
    decreases |log|
  {
    hide Handles, Load, OnTarget, Target, Running, SlotAt, BaseLeft, AwayFromConfig, ConfigAt, SessionOk, StartSize;
    if log == [] {
      NothingLeft(w, first.mem);
      n := 0;
    } else {
      var rest, x := log[..|log| - 1], log[|log| - 1];
      if x.Handled? {
        FaultsStay(w, x.e.before, x.e.frame, x.e.after, x.e.ok);
        n := BaseLeftAlways(w, first, rest, x.e.before);
        TransfersKeepAim(w, first, rest, x.e.before);
        n := BaseLeftStep(w, first.mem, x.e.before, x.e.frame, x.e.after, x.e.ok, n);
      } else {
        n := BaseLeftAlways(w, first, rest, last);
      }
    }
  }

  lemma NothingLeft(w: Platform, mem: Memory)
    ensures StartSize(0) && SlotAt(mem, Running(w, mem)) == BaseLeft(w, mem, 0)
  {
    hide Load;
  }

  // ----- Frames that are accepted ---------------------------------------------------------------

  /** Every frame of the log fits the reader's buffer. */
  predicate Readable(log: seq<Pass>) {
    forall x <- log :: x.Handled? ==> |x.e.frame.data| <= MAX_DATA
  }

  lemma OneMoreFrame(w: Platform, first: Device, log: seq<Pass>, d: Device, f: Frame, d': Device)
    requires Follows(w, first, log, d) && SessionOk(d.session) && Handles(w, d, f, d', true)
    requires Readable(log) && |f.data| <= MAX_DATA
    ensures Follows(w, first, log + [Handled(Event(d, f, d', true))], d')
    ensures Readable(log + [Handled(Event(d, f, d', true))])
  {
    hide Handles, SessionOk;
    var more := log + [Handled(Event(d, f, d', true))];
    assert more[..|more| - 1] == log;
  }

  /** The session stores the first bytes of this blob. */
  predicate Storing(d: Device, addr: u32, blob: seq<byte>) {
    && SessionOk(d.session) && d.session.active && d.session.kind == Whole && d.session.slotAddr == addr
    && d.session.total == |blob| && Stored(d) == blob[..d.session.written]
  }

  /** The rest of a blob, in frames of up to 1024 bytes: nothing outside the slot changes. */
  lemma {:induction false} StoreRest(w: Platform, first: Device, log: seq<Pass>, d: Device, addr: u32, blob: seq<byte>)
    returns (log': seq<Pass>, d': Device)
    requires Follows(w, first, log, d) && Readable(log) && Storing(d, addr, blob)
    ensures Follows(w, first, log', d') && Readable(log') && Storing(d', addr, blob) && d'.session.written == |blob|
    ensures d'.faulty == d.faulty && WrittenOnly(d.mem, d'.mem, addr, SLOT_SIZE)
    decreases |blob| - d.session.written
  {
    hide Follows, Handles, Stored, WrittenOnly, SessionOk, Readable;
    StoringBound(d, addr, blob);
    var sent := d.session.written;
    if sent == |blob| {
      NothingWritten(d.mem, addr, SLOT_SIZE);
      return log, d;
    }
    var chunk := blob[sent..if sent + MAX_DATA < |blob| then sent + MAX_DATA else |blob|];
    var f, e := ChunkAccepted(w, d, chunk);
    DataExtends(w, d, f, e, true);
    assert blob[..sent] + chunk == blob[..sent + |chunk|];
    ProgramsStayInSlot(w, d, f, e, true);
    OneMoreFrame(w, first, log, d, f, e);
    log', d' := StoreRest(w, first, log + [Handled(Event(d, f, e, true))], e, addr, blob);
    WrittenTwice(d.mem, e.mem, d'.mem, addr, SLOT_SIZE);
  }

  lemma StoringBound(d: Device, addr: u32, blob: seq<byte>)
    requires Storing(d, addr, blob)
    ensures d.session.written <= |blob|
  {
    hide Stored;
  }

  /** Any image can be stored from an idle receiver; END need not arrive. */
  lemma Upload(w: Platform, first: Device, blob: seq<byte>) returns (log: seq<Pass>, d: Device)
    requires first.session == IDLE && HEADER_SIZE <= |blob| <= SLOT_SIZE
    ensures Follows(w, first, log, d) && Readable(log) && Storing(d, Target(w, first.mem), blob)
    ensures d.session.written == |blob| && d.faulty == first.faulty
    ensures var target := Target(w, first.mem);
      WrittenOnly(Erased(w.g, first.mem, target, target + |blob|), d.mem, target, SLOT_SIZE)
  {
    hide Handles, Target, Erased, WrittenOnly, SessionOk, Stored;
    IdleOk();
    var f, e := StartAccepted(w, first, |blob|);
    OneMoreFrame(w, first, [], first, f, e);
    StoredLength(e);
    log, d := StoreRest(w, first, [] + [Handled(Event(first, f, e, true))], e, Target(w, first.mem), blob);
  }

  /** A START_DELTA within range against the image in this slot. */
  predicate AsksFor(f: Frame, s: Slot) {
    f.op == OP_START_DELTA && DeltaInRange(f) && HasDigest(s, f.data[8..40])
  }

  lemma SameImageAskedFor(s: Slot, r: Slot)
    requires Delta.BaseRegion(s) == Delta.BaseRegion(r)
    ensures forall f :: AsksFor(f, s) == AsksFor(f, r)
  {
    hide Delta.BaseRegion, DeltaInRange, Sha256.Hash;
  }

  /** And a delta against the image in the slot of the active identifier, if there is one, is accepted at any time. */
  lemma DeltaAccepted(w: Platform, d: Device, f: Frame) returns (d': Device)
    requires SessionOk(d.session) && AsksFor(f, SlotAt(d.mem, Running(w, d.mem)))
    ensures Handles(w, d, f, d', true)
  {
    hide Running, Target, HasDigest, DeltaSession, U32, SessionOk, SlotAt, DeltaInRange, Begins;
    d' := Begun(w, d, Target(w, d.mem), SLOT_SIZE, DeltaSession(f, Target(w, d.mem), Running(w, d.mem)));
    assert HandlesStartDelta(w, d, f, d', true);
    hide HandlesStartDelta;
  }

  lemma DeltaFrame(s: Slot) returns (f: Frame)
    requires Delta.BaseRegion(s).Some?
    ensures |f.data| <= MAX_DATA && AsksFor(f, s)
  {
    hide Delta.BaseRegion, Sha256.Hash, Le32, U32;
    var digest := Sha256.Hash(Delta.BaseRegion(s).value);
    f := Frame(OP_START_DELTA, 1, Le32(1) + Le32(HEADER_SIZE) + digest);
    Le32RoundTrip(1);
    Le32RoundTrip(HEADER_SIZE);
    assert f.data[0..4] == Le32(1) && f.data[4..8] == Le32(HEADER_SIZE) && f.data[8..40] == digest;
  }

  /** A base that verifies is one a delta is accepted against. */
  lemma LiveBase(w: Platform, first: Device, log: seq<Pass>, d: Device)
    requires Follows(w, first, log, d) && SessionOk(d.session) && !d.faulty
    requires VerifySlot(w.trust, SlotAt(d.mem, Running(w, d.mem)))
    ensures !OnlyDeadBases(w, first)
  {
    hide Follows, Handles, SessionOk, Running, VerifySlot, SlotAt, HasDigest, Delta.BaseRegion;
    var s := SlotAt(d.mem, Running(w, d.mem));
    ImageOfVerified(w.trust, s);
    NeverVerifiesExactly(w.trust, s);
    hide NeverVerifies;
    var f := DeltaFrame(s);
    var d' := DeltaAccepted(w, d, f);
    assert AcceptedAfter(w, first, log, d, f, d');
  }

  /**
   With the inactive slot away from the configuration, and no flash failures: every delta
   accepted in recovery mode has a base that does not verify exactly when no START into
   the inactive slot can erase its way to one that does.
   */
  lemma DeadBasesExactly(w: Platform, v: BootRuns.Visit, first: Device)
    requires InRecovery(w, v, first.mem) && first.session == IDLE && !first.faulty && TargetAway(w, first.mem)
    ensures OnlyDeadBases(w, first) <==> NoStartRevives(w, first.mem)
  {
    hide InRecovery, TargetAway, Follows, Handles, SessionOk, BaseLeft, VerifySlot, DeadBase, SlotAt, Running;
    if NoStartRevives(w, first.mem) {
      forall log, d, f, d' | AcceptedAfter(w, first, log, d, f, d') ensures DeadBase(w, d.mem) {
        BaseStaysDead(w, v, first, log, d, f, d');
      }
    }
    forall n: nat | HEADER_SIZE <= n <= SLOT_SIZE && VerifySlot(w.trust, BaseLeft(w, first.mem, n))
      ensures !OnlyDeadBases(w, first)
    {
      var log, d := StartLeaves(w, first, n);
      LiveBase(w, first, log, d);
    }
  }

  lemma BaseStaysDead(w: Platform, v: BootRuns.Visit, first: Device, log: seq<Pass>, d: Device, f: Frame, d': Device)
    requires InRecovery(w, v, first.mem) && TargetAway(w, first.mem) && AcceptedAfter(w, first, log, d, f, d')
    requires NoStartRevives(w, first.mem)
    ensures DeadBase(w, d.mem)
  {
    hide InRecovery, TargetAway, Follows, Handles, SessionOk, BaseLeft, VerifySlot, NeverVerifies, SlotAt, Running;
    hide BanksOf, HasDigest, Apart;
    RecoveryLoads(w, v, first.mem);
    RunningStays(w, first, log, d);
    var n := BaseLeftAlways(w, first, log, d);
    AcceptedDeltaMatches(w, d, f, d');
    var s := SlotAt(d.mem, Running(w, d.mem));
    if n == 0 {
      NothingLeft(w, first.mem);
      RecoveryImageNeverVerifies(w, v, first.mem, s, Running(w, first.mem));
    } else {
      DigestMeansImage(s, f.data[8..40]);
      NeverVerifiesExactly(w.trust, s);
    }
  }

  lemma DigestMeansImage(s: Slot, digest: seq<byte>)
    requires HasDigest(s, digest)
    ensures Delta.BaseRegion(s).Some?
  {
  }

  /** One START of `n` bytes, accepted. */
  lemma StartLeaves(w: Platform, first: Device, n: u32) returns (log: seq<Pass>, d: Device)
    requires first.session == IDLE && HEADER_SIZE <= n <= SLOT_SIZE && TargetAway(w, first.mem)
    ensures Follows(w, first, log, d) && Readable(log) && SessionOk(d.session) && d.faulty == first.faulty
    ensures SlotAt(d.mem, Running(w, d.mem)) == BaseLeft(w, first.mem, n)
  {
    hide Handles, Load, AwayFromConfig, Target, Running, Erased, SlotAt, SlotAfterErase, SessionOk;
    IdleOk();
    var f;
    f, d := StartAccepted(w, first, n);
    log := [] + [Handled(Event(first, f, d, true))];
    OneMoreFrame(w, first, [], first, f, d);
    RunningStays(w, first, log, d);
    var base, target := Running(w, first.mem), Target(w, first.mem);
    SlotErased(w.g, first.mem, base, target, target + n);
  }

  // ----- The shipped sector table ------------------------------------------------------------------

  /**
   With slot B active, a START into slot A wipes the record. Once an image that verifies is
   stored there, END or not, the configuration is recovered from it: slot A is then the
   active one, and a delta against that image is accepted.
   */
  lemma ShippedUploadRevivesBase(w: Platform, v: BootRuns.Visit, first: Device, r: Slot)
    returns (log: seq<Pass>, d: Device)
    requires w.g == STM32F407 && InRecovery(w, v, first.mem) && first.session == IDLE
    requires Target(w, first.mem) == SLOT_A_ADDR && VerifySlot(w.trust, r)
    ensures Follows(w, first, log, d) && Readable(log) && SessionOk(d.session) && d.faulty == first.faulty
    ensures !Load(w.trust, d.mem).ok && Running(w, d.mem) == SLOT_A_ADDR
    ensures Delta.BaseRegion(SlotAt(d.mem, SLOT_A_ADDR)) == Delta.BaseRegion(r)
    ensures VerifySlot(w.trust, SlotAt(d.mem, SLOT_A_ADDR))
    ensures forall f :: AsksFor(f, r) ==> exists d' :: Handles(w, d, f, d', true)
  {
    hide Follows, InRecovery, Load, BanksOf, Target, Running, VerifySlot, Delta.BaseRegion, SlotAt, Erased, WrittenOnly;
    hide Readable, Handles, SessionOk, AsksFor;
    RecoveryLoads(w, v, first.mem);
    ImageOfVerified(w.trust, r);
    var blob := Delta.BaseRegion(r).value;
    RegionIsHead(r);
    log, d := Upload(w, first, blob);
    UploadedImage(d, r);
    VerifiesByImage(w.trust, r, SlotAt(d.mem, SLOT_A_ADDR));
    UploadWipes(w, first.mem, d.mem, |blob|);
    RecoveredIsA(w, d.mem);
    SameImageAskedFor(SlotAt(d.mem, SLOT_A_ADDR), r);
    forall f | AsksFor(f, r) ensures exists d' :: Handles(w, d, f, d', true) {
      var d' := DeltaAccepted(w, d, f);
    }
  }

  lemma UploadedImage(d: Device, r: Slot)
    requires Delta.BaseRegion(r).Some? && HEADER_SIZE <= |Delta.BaseRegion(r).value|
    requires Storing(d, SLOT_A_ADDR, Delta.BaseRegion(r).value) && d.session.written == |Delta.BaseRegion(r).value|
    ensures Delta.BaseRegion(SlotAt(d.mem, SLOT_A_ADDR)) == Delta.BaseRegion(r)
  {
    var blob, s := Delta.BaseRegion(r).value, SlotAt(d.mem, SLOT_A_ADDR);
    RegionIsHead(r);
    hide Delta.BaseRegion;
    var n := |blob|;
    assert blob[..n] == blob;
    forall i | 0 <= i < SLOT_SIZE && ImageByte(i, n) ensures s[i] == r[i] {
      assert s[i] == Stretch(d.mem, SLOT_A_ADDR, n)[i] == blob[i] == r[..n][i];
    }
    SameImageExactly(r, s);
  }

  /** Erasing for it wiped the record, and storing it left that and slot B alone. */
  lemma UploadWipes(w: Platform, before: Memory, after: Memory, n: nat)
    requires w.g == STM32F407 && 0 < n <= SLOT_SIZE && !BanksOf(w.trust, before).b.ok
    requires WrittenOnly(Erased(w.g, before, SLOT_A_ADDR, SLOT_A_ADDR + n), after, SLOT_A_ADDR, SLOT_SIZE)
    ensures !Load(w.trust, after).ok && !BanksOf(w.trust, after).b.ok
  {
    hide Load, VerifySlot, FirmwareImage.Version, Erased, WrittenOnly, SlotAt, ConfigAt, Stretch;
    var m := Erased(w.g, before, SLOT_A_ADDR, SLOT_A_ADDR + n);
    ShippedSlotAEraseHitsConfig(before, n);
    WrittenSpares(m, after, SLOT_A_ADDR, SLOT_SIZE, CONFIG_ADDR, CONFIG_BYTES);
    WrittenSpares(m, after, SLOT_A_ADDR, SLOT_SIZE, SLOT_B_ADDR, SLOT_SIZE);
    ConfigIsStretch(m, after);
    SlotIsStretch(m, after, SLOT_B_ADDR);
    BootRuns.WipedIsNotLoaded(w.trust, after);
    ShippedSlotAEraseReach(before, n);
    if n > SLOT_A_REACH { BootRuns.ErasedHeadFailsVerify(w.trust, SlotAt(m, SLOT_B_ADDR)); }
  }

  lemma ConfigIsStretch(m: Memory, m': Memory)
    requires Stretch(m, CONFIG_ADDR, CONFIG_BYTES) == Stretch(m', CONFIG_ADDR, CONFIG_BYTES)
    ensures ConfigAt(m) == ConfigAt(m')
  {
  }

  lemma RecoveredIsA(w: Platform, mem: Memory)
    requires !Load(w.trust, mem).ok && !BanksOf(w.trust, mem).b.ok
    ensures Running(w, mem) == SLOT_A_ADDR
  {
    hide BanksOf, Recover, Default, Validate;
    RecoverPicksA(BanksOf(w.trust, mem));
  }

  lemma RecoverPicksA(bk: Banks)
    requires !bk.b.ok
    ensures Recover(bk, Default()).active == SLOT_A
  {
    hide Crc32.Checksum;
  }

  /** What any erase of slot B makes of the content of slot A. */
  function TailErased(s: Slot): Slot {
    SlotAfterErase(STM32F407, s, SLOT_A_ADDR, SLOT_B_ADDR, SLOT_B_ADDR + SLOT_SIZE)
  }

  /**
   On the shipped part, without flash failures, and for a device that accepts any image at
   all: every delta accepted in recovery mode has a base that does not verify exactly when
   slot A is the active one and would not verify with its last 16 KB erased.
   */
  lemma ShippedDeadBasesExactly(w: Platform, v: BootRuns.Visit, first: Device, r: Slot)
    requires w.g == STM32F407 && InRecovery(w, v, first.mem) && first.session == IDLE && !first.faulty
    requires VerifySlot(w.trust, r)
    ensures OnlyDeadBases(w, first) <==>
      Target(w, first.mem) == SLOT_B_ADDR && !VerifySlot(w.trust, TailErased(SlotAt(first.mem, SLOT_A_ADDR)))
  {
    hide Follows, InRecovery, Load, Target, Running, VerifySlot, SlotAt, SlotAfterErase, AwayFromConfig, OnlyDeadBases;
    hide Apart;
    RecoveryLoads(w, v, first.mem);
    if Target(w, first.mem) == SLOT_A_ADDR {
      var log, d := ShippedUploadRevivesBase(w, v, first, r);
      LiveBase(w, first, log, d);
    } else {
      ShippedSlotBAwayFromConfig();
      ApartRunning(w, first.mem);
      DeadBasesExactly(w, v, first);
      forall n | HEADER_SIZE <= n <= SLOT_SIZE ensures BaseLeft(w, first.mem, n) == BaseLeft(w, first.mem, SLOT_SIZE) {
        ShippedSameErase(SlotAt(first.mem, SLOT_A_ADDR), n);
      }
    }
  }

  lemma ApartRunning(w: Platform, mem: Memory)
    requires Apart(w, mem) && Target(w, mem) == SLOT_B_ADDR
    ensures Running(w, mem) == SLOT_A_ADDR
  {
    hide Load;
  }

  lemma ShippedSameErase(s: Slot, n: nat)
    requires 0 < n <= SLOT_SIZE
    ensures SlotAfterErase(STM32F407, s, SLOT_A_ADDR, SLOT_B_ADDR, SLOT_B_ADDR + n) == TailErased(s)
  {
    hide InErasedSector;
    var a, b := SlotAfterErase(STM32F407, s, SLOT_A_ADDR, SLOT_B_ADDR, SLOT_B_ADDR + n), TailErased(s);
    forall i | 0 <= i < SLOT_SIZE ensures a[i] == b[i] {
      ShippedSlotBEraseReach(n, i);
      ShippedSlotBEraseReach(SLOT_SIZE, i);
    }
  }
}
