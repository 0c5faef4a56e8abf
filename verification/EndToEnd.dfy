/**
 From the signing tool to the running image: what a push that reports success means after
 the reset that follows it.
 */
module EndToEnd {
  import opened Bytes
  import opened Layout
  import opened Flash
  import opened Crypto
  import opened BootConfig
  import opened Boot
  import opened Frame
  import opened OtaClient
  import opened Channel
  import opened Transfers
  import BootRuns
  import Delta
  import FirmwareImage
  import Sha256

  /** The boot after the reset. */
  function NextBoot(w: Platform, d: Device): Booted {
    BootStep(w.trust, w.g, d.mem, d.sram)
  }

  /** It runs the slot just written, on its first attempt, keeps it, and the floor is at least its version. */
  predicate BootsNewImage(w: Platform, d: Device, b: Booted) {
    && b.slot == OtherSlot(Load(w.trust, d.mem).cfg.active) && b.cfg.active == b.slot && b.cfg.attempts == 1
    && Load(w.trust, b.mem) == Loaded(Stamp(b.cfg), true)
    && SlotAddr(b.slot) == d.session.slotAddr && RunsFrom(w, b)
  }

  predicate RunsFrom(w: Platform, b: Booted) {
    var slot := SlotAt(b.mem, SlotAddr(b.slot));
    VerifySlot(w.trust, slot) && Floor(b.cfg) >= FirmwareImage.Version(slot)
  }

  /** The transfer went into the inactive slot, and that is away from the configuration. */
  predicate ReadyToSwap(w: Platform, d: Device) {
    OnTarget(w, d) && AwayFromConfig(w.g, d.session.slotAddr)
  }

  /** A completed transfer did go there, if its aim counts. */
  lemma AimableIsReady(w: Platform, job: Job, d: Device)
    requires JobOk(job) && Completed(w, job, d) && Aimable(w, d) && AwayFromConfig(w.g, d.session.slotAddr)
    ensures ReadyToSwap(w, d) && d.session.active
  {
    hide Aimable, Acceptable, Transferred, AwayFromConfig, OnTarget;
  }

  /** What END checked is what the swap checks. */
  lemma CompletedSwaps(w: Platform, job: Job, d: Device)
    requires JobOk(job) && Completed(w, job, d) && OnTarget(w, d)
    ensures d.session.slotAddr == SlotAddr(OtherSlot(Load(w.trust, d.mem).cfg.active))
    ensures SwapTaken(BanksOf(w.trust, d.mem), Load(w.trust, d.mem).cfg) && d.sram.pending != 0
    ensures VerifySlot(w.trust, SlotAt(d.mem, d.session.slotAddr))
  {
    hide VerifySlot, FirmwareImage.Version, Load, Allowed, SlotAt, Transferred, Aimable;
  }

  /** A completed transfer, then the reset: the device boots the slot that was written, unchanged. */
  lemma CompletedBoots(w: Platform, job: Job, d: Device)
    requires JobOk(job) && Completed(w, job, d) && ReadyToSwap(w, d)
    ensures BootsNewImage(w, d, NextBoot(w, d))
    ensures SlotAt(NextBoot(w, d).mem, d.session.slotAddr) == SlotAt(d.mem, d.session.slotAddr)
  {
    hide Completed, JobOk, BootStep, VerifySlot, FirmwareImage.Version, Load, SwapTaken, SlotAt, AwayFromConfig;
    hide OnTarget, Stamp, Floor;
    CompletedSwaps(w, job, d);
    BootRuns.PendingSwapBoots(w.trust, w.g, d.mem, d.sram);
    var target := OtherSlot(Load(w.trust, d.mem).cfg.active);
    BootRuns.BootStepKeepsSlot(w.trust, w.g, d.mem, d.sram, SlotAddr(target));
    assert BanksOf(w.trust, d.mem).Of(target) == BankAt(w.trust, d.mem, SlotAddr(target));
  }

  lemma HeadOfSlot(m: Memory, m': Memory, addr: u32, n: nat)
    requires Delta.SlotBase(addr) && n <= SLOT_SIZE && SlotAt(m, addr) == SlotAt(m', addr)
    ensures Stretch(m, addr, n) == Stretch(m', addr, n) && Stretch(m, addr, n) == SlotAt(m, addr)[..n]
  {
    SliceOfSlice(m, addr - FLASH_BASE, SLOT_SIZE, 0, n);
    SliceOfSlice(m', addr - FLASH_BASE, SLOT_SIZE, 0, n);
  }

  /** For a pushed image, the slot then running starts with exactly the bytes pushed. */
  lemma PushedImageBoots(w: Platform, job: Job, d: Device)
    requires JobOk(job) && job.start.op == OP_START && Completed(w, job, d) && ReadyToSwap(w, d)
    ensures BootsNewImage(w, d, NextBoot(w, d)) && |job.blob| <= SLOT_SIZE
    ensures Stretch(NextBoot(w, d).mem, SlotAddr(NextBoot(w, d).slot), |job.blob|) == job.blob
  {
    CompletedBoots(w, job, d);
    hide NextBoot, RunsFrom, Load, Aimable, Apart, BaseKnown, Descends, ReadyToSwap, Acceptable, OnTarget, Stamp;
    hide Rebuilt, SlotAt, Stretch, JobOk;
    HeadOfSlot(d.mem, NextBoot(w, d).mem, d.session.slotAddr, |job.blob|);
  }

  /**
   The shipped part is no exception while slot A is the active one: with the record valid
   and no flash operation failed, the image pushed into slot B boots.
   */
  lemma ShippedPushIntoSlotBBoots(w: Platform, job: Job, d: Device)
    requires w.g == STM32F407 && JobOk(job) && job.start.op == OP_START && Completed(w, job, d)
    requires Load(w.trust, d.mem).ok && !d.faulty && d.session.slotAddr == SLOT_B_ADDR
    ensures BootsNewImage(w, d, NextBoot(w, d)) && |job.blob| <= SLOT_SIZE
    ensures Stretch(NextBoot(w, d).mem, SLOT_B_ADDR, |job.blob|) == job.blob
  {
    hide JobOk, Completed, OnTarget, Load, NextBoot, RunsFrom, Stretch;
    ShippedReady(w, job, d);
    PushedImageBoots(w, job, d);
  }

  lemma ShippedReady(w: Platform, job: Job, d: Device)
    requires w.g == STM32F407 && JobOk(job) && Completed(w, job, d)
    requires Load(w.trust, d.mem).ok && !d.faulty && d.session.slotAddr == SLOT_B_ADDR
    ensures Aimable(w, d) && ReadyToSwap(w, d) && d.session.active
  {
    hide JobOk, Completed, Load, Tiles, ConfigInOneSector, AwayFromConfig, OnTarget;
    ShippedTableTiles();
    ShippedTableNotIsolated();
    ShippedSlotBAwayFromConfig();
    AimableIsReady(w, job, d);
  }

  // ----- Deltas ---------------------------------------------------------------------------

  /** The slot booted starts with the new image of a delta, made from this old image. */
  ghost predicate RunsRebuilt(w: Platform, job: Job, b: Booted, oldImg: seq<byte>, faulty: bool) {
    && JobOk(job) && KindOf(job) == Patch && NewTotal(job) <= SLOT_SIZE
    && Rebuilt(w, job, Stretch(b.mem, SlotAddr(b.slot), NewTotal(job)), oldImg, faulty)
  }

  /**
   For a pushed delta, the slot then booted starts with what the patcher makes of the
   host's patch and of the old image, the one in the slot of the active identifier; when
   no flash operation failed, that is the pure patch. Where the session's aim counts, the
   old image is what erasing the new slot left of an image with the host's digest, and has
   that digest itself if the erase spares its slot.
   */
  lemma PushedDeltaBoots(w: Platform, job: Job, d: Device)
    requires JobOk(job) && job.start.op == OP_START_DELTA && Completed(w, job, d)
    requires ReadyToSwap(w, d) && Apart(w, d.mem)
    ensures BootsNewImage(w, d, NextBoot(w, d))
    ensures RunsRebuilt(w, job, NextBoot(w, d), Delta.OldImage(d.mem, Running(w, d.mem)), d.faulty)
    ensures Aimable(w, d) && BaseKnown(w, d) ==> Descends(w, d.mem, BaseDigest(job))
    ensures Aimable(w, d) && RunningSpared(w, d.mem) ==>
      Sha256.Hash(Delta.OldImage(d.mem, Running(w, d.mem))) == BaseDigest(job)
  {
    hide Aimable, NextBoot, RunsFrom, Load, RunningSpared, Descends, Stamp, SlotAt, JobOk, Running, Target;
    hide AwayFromConfig, Delta.OldImage, Rebuilt, Stretch, Acceptable, Sha256.Hash;
    CompletedBoots(w, job, d);
    RunningApart(w, d.mem);
    HeadOfSlot(d.mem, NextBoot(w, d).mem, d.session.slotAddr, d.session.expectedNew);
    if Aimable(w, d) && RunningSpared(w, d.mem) { SparedBaseIntact(w, d.mem, BaseDigest(job)); }
  }

  /** The erase left the image itself exactly when it took nothing of it that was not blank. */
  lemma LeftImageExactly(w: Platform, m: Memory, s: Slot, digest: seq<byte>)
    requires LeftOf(w, m, s, digest)
    ensures var base, target := Running(w, m), Target(w, m);
      Delta.BaseRegion(SlotAt(m, base)) == Delta.BaseRegion(s) <==>
        ImageSpared(w.g, s, base, |Delta.BaseRegion(s).value|, target, target + SLOT_SIZE)
  {
    hide Running, Target, Sha256.Hash, Delta.BaseRegion, SlotAt, InErasedSector;
    SameImageExactly(s, SlotAt(m, Running(w, m)));
  }

  /** A base of which the erase took nothing still has its digest. */
  lemma IntactBase(w: Platform, m: Memory, s: Slot, digest: seq<byte>)
    requires LeftOf(w, m, s, digest)
    requires var base, target := Running(w, m), Target(w, m);
      ImageSpared(w.g, s, base, |Delta.BaseRegion(s).value|, target, target + SLOT_SIZE)
    ensures Sha256.Hash(Delta.OldImage(m, Running(w, m))) == digest
  {
    hide Running, Target, Sha256.Hash, Delta.BaseRegion, Delta.OldImage, SlotAt, SlotAfterErase, ImageSpared;
    LeftImageExactly(w, m, s, digest);
    BaseIsOldImage(m, Running(w, m));
  }

  lemma SparedBaseIntact(w: Platform, m: Memory, digest: seq<byte>)
    requires Descends(w, m, digest) && RunningSpared(w, m)
    ensures Sha256.Hash(Delta.OldImage(m, Running(w, m))) == digest
  {
    hide Load, Running, Target, Sha256.Hash, Delta.OldImage, SlotAt, SlotAfterErase, BootRuns.WellFormed, ImageSpared;
    hide Delta.BaseRegion, Separate;
    var base, target := Running(w, m), Target(w, m);
    var s: Slot :| LeftOf(w, m, s, digest);
    SeparateSparesImage(w.g, s, base, |Delta.BaseRegion(s).value|, target, target + SLOT_SIZE);
    IntactBase(w, m, s, digest);
  }

  /**
   On the shipped part, with slot A as the old image's slot: what the erase of slot B left
   is the image itself exactly when that ends before the last 16 KB, or is blank there.
   */
  lemma ShippedBaseIntactExactly(w: Platform, m: Memory, s: Slot, digest: seq<byte>)
    requires w.g == STM32F407 && LeftOf(w, m, s, digest) && Running(w, m) == SLOT_A_ADDR && Target(w, m) == SLOT_B_ADDR
    ensures Delta.BaseRegion(SlotAt(m, SLOT_A_ADDR)) == Delta.BaseRegion(s) <==>
      TailBlank(s, |Delta.BaseRegion(s).value|)
    ensures TailBlank(s, |Delta.BaseRegion(s).value|) ==> Sha256.Hash(Delta.OldImage(m, SLOT_A_ADDR)) == digest
  {
    hide Load, Running, Target, Sha256.Hash, Delta.BaseRegion, Delta.OldImage, SlotAt, InErasedSector, TailBlank;
    hide ImageSpared;
    var n := |Delta.BaseRegion(s).value|;
    ShippedImageSpared(s, n, SLOT_SIZE);
    LeftImageExactly(w, m, s, digest);
    if TailBlank(s, n) { IntactBase(w, m, s, digest); }
  }

  /** In particular when the old image found is at most 444 KB long. */
  lemma ShippedShortBaseIntact(w: Platform, m: Memory, digest: seq<byte>)
    requires w.g == STM32F407 && Descends(w, m, digest) && Running(w, m) == SLOT_A_ADDR && Target(w, m) == SLOT_B_ADDR
    requires |Delta.OldImage(m, SLOT_A_ADDR)| <= SLOT_A_REACH
    ensures Sha256.Hash(Delta.OldImage(m, SLOT_A_ADDR)) == digest
  {
    hide Load, Running, Target, Sha256.Hash, Delta.OldImage, SlotAt, SlotAfterErase;
    var s: Slot :| LeftOf(w, m, s, digest);
    var r := SlotAt(m, SLOT_A_ADDR);
    ShippedHeaderKept(s);
    OldImageLength(m, SLOT_A_ADDR);
    hide Delta.LogicalTotal;
    ShippedBaseIntactExactly(w, m, s, digest);
  }

  /** The size field lies before the last 16 KB. */
  lemma ShippedHeaderKept(s: Slot)
    ensures var r := SlotAfterErase(STM32F407, s, SLOT_A_ADDR, SLOT_B_ADDR, SLOT_B_ADDR + SLOT_SIZE);
      Delta.LogicalTotal(r) == Delta.LogicalTotal(s)
  {
    hide InErasedSector, U32;
    var r := SlotAfterErase(STM32F407, s, SLOT_A_ADDR, SLOT_B_ADDR, SLOT_B_ADDR + SLOT_SIZE);
    forall i | 8 <= i < 12 ensures r[i] == s[i] { ShippedSlotBEraseReach(SLOT_SIZE, i); }
    assert r[8..12] == s[8..12];
  }

  lemma OldImageLength(m: Memory, addr: u32)
    requires Delta.SlotBase(addr)
    ensures var n := Delta.LogicalTotal(SlotAt(m, addr)); |Delta.OldImage(m, addr)| == if n <= SLOT_SIZE then n else 0
  {
    var s, hdr := SlotAt(m, addr), Stretch(m, addr, HEADER_SIZE);
    SliceOfSlice(m, addr - FLASH_BASE, SLOT_SIZE, 0, HEADER_SIZE);
    SliceOfSlice(s, 0, HEADER_SIZE, 8, 12);
    assert hdr == s[0..HEADER_SIZE] && hdr[8..12] == s[8..12];
  }

  /**
   A delta on the shipped part, with slot A active: the new image boots from slot B, made
   from what slot A holds; and that is the image with the host's digest if it is at most
   444 KB long.
   */
  lemma ShippedDeltaIntoSlotBBoots(w: Platform, job: Job, d: Device)
    requires w.g == STM32F407 && JobOk(job) && job.start.op == OP_START_DELTA && Completed(w, job, d)
    requires Load(w.trust, d.mem).ok && Apart(w, d.mem) && !d.faulty && d.session.slotAddr == SLOT_B_ADDR
    ensures var oldImg := Delta.OldImage(d.mem, SLOT_A_ADDR);
      && BootsNewImage(w, d, NextBoot(w, d)) && RunsRebuilt(w, job, NextBoot(w, d), oldImg, false)
      && Descends(w, d.mem, BaseDigest(job))
      && (|oldImg| <= SLOT_A_REACH ==> Sha256.Hash(oldImg) == BaseDigest(job))
  {
    hide JobOk, Completed, Load, Aimable, Apart, OnTarget, Running, Target, AwayFromConfig, NextBoot, RunsFrom, Stamp;
    hide Descends, RunsRebuilt, RunningSpared, Delta.OldImage, Sha256.Hash;
    ShippedReady(w, job, d);
    ShippedSlots(w, d);
    PushedDeltaBoots(w, job, d);
    if |Delta.OldImage(d.mem, SLOT_A_ADDR)| <= SLOT_A_REACH { ShippedShortBaseIntact(w, d.mem, BaseDigest(job)); }
  }

  lemma ShippedSlots(w: Platform, d: Device)
    requires d.session.active && OnTarget(w, d) && Apart(w, d.mem) && d.session.slotAddr == SLOT_B_ADDR
    ensures Target(w, d.mem) == SLOT_B_ADDR && Running(w, d.mem) == SLOT_A_ADDR
  {
    hide Load;
  }

  // ----- A signed payload -----------------------------------------------------------------------

  /** `blob` is what the tools make of a payload, signed with (r, s). */
  predicate BuiltAndSigned(t: Trust, img: FirmwareImage.Image, r: nat, s: nat, blob: seq<byte>) {
    var region, file := FirmwareImage.SigningBytes(img), FirmwareImage.SignedImage(img);
    && img == Unsigned(img.version, img.timestamp, img.payload) && 0 < |img.payload| <= MAX_PAYLOAD
    && region.Some? && file.Some? && Signs(t, Sha256.Hash(region.value), r, s)
    && SignTool(file.value, r, s) == Some(blob)
  }

  /** The slot holds this payload under this version. */
  predicate HoldsPayload(slot: Slot, img: FirmwareImage.Image) {
    SizeOk(slot) && Payload(slot) == img.payload && FirmwareImage.Version(slot) == img.version
  }

  /**
   The whole way: a payload is built, signed and pushed, the push succeeds, the device
   resets. It then runs a slot whose payload and version are the ones that were built.
   */
  lemma SignedPayloadRuns(w: Platform, job: Job, d: Device, img: FirmwareImage.Image, r: nat, s: nat)
    requires JobOk(job) && job.start.op == OP_START && Completed(w, job, d) && ReadyToSwap(w, d)
    requires BuiltAndSigned(w.trust, img, r, s, job.blob)
    ensures BootsNewImage(w, d, NextBoot(w, d))
    ensures HoldsPayload(SlotAt(NextBoot(w, d).mem, SlotAddr(NextBoot(w, d).slot)), img)
  {
    PushedImageBoots(w, job, d);
    hide NextBoot, Completed, Load, ReadyToSwap, Stamp, BuiltAndSigned, VerifySlot, HoldsPayload, SlotAt, Stretch, JobOk;
    var b := NextBoot(w, d);
    var slot := SlotAt(b.mem, SlotAddr(b.slot));
    HeadOfSlot(b.mem, b.mem, SlotAddr(b.slot), |job.blob|);
    PayloadArrives(w.trust, img, r, s, job.blob, slot);
  }

  /**
   The same for a delta: when the pure patch, applied to the old image, gives a payload
   built and signed, and no flash operation failed, that payload runs after the reset.
   */
  lemma SignedDeltaRuns(w: Platform, job: Job, d: Device, newImg: seq<byte>, img: FirmwareImage.Image, r: nat, s: nat)
    requires JobOk(job) && job.start.op == OP_START_DELTA && Completed(w, job, d) && !d.faulty
    requires ReadyToSwap(w, d) && Apart(w, d.mem) && BuiltAndSigned(w.trust, img, r, s, newImg)
    requires Delta.Patched(w.patcher, job.blob, Delta.OldImage(d.mem, Running(w, d.mem)), NewTotal(job)) == Delta.Outcome(true, newImg)
    ensures BootsNewImage(w, d, NextBoot(w, d))
    ensures HoldsPayload(SlotAt(NextBoot(w, d).mem, SlotAddr(NextBoot(w, d).slot)), img)
  {
    hide Completed, NextBoot, Load, ReadyToSwap, Apart, Aimable, BaseKnown, RunningSpared, Descends, Running, Stamp;
    hide BuiltAndSigned, VerifySlot, HoldsPayload, SlotAt, Stretch, JobOk, Delta.OldImage, Delta.Applied, Delta.Patched;
    PushedDeltaBoots(w, job, d);
    var b := NextBoot(w, d);
    HeadOfSlot(b.mem, b.mem, SlotAddr(b.slot), NewTotal(job));
    PayloadArrives(w.trust, img, r, s, newImg, SlotAt(b.mem, SlotAddr(b.slot)));
  }

  lemma PayloadArrives(t: Trust, img: FirmwareImage.Image, r: nat, s: nat, blob: seq<byte>, slot: Slot)
    requires BuiltAndSigned(t, img, r, s, blob) && VerifySlot(t, slot) && blob <= slot
    ensures HoldsPayload(slot, img)
  {
    VerifiedKey(t, slot);
    VerifiedHeader(t, slot);
    hide VerifySlot, FirmwareImage.SigningBytes, FirmwareImage.SignedImage, SignTool, Signs, Sha256.Hash, KeyOk;
    hide FirmwareImage.Magic, FirmwareImage.PayloadSize, FirmwareImage.Version;
    SignThenVerify(t, img, r, s, slot);
  }

  lemma VerifiedKey(t: Trust, slot: Slot)
    requires VerifySlot(t, slot)
    ensures KeyOk(t)
  {
    hide KeyOk, FirmwareImage.Magic, SizeOk;
  }
}
