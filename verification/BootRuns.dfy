/**
 Properties of the boot machine over whole runs: the anti-downgrade floor, power cuts
 at the OTA commit, rollback after unconfirmed boots, and what the shipped sector
 table does to all of this.
 */
module BootRuns {
  import opened Bytes
  import opened Layout
  import opened Crypto
  import opened BootConfig
  import opened Boot
  import Crc32
  import FirmwareImage

  // ----- Slot picking ---------------------------------------------------------------

  predicate WellFormed(c: Config) {
    c.active == SLOT_A || c.active == SLOT_B
  }

  /** A slot comes out exactly when one verifies; it is then the active one, with at most three attempts. */
  lemma PickBootsVerifiedSlot(bk: Banks, c: Config)
    requires WellFormed(c)
    ensures Pick(bk, c).slot == 0 <==> !bk.a.ok && !bk.b.ok
    ensures Pick(bk, c).slot != 0 ==>
      && bk.Of(Pick(bk, c).slot).ok && Pick(bk, c).slot == Pick(bk, c).cfg.active
      && Pick(bk, c).cfg.attempts <= MAX_BOOT_ATTEMPTS
    ensures WellFormed(Pick(bk, c).cfg)
  {
  }

  /**
   The first clause needs the well-formed identifier: with any other one stored, both
   the slot tried and its alternate are slot A, so a good slot B is not found, and the
   identifier 0 even reads as recovery mode.
   */
  lemma PickMissesSlotB(bk: Banks, c: Config)
    requires !WellFormed(c)
    ensures Pick(bk, c).slot == 0 <==> !bk.a.ok || (c.active == 0 && c.attempts < MAX_BOOT_ATTEMPTS)
  {
  }

  /**
   Slot picking does what it is for, recovery mode exactly when neither slot verifies,
   if and only if the identifier is A or B, or slot A verifies and the identifier does
   not read as recovery mode, or neither slot verifies.
   */
  lemma PickRightExactly(bk: Banks, c: Config)
    ensures (Pick(bk, c).slot == 0 <==> !bk.a.ok && !bk.b.ok) <==>
      (WellFormed(c) || (if bk.a.ok then !(c.active == 0 && c.attempts < MAX_BOOT_ATTEMPTS) else !bk.b.ok))
  {
    if WellFormed(c) { PickBootsVerifiedSlot(bk, c); } else { PickMissesSlotB(bk, c); }
  }

  /** Any identifier can be stored: for every flash there is one with the same slots and that identifier, valid. */
  lemma AnyIdentifierCanBeStored(t: Trust, mem: Memory, id: byte)
    ensures exists m: Memory ::
      && Load(t, m).ok && Load(t, m).cfg.active == id
      && SlotAt(m, SLOT_A_ADDR) == SlotAt(mem, SLOT_A_ADDR) && SlotAt(m, SLOT_B_ADDR) == SlotAt(mem, SLOT_B_ADDR)
  {
    hide Crc32.Checksum, Encode, Recover, BanksOf, Load;
    var c := Default().(active := id);
    SavedLoadsBack(t, [], mem, c);
    StampKeepsState(c);
    var m := Saved([], mem, c);
    assert Erased([], mem, CONFIG_ADDR, CONFIG_END) == mem;
    var at := CONFIG_ADDR - FLASH_BASE;
    SpliceOutside(mem, at, Encode(Stamp(c)), SLOT_A_ADDR - FLASH_BASE, SLOT_A_ADDR - FLASH_BASE + SLOT_SIZE);
    SpliceOutside(mem, at, Encode(Stamp(c)), SLOT_B_ADDR - FLASH_BASE, SLOT_B_ADDR - FLASH_BASE + SLOT_SIZE);
  }

  /** Slot picking and confirmation leave the recorded versions and the counter alone. */
  predicate SameRecords(c: Config, d: Config) {
    c.verA == d.verA && c.verB == d.verB && c.rollback == d.rollback && c.magic == d.magic
  }

  /**
   The only way the records change is a taken swap: pending, verified, and at or above
   the floor; the floor then is the one of the new version at least.
   */
  lemma DecideRecords(bk: Banks, c: Config, s: Sram)
    ensures var p := Decide(bk, c, s);
      && Floor(c) <= Floor(p.cfg) && p.cfg.magic == c.magic
      && (SameRecords(c, p.cfg) || (s.pending != 0 && bk.Of(OtherSlot(c.active)).ok
            && bk.Of(OtherSlot(c.active)).version >= Floor(c)
            && Floor(p.cfg) >= bk.Of(OtherSlot(c.active)).version))
    ensures Consistent(c) ==> Consistent(Decide(bk, c, s).cfg)
    ensures WellFormed(c) ==> WellFormed(Decide(bk, c, s).cfg)
  {
    var c1 := AfterConfirm(c, s);
    if s.pending != 0 && SwapTaken(bk, c1) {
      var inactive := OtherSlot(c1.active);
      RecordRaisesFloor(c1, inactive, bk.Of(inactive).version);
    }
  }

  // ----- One boot, with its saves -----------------------------------------------------

  lemma SavedKeepsBanks(t: Trust, g: Geometry, mem: Memory, c: Config)
    requires ConfigAway(g)
    ensures BanksOf(t, Saved(g, mem, c)) == BanksOf(t, mem)
  {
    hide VerifySlot, Encode, Stamp, Erased, FirmwareImage.Version;
    SavedIsCut(g, mem, c);
    CutSparesSlot(g, mem, c, CONFIG_BYTES, SLOT_A_ADDR);
    CutSparesSlot(g, mem, c, CONFIG_BYTES, SLOT_B_ADDR);
  }

  lemma LoadedMagic(t: Trust, mem: Memory)
    ensures Load(t, mem).cfg.magic == BOOT_CONFIG_MAGIC && Validate(Load(t, mem).cfg)
  {
    hide Crc32.Checksum, BanksOf, Recover;
    RecoveredFloor(BanksOf(t, mem));
  }

  lemma ValidIsStamped(c: Config)
    requires Validate(c)
    ensures Stamp(c) == c
  {
  }

  /** Each part of main leaves the configuration it decided on in flash, whatever the geometry. */
  lemma ConfirmStageLoads(t: Trust, g: Geometry, mem: Memory, s: Sram)
    ensures var x := ConfirmStage(t, g, mem, s);
      Load(t, x.mem) == Loaded(Stamp(x.cfg), true) && x.cfg.magic == BOOT_CONFIG_MAGIC
  {
    hide Saved, Load, Validate, Stamp;
    var c := Load(t, mem).cfg;
    LoadedMagic(t, mem);
    ValidIsStamped(c);
    SavedLoadsBack(t, g, mem, AfterConfirm(c, s));
  }

  lemma SwapStageLoads(t: Trust, g: Geometry, mem: Memory, s: Sram)
    ensures var y := SwapStage(t, g, mem, s);
      Load(t, y.mem) == Loaded(Stamp(y.cfg), true) && y.cfg.magic == BOOT_CONFIG_MAGIC
  {
    ConfirmStageLoads(t, g, mem, s);
    hide ConfirmStage, Saved, Load, Stamp, BanksOf, SwapTaken;
    var x := ConfirmStage(t, g, mem, s);
    forall m: Memory, c: Config | c.magic == BOOT_CONFIG_MAGIC ensures Load(t, Saved(g, m, c)) == Loaded(Stamp(c), true) {
      SavedLoadsBack(t, g, m, c);
    }
  }

  /** What a boot decided is what the next one loads. */
  lemma BootStepLoads(t: Trust, g: Geometry, mem: Memory, s: Sram)
    ensures Load(t, BootStep(t, g, mem, s).mem) == Loaded(Stamp(BootStep(t, g, mem, s).cfg), true)
  {
    SwapStageLoads(t, g, mem, s);
    hide SwapStage, Saved, Load, Stamp, BanksOf;
    var y := SwapStage(t, g, mem, s);
    SavedLoadsBack(t, g, y.mem, Pick(BanksOf(t, y.mem), y.cfg).cfg);
  }

  /**
   What one boot does to the records, whatever the geometry: they change only by a
   pending swap to an image that verified and was at or above the floor when the swap
   was decided, and the floor does not go down.
   */
  predicate RecordsKept(t: Trust, g: Geometry, mem: Memory, s: Sram, before: Config, after: Config) {
    var image := BanksOf(t, ConfirmStage(t, g, mem, s).mem).Of(OtherSlot(before.active));
    && Floor(before) <= Floor(after)
    && (Consistent(before) ==> Consistent(after)) && (WellFormed(before) ==> WellFormed(after))
    && (SameRecords(before, after)
        || (s.pending != 0 && image.ok && Floor(before) <= image.version <= Floor(after)))
  }

  lemma SwapStageRecords(t: Trust, g: Geometry, mem: Memory, s: Sram)
    ensures RecordsKept(t, g, mem, s, Load(t, mem).cfg, SwapStage(t, g, mem, s).cfg)
  {
    hide Saved, Load, BanksOf;
    var x := ConfirmStage(t, g, mem, s);
    var bk := BanksOf(t, x.mem);
    if s.pending != 0 && SwapTaken(bk, x.cfg) {
      RecordRaisesFloor(x.cfg, OtherSlot(x.cfg.active), bk.Of(OtherSlot(x.cfg.active)).version);
    }
  }

  lemma BootStepRecords(t: Trust, g: Geometry, mem: Memory, s: Sram)
    ensures RecordsKept(t, g, mem, s, Load(t, mem).cfg, BootStep(t, g, mem, s).cfg)
  {
    SwapStageRecords(t, g, mem, s);
    hide SwapStage, ConfirmStage, Saved, Load, BanksOf;
  }

  /**
   With the slots away from the configuration one boot decides by what they hold when
   it starts, leaves them alone, and what it decided is what the next boot loads.
   */
  lemma BootStepPersists(t: Trust, g: Geometry, mem: Memory, s: Sram)
    requires ConfigAway(g)
    ensures var b := BootStep(t, g, mem, s);
      && Picked(b.cfg, b.slot, Decide(BanksOf(t, mem), Load(t, mem).cfg, s).dirty)
         == Decide(BanksOf(t, mem), Load(t, mem).cfg, s)
      && BanksOf(t, b.mem) == BanksOf(t, mem)
      && Load(t, b.mem) == Loaded(Stamp(b.cfg), true)
  {
    hide Saved, BanksOf, Load, ConfigAway, Stamp, Floor;
    var bk := BanksOf(t, mem);
    var x := ConfirmStage(t, g, mem, s);
    SavedKeepsBanks(t, g, mem, x.cfg);
    assert BanksOf(t, x.mem) == bk;
    var y := SwapStage(t, g, mem, s);
    var decided := if s.pending != 0 && SwapTaken(bk, x.cfg) then Committed(bk, x.cfg) else x.cfg;
    assert BanksOf(t, y.mem) == bk && y.cfg == decided by {
      if s.pending != 0 && SwapTaken(bk, x.cfg) { SwapStepPersists(t, g, x.mem, x.cfg); }
    }
    BootStepLoads(t, g, mem, s);
    hide ConfirmStage, SwapStage, SwapTaken, Committed;
    SavedKeepsBanks(t, g, y.mem, Pick(bk, y.cfg).cfg);
  }

  lemma SavedKeepsSlot(g: Geometry, mem: Memory, c: Config, addr: u32)
    requires (addr == SLOT_A_ADDR || addr == SLOT_B_ADDR) && AwayFromConfig(g, addr)
    ensures SlotAt(Saved(g, mem, c), addr) == SlotAt(mem, addr)
  {
    hide SlotAt, AwayFromConfig;
    SavedIsCut(g, mem, c);
    CutSparesSlot(g, mem, c, CONFIG_BYTES, addr);
  }

  lemma SavedKeepsBank(t: Trust, g: Geometry, mem: Memory, c: Config, slot: byte)
    requires AwayFromConfig(g, SlotAddr(slot))
    ensures BanksOf(t, Saved(g, mem, c)).Of(slot) == BanksOf(t, mem).Of(slot)
  {
    hide Saved, SlotAt, VerifySlot, FirmwareImage.Version, AwayFromConfig;
    SavedKeepsSlot(g, mem, c, SlotAddr(slot));
  }

  /** A boot leaves a slot away from the configuration as it is, byte for byte. */
  lemma BootStepKeepsSlot(t: Trust, g: Geometry, mem: Memory, s: Sram, addr: u32)
    requires (addr == SLOT_A_ADDR || addr == SLOT_B_ADDR) && AwayFromConfig(g, addr)
    ensures SlotAt(BootStep(t, g, mem, s).mem, addr) == SlotAt(mem, addr)
  {
    hide Saved, SlotAt, AwayFromConfig, Load, Pick, SwapTaken, BanksOf, AfterConfirm, Committed, AfterSwap;
    forall m: Memory, c: Config ensures SlotAt(Saved(g, m, c), addr) == SlotAt(m, addr) {
      SavedKeepsSlot(g, m, c, addr);
    }
  }

  lemma SwapStepPersists(t: Trust, g: Geometry, mem: Memory, c: Config)
    requires ConfigAway(g) && SwapTaken(BanksOf(t, mem), c)
    ensures SwapStep(t, g, mem, c).cfg == Committed(BanksOf(t, mem), c)
    ensures BanksOf(t, SwapStep(t, g, mem, c).mem) == BanksOf(t, mem)
  {
    hide Saved, BanksOf, ConfigAway, Allowed;
    var done := Committed(BanksOf(t, mem), c);
    var m1 := Saved(g, mem, done);
    SavedKeepsBanks(t, g, mem, done);
    SwapOnStableSlots(BanksOf(t, mem), c);
    SavedKeepsBanks(t, g, m1, done);
  }

  // ----- The floor over runs ------------------------------------------------------------

  /** What a reset finds: the flash and the handoff block. */
  datatype Visit = Visit(mem: Memory, sram: Sram)

  function Outcome(t: Trust, g: Geometry, v: Visit): Booted {
    BootStep(t, g, v.mem, v.sram)
  }

  /**
   A run of boots. Between two boots anything may happen to the slots and to SRAM
   (transfers, confirmations, power cycles); only the configuration region stays as the
   boot left it.
   */
  predicate Run(t: Trust, g: Geometry, run: seq<Visit>) {
    forall i :: 0 <= i < |run| - 1 ==> ConfigAt(run[i + 1].mem) == ConfigAt(Outcome(t, g, run[i]).mem)
  }

  function FloorFound(t: Trust, v: Visit): u32 {
    Floor(Load(t, v.mem).cfg)
  }

  lemma LoadOfSameRecord(t: Trust, m: Memory, m': Memory)
    requires Load(t, m).ok && ConfigAt(m) == ConfigAt(m')
    ensures Load(t, m') == Load(t, m)
  {
    hide Validate, Recover, BanksOf;
  }

  /** One boot, and whatever happens until the next one, does not lower the floor and keeps the records consistent. */
  lemma FloorStep(t: Trust, g: Geometry, v: Visit, w: Visit)
    requires ConfigAt(w.mem) == ConfigAt(Outcome(t, g, v).mem)
    ensures FloorFound(t, v) <= FloorFound(t, w)
    ensures Consistent(Load(t, v.mem).cfg) ==> Consistent(Load(t, w.mem).cfg)
  {
    hide BootStep, Load, Floor, Consistent, BanksOf, ConfirmStage, WellFormed, ConfigAt;
    BootStepLoads(t, g, v.mem, v.sram);
    LoadOfSameRecord(t, Outcome(t, g, v).mem, w.mem);
    BootStepRecords(t, g, v.mem, v.sram);
    StampKeepsFloor(Outcome(t, g, v).cfg);
    StampKeepsConsistency(Outcome(t, g, v).cfg);
  }

  /**
   Over every run, in every geometry, the floor a later reset finds is never below one
   an earlier reset found.
   */
  lemma {:induction false} FloorNeverDecreases(t: Trust, g: Geometry, run: seq<Visit>, i: nat, j: nat)
    requires Run(t, g, run) && i <= j < |run|
    ensures FloorFound(t, run[i]) <= FloorFound(t, run[j])
    ensures Consistent(Load(t, run[i].mem).cfg) ==> Consistent(Load(t, run[j].mem).cfg)
    decreases j
  {
    hide FloorFound, Outcome, Consistent, Load, ConfigAt;
    if i < j {
      FloorNeverDecreases(t, g, run, i, j - 1);
      assert ConfigAt(run[j - 1 + 1].mem) == ConfigAt(Outcome(t, g, run[j - 1]).mem);
      FloorStep(t, g, run[j - 1], run[j]);
    }
  }

  /**
   So recovery is exact over real runs: once a boot of the run found a recovered or a
   consistent configuration, losing the configuration at a later one gives back the same
   floor exactly when the highest version that verifies then has the floor of the highest
   one recorded.
   */
  lemma RecoveryExactOverRuns(t: Trust, g: Geometry, run: seq<Visit>, i: nat, j: nat, m: Memory)
    requires Run(t, g, run) && i <= j < |run|
    requires !Load(t, run[i].mem).ok || Consistent(Load(t, run[i].mem).cfg)
    ensures var c := Load(t, run[j].mem).cfg;
      Floor(Recover(BanksOf(t, m), Default())) == FloorFound(t, run[j]) <==>
        FloorOf(BanksOf(t, m).Highest()) == FloorOf(Max(c.verA, c.verB))
  {
    RecoveredIsConsistent(t, run[i].mem);
    hide Run, Load, Floor, Consistent, BanksOf, Recover, Default;
    FloorNeverDecreases(t, g, run, i, j);
    ConsistentFloor(Load(t, run[j].mem).cfg);
    RecoveredFloor(BanksOf(t, m));
  }

  lemma RecoveredIsConsistent(t: Trust, mem: Memory)
    ensures !Load(t, mem).ok ==> Consistent(Load(t, mem).cfg)
  {
    hide BanksOf, Recover, Validate, Consistent, Default;
    RecoveredFloor(BanksOf(t, mem));
  }

  lemma StampKeepsConsistency(c: Config)
    ensures Consistent(Stamp(c)) == Consistent(c)
  {
    hide Crc32.Checksum, Counter;
  }

  lemma StampKeepsFloor(c: Config)
    ensures Floor(Stamp(c)) == Floor(c)
  {
    hide Crc32.Checksum;
  }

  /**
   At every boot of a run, in every geometry: the slot booted verified when it was
   picked, and still does at the jump if it is away from the configuration; and records
   change only for an image that verified when the swap was decided, at or above the
   highest floor any earlier boot of the run found.
   */
  lemma BootsOnlyPermitted(t: Trust, g: Geometry, run: seq<Visit>, i: nat, j: nat)
    requires Run(t, g, run) && i <= j < |run|
    ensures var v, b := run[j], Outcome(t, g, run[j]);
      var before := Load(t, v.mem).cfg;
      var image := BanksOf(t, ConfirmStage(t, g, v.mem, v.sram).mem).Of(OtherSlot(before.active));
      && (WellFormed(before) && b.slot != 0 ==>
            && BanksOf(t, SwapStage(t, g, v.mem, v.sram).mem).Of(b.slot).ok
            && (AwayFromConfig(g, SlotAddr(b.slot)) ==> BanksOf(t, b.mem).Of(b.slot).ok))
      && (SameRecords(before, b.cfg) || (image.ok && image.version >= FloorFound(t, run[i])))
  {
    hide Load, BanksOf, Run, ConfirmStage, Floor, Consistent, AwayFromConfig;
    FloorNeverDecreases(t, g, run, i, j);
    var v := run[j];
    BootStepRecords(t, g, v.mem, v.sram);
    SwapStageRecords(t, g, v.mem, v.sram);
    if WellFormed(Load(t, v.mem).cfg) { JumpTarget(t, g, v); }
  }

  /** From the flash that slots are picked on to the jump, with the save in between. */
  predicate Jumps(t: Trust, g: Geometry, mem: Memory, b: Booted) {
    var bk := BanksOf(t, mem);
    && WellFormed(b.cfg) && (b.slot == 0 <==> !bk.a.ok && !bk.b.ok)
    && if b.slot == 0 then b.mem == mem
       else
         && (b.slot == SLOT_A || b.slot == SLOT_B) && bk.Of(b.slot).ok && b.mem == Saved(g, mem, b.cfg)
         && (AwayFromConfig(g, SlotAddr(b.slot)) ==> BanksOf(t, b.mem).Of(b.slot).ok)
  }

  /** The slot booted verifies at the pick, and at the jump if the save does not reach it. */
  lemma JumpTarget(t: Trust, g: Geometry, v: Visit)
    requires WellFormed(Load(t, v.mem).cfg)
    ensures Jumps(t, g, SwapStage(t, g, v.mem, v.sram).mem, Outcome(t, g, v))
  {
    WellFormedKept(t, g, v);
    hide Load, BanksOf, SwapStage, Saved, AwayFromConfig;
    var y := SwapStage(t, g, v.mem, v.sram);
    var p := Pick(BanksOf(t, y.mem), y.cfg);
    PickBootsVerifiedSlot(BanksOf(t, y.mem), y.cfg);
    if p.slot != 0 && AwayFromConfig(g, SlotAddr(p.slot)) { SavedKeepsBank(t, g, y.mem, p.cfg, p.slot); }
  }

  lemma WellFormedKept(t: Trust, g: Geometry, v: Visit)
    ensures WellFormed(Load(t, v.mem).cfg) ==> WellFormed(SwapStage(t, g, v.mem, v.sram).cfg)
  {
    hide Load, BanksOf, Floor, Consistent, SwapStage, ConfirmStage;
    SwapStageRecords(t, g, v.mem, v.sram);
  }

  /** With the slots away from the configuration, what verifies throughout a boot is what verified when it began. */
  lemma StagesKeepBanks(t: Trust, g: Geometry, mem: Memory, s: Sram)
    requires ConfigAway(g)
    ensures BanksOf(t, ConfirmStage(t, g, mem, s).mem) == BanksOf(t, mem)
    ensures BanksOf(t, SwapStage(t, g, mem, s).mem) == BanksOf(t, mem)
  {
    hide Saved, BanksOf, Load, ConfigAway, SwapTaken, Committed, AfterSwap, AfterConfirm;
    forall m: Memory, c: Config ensures BanksOf(t, Saved(g, m, c)) == BanksOf(t, m) { SavedKeepsBanks(t, g, m, c); }
  }

  // ----- Power cuts -----------------------------------------------------------------------

  /**
   A power cut at any byte of the OTA-commit save: the next load gives the committed
   record, or a recovered configuration whose floor is at least the committed one. Only
   the new image's slot has to lie outside the configuration's sectors.
   */
  lemma CommitCutKeepsFloor(t: Trust, g: Geometry, mem: Memory, c: Config, m: Memory)
    requires Tiles(g) && SwapTaken(BanksOf(t, mem), c)
    requires AwayFromConfig(g, SlotAddr(OtherSlot(c.active)))
    requires CutImage(g, mem, Committed(BanksOf(t, mem), c), m)
    ensures var done := Committed(BanksOf(t, mem), c);
      && Floor(done) >= Floor(c)
      && (Load(t, m) == Loaded(Stamp(done), true) || (!Load(t, m).ok && Floor(Load(t, m).cfg) >= Floor(done)))
  {
    hide BanksOf, Committed, Floor, Recover, Stamp, AwayFromConfig, CutImage, Allowed, Tiles;
    var bk := BanksOf(t, mem);
    var inactive := OtherSlot(c.active);
    var done := Committed(bk, c);
    CommittedFloor(bk, c);
    LoadAfterCut(t, g, mem, done, m);
    CutSparesBank(t, g, mem, done, m, inactive);
    VerifiedBelowHighest(BanksOf(t, m), inactive);
    FloorOfMonotone(bk.Of(inactive).version, BanksOf(t, m).Highest());
    RecoveredFloor(BanksOf(t, m));
  }

  lemma CommittedFloor(bk: Banks, c: Config)
    requires SwapTaken(bk, c)
    ensures Floor(c) <= Floor(Committed(bk, c)) <= FloorOf(bk.Of(OtherSlot(c.active)).version)
  {
    RecordRaisesFloor(c, OtherSlot(c.active), bk.Of(OtherSlot(c.active)).version);
  }

  lemma VerifiedBelowHighest(bk: Banks, slot: byte)
    ensures bk.Of(slot).ok ==> bk.Of(slot).version <= bk.Highest()
  {
  }

  /** A cut save leaves what verification says of a slot outside the configuration's sectors. */
  lemma CutSparesBank(t: Trust, g: Geometry, mem: Memory, c: Config, m: Memory, slot: byte)
    requires CutImage(g, mem, c, m)
    requires AwayFromConfig(g, SlotAddr(slot))
    ensures BanksOf(t, m).Of(slot) == BanksOf(t, mem).Of(slot)
  {
    hide CutAt, VerifySlot, FirmwareImage.Version, AwayFromConfig;
    var k :| 0 <= k <= CONFIG_BYTES && m == CutAt(g, mem, c, k);
    CutSparesSlot(g, mem, c, k, SlotAddr(slot));
  }

  /**
   A cut after `k` bytes of any save: the floor found next is lower than that of the
   configuration being saved exactly when bytes of the record are missing and the highest
   version that verifies is too low. With the slots away from the configuration that is
   the highest version that verified before the save.
   */
  lemma CutFloorExactly(t: Trust, g: Geometry, mem: Memory, c: Config, k: nat)
    requires Tiles(g) && k <= CONFIG_BYTES
    ensures var m := CutAt(g, mem, c, k);
      && (Floor(Load(t, m).cfg) < Floor(c) <==> !NothingMissing(c, k) && FloorOf(BanksOf(t, m).Highest()) < Floor(c))
      && (ConfigAway(g) ==> BanksOf(t, m) == BanksOf(t, mem))
  {
    hide Load, VerifySlot, FirmwareImage.Version, Floor, CutAt, NothingMissing;
    FloorAfterCut(t, g, mem, c, k);
    if ConfigAway(g) {
      CutSparesSlot(g, mem, c, k, SLOT_A_ADDR);
      CutSparesSlot(g, mem, c, k, SLOT_B_ADDR);
    }
  }

  // ----- Runs with power cuts -----------------------------------------------------------

  /** A save: the flash it starts from and what it stores. */
  datatype Save = Save(mem: Memory, cfg: Config)

  /** The saves of one boot, in order, when none of them is cut. */
  function SavesOf(t: Trust, g: Geometry, mem: Memory, s: Sram): seq<Save> {
    var loaded, x, y := Load(t, mem), ConfirmStage(t, g, mem, s), SwapStage(t, g, mem, s);
    var p := Pick(BanksOf(t, y.mem), y.cfg);
    (if !loaded.ok || Confirmed(s) then [Save(mem, x.cfg)] else [])
    + (if s.pending != 0 && SwapTaken(BanksOf(t, x.mem), x.cfg) then SwapSaves(t, g, x.mem, x.cfg) else [])
    + (if p.dirty then [Save(y.mem, p.cfg)] else [])
  }

  /** The commit, the revert if the re-verify fails, and the save of main after them. */
  function SwapSaves(t: Trust, g: Geometry, mem: Memory, c: Config): seq<Save> {
    var bk := BanksOf(t, mem);
    var m1 := Saved(g, mem, Committed(bk, c));
    var c1 := AfterSwap(bk, BanksOf(t, m1), c);
    if BanksOf(t, m1).Of(OtherSlot(c.active)).ok then [Save(mem, Committed(bk, c)), Save(m1, c1)]
    else [Save(mem, Committed(bk, c)), Save(m1, c1), Save(Saved(g, m1, c1), c1)]
  }

  /** Each save starts from the flash the ones before it left. */
  predicate Successive(g: Geometry, mem: Memory, saves: seq<Save>, last: Memory)
    decreases |saves|
  {
    if saves == [] then last == mem
    else saves[0].mem == mem && Successive(g, Saved(g, mem, saves[0].cfg), saves[1..], last)
  }

  /** These are all the saves of a boot: one after the other they lead from the flash it found to the one it leaves. */
  lemma SavesMakeTheBoot(t: Trust, g: Geometry, mem: Memory, s: Sram)
    ensures Successive(g, mem, SavesOf(t, g, mem, s), BootStep(t, g, mem, s).mem)
  {
    hide Saved, Load, BanksOf, SwapTaken, Pick, AfterSwap, Committed, AfterConfirm, Confirmed, SwapStage, ConfirmStage;
    hide Successive;
    var loaded, x, y := Load(t, mem), ConfirmStage(t, g, mem, s), SwapStage(t, g, mem, s);
    var p := Pick(BanksOf(t, y.mem), y.cfg);
    var first: seq<Save> := if !loaded.ok || Confirmed(s) then [Save(mem, x.cfg)] else [];
    var swap: seq<Save> :=
      if s.pending != 0 && SwapTaken(BanksOf(t, x.mem), x.cfg) then SwapSaves(t, g, x.mem, x.cfg) else [];
    var last: seq<Save> := if p.dirty then [Save(y.mem, p.cfg)] else [];
    ConfirmSuccessive(t, g, mem, s);
    SwapSuccessive(t, g, mem, s);
    OneSave(g, y.mem, p.cfg);
    SuccessiveConcat(g, mem, first, x.mem, swap, y.mem);
    SuccessiveConcat(g, mem, first + swap, y.mem, last, BootStep(t, g, mem, s).mem);
  }

  lemma OneSave(g: Geometry, mem: Memory, c: Config)
    ensures Successive(g, mem, [Save(mem, c)], Saved(g, mem, c)) && Successive(g, mem, [], mem)
  {
    hide Saved;
  }

  lemma ConfirmSuccessive(t: Trust, g: Geometry, mem: Memory, s: Sram)
    ensures var x := ConfirmStage(t, g, mem, s);
      Successive(g, mem, if !Load(t, mem).ok || Confirmed(s) then [Save(mem, x.cfg)] else [], x.mem)
  {
    hide Saved, Load;
    OneSave(g, mem, ConfirmStage(t, g, mem, s).cfg);
  }

  lemma SwapSuccessive(t: Trust, g: Geometry, mem: Memory, s: Sram)
    ensures var x := ConfirmStage(t, g, mem, s);
      Successive(g, x.mem,
                 if s.pending != 0 && SwapTaken(BanksOf(t, x.mem), x.cfg) then SwapSaves(t, g, x.mem, x.cfg) else [],
                 SwapStage(t, g, mem, s).mem)
  {
    hide Saved, Load, BanksOf, SwapTaken, Committed, AfterSwap, ConfirmStage;
    var x := ConfirmStage(t, g, mem, s);
    OneSave(g, x.mem, x.cfg);
    SwapSavesSuccessive(t, g, x.mem, x.cfg);
  }

  lemma SwapSavesSuccessive(t: Trust, g: Geometry, mem: Memory, c: Config)
    ensures Successive(g, mem, SwapSaves(t, g, mem, c), SwapStep(t, g, mem, c).mem)
  {
    hide Saved, BanksOf, Committed, AfterSwap, Successive;
    var bk := BanksOf(t, mem);
    var done := Committed(bk, c);
    var m1 := Saved(g, mem, done);
    var c1 := AfterSwap(bk, BanksOf(t, m1), c);
    var m2 := Saved(g, m1, c1);
    OneSave(g, mem, done);
    OneSave(g, m1, c1);
    OneSave(g, m2, c1);
    SuccessiveConcat(g, mem, [Save(mem, done)], m1, [Save(m1, c1)], m2);
    SuccessiveConcat(g, mem, [Save(mem, done)] + [Save(m1, c1)], m2, [Save(m2, c1)], Saved(g, m2, c1));
    assert [Save(mem, done)] + [Save(m1, c1)] == [Save(mem, done), Save(m1, c1)];
    assert [Save(mem, done)] + [Save(m1, c1)] + [Save(m2, c1)] == [Save(mem, done), Save(m1, c1), Save(m2, c1)];
  }

  lemma {:induction false} SuccessiveConcat(g: Geometry, mem: Memory, a: seq<Save>, mid: Memory, b: seq<Save>,
                                            last: Memory)
    requires Successive(g, mem, a, mid) && Successive(g, mid, b, last)
    ensures Successive(g, mem, a + b, last)
    decreases |a|
  {
    hide Saved;
    if a == [] {
      assert a + b == b;
    } else {
      assert (a + b)[1..] == a[1..] + b;
      SuccessiveConcat(g, Saved(g, mem, a[0].cfg), a[1..], mid, b, last);
    }
  }

  /**
   How a visit ends: the boot is completed, or power fails after `k` bytes of one of its
   saves, or before the first of them has begun.
   */
  datatype Ending = Completed | CutIn(save: Save, k: nat) | CutBefore

  predicate Possible(t: Trust, g: Geometry, v: Visit, e: Ending) {
    e.CutIn? ==> e.save in SavesOf(t, g, v.mem, v.sram) && e.k <= CONFIG_BYTES
  }

  /** After a completed boot anything may happen to the slots; after a cut the next reset finds the flash as it is. */
  predicate Leads(t: Trust, g: Geometry, v: Visit, e: Ending, w: Visit)
    requires Possible(t, g, v, e)
  {
    match e
    case Completed => ConfigAt(w.mem) == ConfigAt(Outcome(t, g, v).mem)
    case CutIn(save, k) => w.mem == CutAt(g, save.mem, save.cfg, k)
    case CutBefore => w.mem == v.mem
  }

  predicate CutRun(t: Trust, g: Geometry, run: seq<Visit>, ends: seq<Ending>) {
    && |ends| == |run|
    && (forall i :: 0 <= i < |run| ==> Possible(t, g, run[i], ends[i]))
    && (forall i :: 0 <= i < |run| - 1 ==> Leads(t, g, run[i], ends[i], run[i + 1]))
  }

  /** At a cut, the record is complete all the same, or a version as high as the floor found verifies. */
  predicate Backed(t: Trust, g: Geometry, v: Visit, e: Ending) {
    e.CutIn? && e.k <= CONFIG_BYTES ==>
      NothingMissing(e.save.cfg, e.k)
      || FloorOf(BanksOf(t, CutAt(g, e.save.mem, e.save.cfg, e.k)).Highest()) >= FloorFound(t, v)
  }

  /** No save of a boot stores a floor below the one the boot found. */
  lemma SavesRaiseFloor(t: Trust, g: Geometry, v: Visit, save: Save)
    requires save in SavesOf(t, g, v.mem, v.sram)
    ensures Floor(save.cfg) >= FloorFound(t, v)
  {
    hide SwapStage, ConfirmStage, SwapSaves, Pick, Load, BanksOf, SwapTaken, Floor, Confirmed;
    var x, y := ConfirmStage(t, g, v.mem, v.sram), SwapStage(t, g, v.mem, v.sram);
    StageFloors(t, g, v);
    PickKeepsFloor(BanksOf(t, y.mem), y.cfg);
    if SwapTaken(BanksOf(t, x.mem), x.cfg) { SwapSavesRaise(t, g, x.mem, x.cfg); }
  }

  lemma StageFloors(t: Trust, g: Geometry, v: Visit)
    ensures Floor(ConfirmStage(t, g, v.mem, v.sram).cfg) == FloorFound(t, v)
    ensures Floor(SwapStage(t, g, v.mem, v.sram).cfg) >= FloorFound(t, v)
  {
    hide Load, Saved, SwapStage, BanksOf, Consistent, WellFormed;
    SwapStageRecords(t, g, v.mem, v.sram);
  }

  lemma PickKeepsFloor(bk: Banks, c: Config)
    ensures Floor(Pick(bk, c).cfg) == Floor(c)
  {
  }

  lemma SwapSavesRaise(t: Trust, g: Geometry, mem: Memory, c: Config)
    requires SwapTaken(BanksOf(t, mem), c)
    ensures forall save <- SwapSaves(t, g, mem, c) :: Floor(save.cfg) >= Floor(c)
  {
    hide Saved, BanksOf;
    CommittedFloor(BanksOf(t, mem), c);
  }

  /**
   Over every run in which power may fail after any byte of any save, in every geometry:
   the floor found never goes down, as long as every cut is backed.
   */
  lemma {:induction false} FloorSurvivesCuts(t: Trust, g: Geometry, run: seq<Visit>, ends: seq<Ending>, i: nat, j: nat)
    requires Tiles(g) && CutRun(t, g, run, ends) && i <= j < |run|
    requires forall n :: i <= n < j ==> Backed(t, g, run[n], ends[n])
    ensures FloorFound(t, run[i]) <= FloorFound(t, run[j])
    decreases j
  {
    hide FloorFound, Outcome, Possible, Leads, Backed, Tiles;
    if i < j {
      FloorSurvivesCuts(t, g, run, ends, i, j - 1);
      assert Leads(t, g, run[j - 1], ends[j - 1], run[j - 1 + 1]);
      CutStep(t, g, run[j - 1], ends[j - 1], run[j]);
    }
  }

  /** From one reset to the next the floor found stays or rises exactly when the visit in between is backed. */
  lemma CutStep(t: Trust, g: Geometry, v: Visit, e: Ending, w: Visit)
    requires Tiles(g) && Possible(t, g, v, e) && Leads(t, g, v, e, w)
    ensures FloorFound(t, v) <= FloorFound(t, w) <==> Backed(t, g, v, e)
  {
    hide Outcome, SavesOf, Load, Floor, Tiles, BanksOf, NothingMissing, CutAt, ConfigAt;
    match e
    case Completed => FloorStep(t, g, v, w);
    case CutBefore =>
    case CutIn(save, k) =>
      SavesRaiseFloor(t, g, v, save);
      FloorAfterCut(t, g, save.mem, save.cfg, k);
  }

  /** The floor found after a cut is the one being saved, or the one of the highest version that verifies. */
  lemma FloorAfterCut(t: Trust, g: Geometry, mem: Memory, c: Config, k: nat)
    requires Tiles(g) && k <= CONFIG_BYTES
    ensures var m := CutAt(g, mem, c, k);
      Floor(Load(t, m).cfg) == if NothingMissing(c, k) then Floor(c) else FloorOf(BanksOf(t, m).Highest())
  {
    hide Recover, Encode, Stamp, BanksOf, Floor, CutAt, NothingMissing, Default;
    var m := CutAt(g, mem, c, k);
    assert CutImage(g, mem, c, m);
    LoadAfterCut(t, g, mem, c, m);
    CutLoadsExactly(t, g, mem, c, k);
    RecoveredFloor(BanksOf(t, m));
    StampKeepsFloor(c);
  }

  /** With both slots away from the configuration, a power failure in a save leaves what verifies as it was. */
  lemma CutKeepsBanks(t: Trust, g: Geometry, v: Visit, e: Ending, w: Visit)
    requires ConfigAway(g) && Possible(t, g, v, e) && Leads(t, g, v, e, w) && !e.Completed?
    ensures BanksOf(t, w.mem) == BanksOf(t, v.mem)
  {
    hide SavesOf, CutAt, VerifySlot, FirmwareImage.Version, SlotAt, AwayFromConfig;
    if e.CutIn? {
      SavesFindSlot(t, g, v, e.save, SLOT_A_ADDR);
      SavesFindSlot(t, g, v, e.save, SLOT_B_ADDR);
      CutSparesSlot(g, e.save.mem, e.save.cfg, e.k, SLOT_A_ADDR);
      CutSparesSlot(g, e.save.mem, e.save.cfg, e.k, SLOT_B_ADDR);
    }
  }

  /** Every save of a boot stores a well-formed configuration, if the boot found one. */
  lemma SavesWellFormed(t: Trust, g: Geometry, v: Visit, save: Save)
    requires WellFormed(Load(t, v.mem).cfg) && save in SavesOf(t, g, v.mem, v.sram)
    ensures WellFormed(save.cfg)
  {
    WellFormedKept(t, g, v);
    hide SwapStage, SwapSaves, Load, BanksOf, Saved, Confirmed, SwapTaken;
    var x, y := ConfirmStage(t, g, v.mem, v.sram), SwapStage(t, g, v.mem, v.sram);
    PickBootsVerifiedSlot(BanksOf(t, y.mem), y.cfg);
    SwapSavesWellFormed(t, g, x.mem, x.cfg);
  }

  lemma SwapSavesWellFormed(t: Trust, g: Geometry, mem: Memory, c: Config)
    ensures WellFormed(c) ==> forall save <- SwapSaves(t, g, mem, c) :: WellFormed(save.cfg)
  {
    hide Saved, BanksOf;
  }

  /** And so does the next reset, whatever the ending. */
  lemma EndingWellFormed(t: Trust, g: Geometry, v: Visit, e: Ending, w: Visit)
    requires Tiles(g) && WellFormed(Load(t, v.mem).cfg) && Possible(t, g, v, e) && Leads(t, g, v, e, w)
    ensures WellFormed(Load(t, w.mem).cfg)
  {
    hide SavesOf, Load, BootStep, SwapStage, BanksOf, CutAt, Tiles, ConfigAt, Stamp;
    match e
    case Completed =>
      JumpTarget(t, g, v);
      BootStepLoads(t, g, v.mem, v.sram);
      LoadOfSameRecord(t, Outcome(t, g, v).mem, w.mem);
      StampKeepsState(Outcome(t, g, v).cfg);
    case CutBefore =>
    case CutIn(save, k) =>
      SavesWellFormed(t, g, v, save);
      assert CutImage(g, save.mem, save.cfg, w.mem);
      LoadAfterCut(t, g, save.mem, save.cfg, w.mem);
      StampKeepsState(save.cfg);
      RecoveredFloor(BanksOf(t, w.mem));
  }

  /** A run of resets with nothing but the boots themselves, completed or cut, touching the flash. */
  predicate PowerRun(t: Trust, g: Geometry, run: seq<Visit>, ends: seq<Ending>) {
    && CutRun(t, g, run, ends)
    && forall i :: 0 <= i < |run| - 1 && ends[i].Completed? ==> run[i + 1].mem == Outcome(t, g, run[i]).mem
  }

  /** Such a run keeps the identifier well-formed and leaves what verifies as it was. */
  lemma {:induction false} PowerRunKeepsBanks(t: Trust, g: Geometry, run: seq<Visit>, ends: seq<Ending>, i: nat)
    requires Tiles(g) && ConfigAway(g) && PowerRun(t, g, run, ends) && i < |run|
    requires WellFormed(Load(t, run[0].mem).cfg)
    ensures WellFormed(Load(t, run[i].mem).cfg) && BanksOf(t, run[i].mem) == BanksOf(t, run[0].mem)
    decreases i
  {
    hide Possible, Leads, Tiles, ConfigAway, Load, BanksOf, Outcome, WellFormed;
    if i > 0 {
      PowerRunKeepsBanks(t, g, run, ends, i - 1);
      PowerStep(t, g, run[i - 1], ends[i - 1], run[i - 1 + 1]);
    }
  }

  lemma PowerStep(t: Trust, g: Geometry, v: Visit, e: Ending, w: Visit)
    requires Tiles(g) && ConfigAway(g) && Possible(t, g, v, e) && Leads(t, g, v, e, w)
    requires e.Completed? ==> w.mem == Outcome(t, g, v).mem
    requires WellFormed(Load(t, v.mem).cfg)
    ensures WellFormed(Load(t, w.mem).cfg) && BanksOf(t, w.mem) == BanksOf(t, v.mem)
  {
    hide Possible, Leads, Tiles, ConfigAway, Load, BanksOf, BootStep, WellFormed, Decide;
    EndingWellFormed(t, g, v, e, w);
    if e.Completed? { BootStepPersists(t, g, v.mem, v.sram); } else { CutKeepsBanks(t, g, v, e, w); }
  }

  /**
   Power cuts never brick the device: with both slots away from the configuration and one
   of them verifying, however often power fails in whichever save, the next boot that
   gets through jumps to a slot that verifies.
   */
  lemma PowerCutsNeverBrick(t: Trust, g: Geometry, run: seq<Visit>, ends: seq<Ending>, i: nat)
    requires Tiles(g) && ConfigAway(g) && PowerRun(t, g, run, ends) && i < |run|
    requires WellFormed(Load(t, run[0].mem).cfg)
    requires BanksOf(t, run[0].mem).a.ok || BanksOf(t, run[0].mem).b.ok
    ensures var b := Outcome(t, g, run[i]); b.slot != 0 && BanksOf(t, b.mem).Of(b.slot).ok
  {
    hide PowerRun, Tiles, Load, BanksOf, BootStep, WellFormed, AwayFromConfig, SwapStage;
    PowerRunKeepsBanks(t, g, run, ends, i);
    StagesKeepBanks(t, g, run[i].mem, run[i].sram);
    JumpTarget(t, g, run[i]);
  }

  // ----- The handoff from a completed transfer --------------------------------------------

  /**
   With a verified, permitted image in the inactive slot, and that slot away from the
   configuration's sectors, a reset with the pending flag set swaps to it, records it and
   boots it on attempt 1. Nothing is asked of the other slot.
   */
  lemma PendingSwapBoots(t: Trust, g: Geometry, mem: Memory, s: Sram)
    requires s.pending != 0 && SwapTaken(BanksOf(t, mem), Load(t, mem).cfg)
    requires AwayFromConfig(g, SlotAddr(OtherSlot(Load(t, mem).cfg.active)))
    ensures var b := BootStep(t, g, mem, s);
      var target := OtherSlot(Load(t, mem).cfg.active);
      && b.slot == target && b.cfg.active == target && b.cfg.attempts == 1
      && Load(t, b.mem) == Loaded(Stamp(b.cfg), true)
      && Floor(b.cfg) >= BanksOf(t, mem).Of(target).version
  {
    hide Load, BanksOf, Stamp, Floor, SwapTaken, SwapStep, Saved, Pick, AwayFromConfig;
    BootStepLoads(t, g, mem, s);
    var target := OtherSlot(Load(t, mem).cfg.active);
    var x := ConfirmStage(t, g, mem, s);
    SavedKeepsBank(t, g, mem, x.cfg, target);
    SameSwap(BanksOf(t, mem), Load(t, mem).cfg, BanksOf(t, x.mem), x.cfg);
    SwapLands(t, g, x.mem, x.cfg);
    var y := SwapStage(t, g, mem, s);
    PickFresh(BanksOf(t, y.mem), y.cfg);
  }

  /** The swap is decided on the target's bank, the active slot and the records alone. */
  lemma SameSwap(bk: Banks, c: Config, bk': Banks, c': Config)
    requires SwapTaken(bk, c) && c'.active == c.active && SameRecords(c, c')
    requires bk'.Of(OtherSlot(c.active)) == bk.Of(OtherSlot(c.active))
    ensures SwapTaken(bk', c')
  {
  }

  lemma SwapLands(t: Trust, g: Geometry, mem: Memory, c: Config)
    requires SwapTaken(BanksOf(t, mem), c) && AwayFromConfig(g, SlotAddr(OtherSlot(c.active)))
    ensures var y := SwapStep(t, g, mem, c);
      var target := OtherSlot(c.active);
      && y.cfg.active == target && y.cfg.attempts == 0 && BanksOf(t, y.mem).Of(target).ok
      && Floor(y.cfg) >= BanksOf(t, mem).Of(target).version
  {
    hide BanksOf, Saved, AwayFromConfig, Allowed;
    var bk, target := BanksOf(t, mem), OtherSlot(c.active);
    var done := Committed(bk, c);
    var m1 := Saved(g, mem, done);
    SavedKeepsBank(t, g, mem, done, target);
    SavedKeepsBank(t, g, m1, done, target);
    RecordRaisesFloor(c, target, bk.Of(target).version);
  }

  lemma PickFresh(bk: Banks, c: Config)
    requires bk.Of(c.active).ok && c.attempts == 0
    ensures Pick(bk, c) == Picked(c.(attempts := 1), c.active, true)
    ensures Floor(Pick(bk, c).cfg) == Floor(c)
  {
  }

  /** What recovery mode finds: a boot that enters it changed no slot, and neither of them verifies. */
  lemma RecoveryMeansNothingVerifies(t: Trust, g: Geometry, v: Visit)
    requires WellFormed(Load(t, v.mem).cfg) && Outcome(t, g, v).slot == 0
    ensures var bk := BanksOf(t, Outcome(t, g, v).mem); !bk.a.ok && !bk.b.ok
    ensures WellFormed(Load(t, Outcome(t, g, v).mem).cfg)
  {
    WellFormedKept(t, g, v);
    BootStepLoads(t, g, v.mem, v.sram);
    hide Load, BanksOf, SwapStage, Stamp;
    var y := SwapStage(t, g, v.mem, v.sram);
    PickBootsVerifiedSlot(BanksOf(t, y.mem), y.cfg);
    StampKeepsState(Pick(BanksOf(t, y.mem), y.cfg).cfg);
  }

  // ----- Rollback over runs ------------------------------------------------------------

  /** The slots booted by successive resets with nothing else touching the flash. */
  function Reboots(t: Trust, g: Geometry, mem: Memory, srams: seq<Sram>): (r: seq<byte>)
    ensures |r| == |srams|
    decreases |srams|
  {
    if srams == [] then []
    else
      var b := Outcome(t, g, Visit(mem, srams[0]));
      [b.slot] + Reboots(t, g, b.mem, srams[1..])
  }

  /** The same, by the decisions alone. */
  function Schedule(bk: Banks, c: Config, srams: seq<Sram>): (r: seq<byte>)
    ensures |r| == |srams|
    decreases |srams|
  {
    if srams == [] then []
    else
      var p := Decide(bk, c, srams[0]);
      [p.slot] + Schedule(bk, Stamp(p.cfg), srams[1..])
  }

  lemma {:induction false} RebootsFollowSchedule(t: Trust, g: Geometry, mem: Memory, srams: seq<Sram>)
    requires ConfigAway(g)
    ensures Reboots(t, g, mem, srams) == Schedule(BanksOf(t, mem), Load(t, mem).cfg, srams)
    decreases |srams|
  {
    hide BootStep, Load, ConfigAway, BanksOf, Decide, Stamp;
    if srams != [] {
      BootStepPersists(t, g, mem, srams[0]);
      RebootsFollowSchedule(t, g, BootStep(t, g, mem, srams[0]).mem, srams[1..]);
    }
  }

  function Min(a: nat, b: nat): nat { if a < b then a else b }

  /** Whose turn it is `k` boots after `attempts` were counted, without confirmations. */
  function Turn(active: byte, attempts: nat, k: nat): byte {
    if (Min(attempts, MAX_BOOT_ATTEMPTS) + k) / MAX_BOOT_ATTEMPTS % 2 == 0 then active else OtherSlot(active)
  }

  lemma TurnStep(active: byte, attempts: nat, k: nat)
    requires (active == SLOT_A || active == SLOT_B) && k > 0
    ensures attempts < MAX_BOOT_ATTEMPTS ==> Turn(active, attempts, k) == Turn(active, attempts + 1, k - 1)
    ensures attempts >= MAX_BOOT_ATTEMPTS ==> Turn(active, attempts, k) == Turn(OtherSlot(active), 1, k - 1)
  {
    assert (3 + k) / 3 == k / 3 + 1;
  }

  /**
   Rollback: with both slots good, nothing pending and no confirmation, the boots go to
   each slot three times in turn, starting from the attempts already counted.
   */
  lemma {:induction false} UnconfirmedSchedule(bk: Banks, c: Config, srams: seq<Sram>, k: nat)
    requires bk.a.ok && bk.b.ok && WellFormed(c) && k < |srams|
    requires forall i :: 0 <= i < |srams| ==> srams[i].pending == 0 && !Confirmed(srams[i])
    ensures Schedule(bk, c, srams)[k] == Turn(c.active, c.attempts, k)
    decreases k
  {
    hide Stamp, Committed, SwapTaken;
    var p := Decide(bk, c, srams[0]);
    StampKeepsState(p.cfg);
    if k > 0 {
      TurnStep(c.active, c.attempts, k);
      UnconfirmedSchedule(bk, Stamp(p.cfg), srams[1..], k - 1);
    }
  }

  lemma StampKeepsState(c: Config)
    ensures Stamp(c).active == c.active && Stamp(c).attempts == c.attempts
  {
    hide Crc32.Checksum;
  }

  /** No slot boots four times in a row: any four consecutive boots try both slots. */
  lemma FourBootsTryBoth(bk: Banks, c: Config, srams: seq<Sram>, k: nat)
    requires bk.a.ok && bk.b.ok && WellFormed(c) && k + 3 < |srams|
    requires forall i :: 0 <= i < |srams| ==> srams[i].pending == 0 && !Confirmed(srams[i])
    ensures {SLOT_A, SLOT_B} == set i | k <= i < k + 4 :: Schedule(bk, c, srams)[i]
  {
    hide Schedule, Turn, Confirmed;
    var s := Schedule(bk, c, srams);
    forall i | k <= i < k + 4 ensures s[i] == Turn(c.active, c.attempts, i) {
      UnconfirmedSchedule(bk, c, srams, i);
    }
    TurnsAlternate(c.active, c.attempts, k);
    assert s[k] in (set i | k <= i < k + 4 :: s[i]) && s[k + 3] in (set i | k <= i < k + 4 :: s[i]);
  }

  lemma TurnsAlternate(active: byte, attempts: nat, k: nat)
    requires active == SLOT_A || active == SLOT_B
    ensures Turn(active, attempts, k) != Turn(active, attempts, k + 3)
    ensures forall i: nat :: Turn(active, attempts, i) == SLOT_A || Turn(active, attempts, i) == SLOT_B
  {
    assert (Min(attempts, MAX_BOOT_ATTEMPTS) + k + 3) / 3 == (Min(attempts, MAX_BOOT_ATTEMPTS) + k) / 3 + 1;
  }

  /** The three resets from `i` on go by without a confirmation. */
  predicate Dry(srams: seq<Sram>, i: nat)
    requires i + 2 < |srams|
  {
    !Confirmed(srams[i]) && !Confirmed(srams[i + 1]) && !Confirmed(srams[i + 2])
  }

  /** Three resets in a row without a confirmation, somewhere in `srams`. */
  predicate Drought(srams: seq<Sram>) {
    exists i :: 0 <= i < |srams| - 2 && Dry(srams, i)
  }

  /** The first resets leave fewer than three attempts before one confirms. */
  predicate EarlyConfirm(attempts: nat, srams: seq<Sram>) {
    |srams| + attempts <= 3 || exists i :: 0 <= i < |srams| && i + attempts <= 3 && Confirmed(srams[i])
  }

  predicate Stays(attempts: nat, srams: seq<Sram>)
    decreases |srams|
  {
    srams == [] ||
    var a := if Confirmed(srams[0]) then 0 else attempts;
    a < MAX_BOOT_ATTEMPTS && Stays(a + 1, srams[1..])
  }

  lemma {:induction false} StaysIffNoDrought(attempts: nat, srams: seq<Sram>)
    requires 1 <= attempts <= 3
    ensures Stays(attempts, srams) <==> EarlyConfirm(attempts, srams) && !Drought(srams)
    decreases |srams|
  {
    hide Confirmed;
    if srams != [] {
      var rest := srams[1..];
      if Confirmed(srams[0]) {
        StaysIffNoDrought(1, rest);
        DroughtCons(srams);
        if !Drought(rest) { NoDroughtConfirmsEarly(rest); }
      } else if attempts < 3 {
        StaysIffNoDrought(attempts + 1, rest);
        DroughtCons(srams);
        EarlyCons(attempts, srams);
      }
    }
  }

  lemma DroughtCons(srams: seq<Sram>)
    requires srams != []
    ensures Drought(srams) <==> (Drought(srams[1..]) || (|srams| >= 3 && Dry(srams, 0)))
  {
    hide Confirmed;
    var rest := srams[1..];
    forall i: nat | i + 2 < |rest| ensures Dry(rest, i) == Dry(srams, i + 1) {
      assert rest[i] == srams[i + 1];
    }
    hide Dry;
    if Drought(srams) {
      var i :| 0 <= i < |srams| - 2 && Dry(srams, i);
      if i > 0 { assert Dry(rest, i - 1); }
    }
    if Drought(rest) {
      var i :| 0 <= i < |rest| - 2 && Dry(rest, i);
      assert Dry(srams, i + 1);
    }
  }

  lemma EarlyCons(attempts: nat, srams: seq<Sram>)
    requires srams != [] && !Confirmed(srams[0]) && 1 <= attempts < 3
    ensures EarlyConfirm(attempts, srams) <==> EarlyConfirm(attempts + 1, srams[1..])
    ensures EarlyConfirm(attempts, srams) && |srams| >= 3 ==> Confirmed(srams[1]) || Confirmed(srams[2])
  {
    hide Confirmed;
    var rest := srams[1..];
    if EarlyConfirm(attempts, srams) && |srams| + attempts > 3 {
      var i :| 0 <= i < |srams| && i + attempts <= 3 && Confirmed(srams[i]);
      assert rest[i - 1] == srams[i];
    }
    if EarlyConfirm(attempts + 1, rest) && |srams| + attempts > 3 {
      var i :| 0 <= i < |rest| && i + attempts + 1 <= 3 && Confirmed(rest[i]);
      assert srams[i + 1] == rest[i];
    }
  }

  lemma NoDroughtConfirmsEarly(srams: seq<Sram>)
    requires !Drought(srams)
    ensures EarlyConfirm(1, srams)
  {
    hide Confirmed;
    if |srams| > 2 {
      assert !Dry(srams, 0);
      assert Confirmed(srams[0]) || Confirmed(srams[1]) || Confirmed(srams[2]);
    }
  }

  predicate AllAre(s: seq<byte>, b: byte) {
    forall k :: 0 <= k < |s| ==> s[k] == b
  }

  lemma {:induction false} StaysOnActive(bk: Banks, c: Config, srams: seq<Sram>)
    requires bk.a.ok && bk.b.ok && WellFormed(c) && c.attempts <= 3
    requires forall i :: 0 <= i < |srams| ==> srams[i].pending == 0
    ensures Stays(c.attempts, srams) <==> AllAre(Schedule(bk, c, srams), c.active)
    decreases |srams|
  {
    hide Stamp, Committed, SwapTaken, Confirmed;
    if srams != [] {
      var p := Decide(bk, c, srams[0]);
      StampKeepsState(p.cfg);
      var s, rest := Schedule(bk, c, srams), Schedule(bk, Stamp(p.cfg), srams[1..]);
      assert s[0] == p.slot && forall k :: 0 <= k < |rest| ==> s[k + 1] == rest[k];
      StaysOnActive(bk, Stamp(p.cfg), srams[1..]);
      assert Stays(c.attempts, srams) == (p.slot == c.active && Stays(p.cfg.attempts, srams[1..]));
      AllThenRest(s, rest, c.active);
      assert p.slot == Stamp(p.cfg).active && |s| == |srams| && |rest| == |srams[1..]|;
    }
  }

  lemma AllThenRest(s: seq<byte>, rest: seq<byte>, b: byte)
    requires |s| == |rest| + 1 && forall k :: 0 <= k < |rest| ==> s[k + 1] == rest[k]
    ensures AllAre(s, b) <==> s[0] == b && AllAre(rest, b)
  {
    if s[0] == b && AllAre(rest, b) {
      forall k | 0 <= k < |s| ensures s[k] == b {
        if k > 0 { assert s[k - 1 + 1] == rest[k - 1]; }
      }
    }
    if AllAre(s, b) {
      forall k | 0 <= k < |rest| ensures rest[k] == b { assert s[k + 1] == rest[k]; }
    }
  }

  /**
   From zero attempts, the active slot is kept for ever exactly when, after the first
   boot, no three resets in a row go by without a confirmation.
   */
  lemma ActiveKeptIffConfirmed(bk: Banks, c: Config, srams: seq<Sram>)
    requires bk.a.ok && bk.b.ok && WellFormed(c) && c.attempts == 0 && srams != []
    requires forall i :: 0 <= i < |srams| ==> srams[i].pending == 0
    ensures AllAre(Schedule(bk, c, srams), c.active) <==> !Drought(srams[1..])
  {
    hide Schedule, Confirmed;
    StaysOnActive(bk, c, srams);
    StaysIffNoDrought(1, srams[1..]);
    if !Drought(srams[1..]) { NoDroughtConfirmsEarly(srams[1..]); }
  }

  // ----- The shipped sector table ----------------------------------------------------------

  lemma ErasedHeadFailsVerify(t: Trust, s: Slot)
    requires s[0] == 0xFF
    ensures !VerifySlot(t, s)
  {
    if VerifySlot(t, s) {
      VerifiedHeader(t, s);
      hide VerifySlot;
      MagicLowOctet(s);
    }
  }

  lemma MagicLowOctet(s: Slot)
    requires FirmwareImage.Magic(s) == FIRMWARE_MAGIC
    ensures s[0] == 0xEF
  {
    assert s[0..4][0] == s[0];
    U32RoundTrip(s[0..4]);
    assert Le32(FIRMWARE_MAGIC)[0] == 0xEF;
  }

  /** Under the shipped table every save leaves slot A unverifiable, whatever it held, and so does a cut one. */
  lemma ShippedCutKillsSlotA(t: Trust, mem: Memory, c: Config, k: nat)
    requires k <= CONFIG_BYTES
    ensures !VerifySlot(t, SlotAt(CutAt(STM32F407, mem, c, k), SLOT_A_ADDR))
  {
    hide VerifySlot, Encode, Stamp;
    var m1, done := Erased(STM32F407, mem, CONFIG_ADDR, CONFIG_END), Encode(Stamp(c))[..k];
    ShippedConfigEraseHitsSlotA(mem, 0);
    SpliceOutside(m1, CONFIG_ADDR - FLASH_BASE, done, SLOT_A_ADDR - FLASH_BASE, SLOT_A_ADDR - FLASH_BASE + SLOT_SIZE);
    ErasedHeadFailsVerify(t, SlotAt(CutAt(STM32F407, mem, c, k), SLOT_A_ADDR));
  }

  lemma ShippedSaveKillsSlotA(t: Trust, mem: Memory, c: Config)
    ensures !VerifySlot(t, SlotAt(Saved(STM32F407, mem, c), SLOT_A_ADDR))
  {
    hide VerifySlot, Saved, CutAt;
    SavedIsCut(STM32F407, mem, c);
    ShippedCutKillsSlotA(t, mem, c, CONFIG_BYTES);
  }

  /** So every boot that starts an application leaves slot A unverifiable, and no swap into it is kept. */
  lemma ShippedBootKillsSlotA(t: Trust, mem: Memory, s: Sram)
    ensures BootStep(t, STM32F407, mem, s).slot != 0 ==>
      !VerifySlot(t, SlotAt(BootStep(t, STM32F407, mem, s).mem, SLOT_A_ADDR))
  {
    hide VerifySlot, Saved, Load, BanksOf, SwapStage;
    var y := SwapStage(t, STM32F407, mem, s);
    ShippedSaveKillsSlotA(t, y.mem, Pick(BanksOf(t, y.mem), y.cfg).cfg);
  }

  /** So what it jumps to still verifies exactly when it is slot B. */
  lemma ShippedJumpVerifiesExactly(t: Trust, v: Visit)
    requires WellFormed(Load(t, v.mem).cfg) && Outcome(t, STM32F407, v).slot != 0
    ensures var b := Outcome(t, STM32F407, v); BanksOf(t, b.mem).Of(b.slot).ok <==> b.slot == SLOT_B
  {
    ShippedSlotBAwayFromConfig();
    hide Load, BootStep, SwapStage, Saved, AwayFromConfig, VerifySlot, FirmwareImage.Version;
    JumpTarget(t, STM32F407, v);
    ShippedBootKillsSlotA(t, v.mem, v.sram);
  }

  /** After a boot, into an application or recovery mode, slot A no longer verifies; slot B is as it was. */
  lemma ShippedBootLeaves(t: Trust, v: Visit)
    requires WellFormed(Load(t, v.mem).cfg)
    ensures var b := Outcome(t, STM32F407, v);
      && WellFormed(Load(t, b.mem).cfg) && !BanksOf(t, b.mem).a.ok && BanksOf(t, b.mem).b == BanksOf(t, v.mem).b
  {
    ShippedSlotBAwayFromConfig();
    hide Load, BootStep, SwapStage, Saved, AwayFromConfig, VerifySlot, FirmwareImage.Version, SlotAt, Stamp;
    JumpTarget(t, STM32F407, v);
    ShippedBootKillsSlotA(t, v.mem, v.sram);
    BootStepKeepsSlot(t, STM32F407, v.mem, v.sram, SLOT_B_ADDR);
    BootStepLoads(t, STM32F407, v.mem, v.sram);
    StampKeepsState(Outcome(t, STM32F407, v).cfg);
  }

  /** With slot A not verifying, a boot goes to slot B if that verifies, and to recovery mode if not, whatever is pending. */
  lemma ShippedBootsSlotB(t: Trust, v: Visit)
    requires WellFormed(Load(t, v.mem).cfg) && !BanksOf(t, v.mem).a.ok
    ensures Outcome(t, STM32F407, v).slot == if BanksOf(t, v.mem).b.ok then SLOT_B else 0
  {
    hide Load, BootStep, SwapStage, Saved, BanksOf;
    ShippedStageBanks(t, v);
    JumpTarget(t, STM32F407, v);
  }

  lemma ShippedStageBanks(t: Trust, v: Visit)
    requires !BanksOf(t, v.mem).a.ok
    ensures var bk := BanksOf(t, SwapStage(t, STM32F407, v.mem, v.sram).mem);
      !bk.a.ok && bk.b == BanksOf(t, v.mem).b
  {
    ShippedSlotBAwayFromConfig();
    hide Load, Saved, AwayFromConfig, BanksOf, AfterConfirm, Committed, AfterSwap, SwapTaken, Confirmed;
    forall m: Memory, c: Config
      ensures !BanksOf(t, Saved(STM32F407, m, c)).a.ok && BanksOf(t, Saved(STM32F407, m, c)).b == BanksOf(t, m).b
    {
      ShippedSavedBanks(t, m, c);
    }
  }

  lemma ShippedSavedBanks(t: Trust, m: Memory, c: Config)
    requires AwayFromConfig(STM32F407, SLOT_B_ADDR)
    ensures !BanksOf(t, Saved(STM32F407, m, c)).a.ok && BanksOf(t, Saved(STM32F407, m, c)).b == BanksOf(t, m).b
  {
    hide Saved, VerifySlot, FirmwareImage.Version, AwayFromConfig, SlotAt;
    ShippedSaveKillsSlotA(t, m, c);
    SavedKeepsSlot(STM32F407, m, c, SLOT_B_ADDR);
  }

  /**
   So there is no rollback on the shipped part: from the second reset on, whatever the
   attempts, confirmations and pending flags, slot B is booted if it verifies, and
   recovery mode entered if not.
   */
  lemma {:induction false} ShippedRebootsSlotB(t: Trust, mem: Memory, srams: seq<Sram>, k: nat)
    requires WellFormed(Load(t, mem).cfg) && 1 <= k < |srams|
    ensures Reboots(t, STM32F407, mem, srams)[k] == if BanksOf(t, mem).b.ok then SLOT_B else 0
    decreases k
  {
    hide Load, BootStep, BanksOf, WellFormed;
    var v := Visit(mem, srams[0]);
    var b := Outcome(t, STM32F407, v);
    ShippedBootLeaves(t, v);
    if k == 1 {
      ShippedBootsSlotB(t, Visit(b.mem, srams[1]));
    } else {
      ShippedRebootsSlotB(t, b.mem, srams[1..], k - 1);
    }
  }

  /**
   Erasing slot A for a transfer loses the configuration with it: what is found next is
   recovered from slot B, and nothing at all when more than 444 KB were erased.
   */
  lemma ShippedEraseOfSlotALosesFloor(t: Trust, mem: Memory, size: nat)
    requires 0 < size <= SLOT_SIZE
    ensures var m := Erased(STM32F407, mem, SLOT_A_ADDR, SLOT_A_ADDR + size);
      var b := BankAt(t, mem, SLOT_B_ADDR);
      && ConfigAt(m) == Fill(CONFIG_BYTES, 0xFF) && !Load(t, m).ok
      && Floor(Load(t, m).cfg) == if size <= SLOT_A_REACH && b.ok then FloorOf(b.version) else 0
  {
    hide VerifySlot, FirmwareImage.Version, Recover, Default, Floor, SlotAt, ConfigAt;
    var m := Erased(STM32F407, mem, SLOT_A_ADDR, SLOT_A_ADDR + size);
    ShippedSlotAEraseHitsConfig(mem, size);
    ErasedRecordInvalid();
    ShippedSlotAHeadErased(mem, size);
    ErasedHeadFailsVerify(t, SlotAt(m, SLOT_A_ADDR));
    ShippedSlotAEraseReach(mem, size);
    if size > SLOT_A_REACH { ErasedHeadFailsVerify(t, SlotAt(m, SLOT_B_ADDR)); }
    RecoveredFloor(BanksOf(t, m));
  }

  /** A save cut before the magic is complete leaves no valid record. */
  lemma MagicMissing(c: Config, k: nat)
    requires k < CRC_OFFSET
    ensures !NothingMissing(c, k)
  {
    hide Crc32.Checksum;
    var r := Encode(Stamp(c));
    assert r[k..][CRC_OFFSET - 1 - k] == r[CRC_OFFSET - 1] == Le32(c.magic)[3];
    assert Le32(BOOT_CONFIG_MAGIC)[3] == 0xB0;
  }

  /** Every save of a boot finds a slot away from the configuration as the boot found it. */
  lemma SavesFindSlot(t: Trust, g: Geometry, v: Visit, save: Save, addr: u32)
    requires (addr == SLOT_A_ADDR || addr == SLOT_B_ADDR) && AwayFromConfig(g, addr)
    requires save in SavesOf(t, g, v.mem, v.sram)
    ensures SlotAt(save.mem, addr) == SlotAt(v.mem, addr)
  {
    hide Saved, SlotAt, AwayFromConfig, Load, Pick, SwapTaken, BanksOf, AfterConfirm, Committed, AfterSwap, Confirmed;
    forall m: Memory, c: Config ensures SlotAt(Saved(g, m, c), addr) == SlotAt(m, addr) {
      SavedKeepsSlot(g, m, c, addr);
    }
  }

  /**
   A cut of any save of a boot before its magic is in place: with the shipped table the
   floor found next is what slot B gives, and 0 when slot B does not verify.
   */
  lemma ShippedCutLosesFloor(t: Trust, v: Visit, e: Ending, w: Visit)
    requires Possible(t, STM32F407, v, e) && Leads(t, STM32F407, v, e, w) && e.CutIn? && e.k < CRC_OFFSET
    ensures var b := BankAt(t, v.mem, SLOT_B_ADDR);
      FloorFound(t, w) == if b.ok then FloorOf(b.version) else 0
  {
    ShippedTableTiles();
    ShippedSlotBAwayFromConfig();
    hide SavesOf, Load, Floor, VerifySlot, FirmwareImage.Version, CutAt, NothingMissing, SlotAt, Tiles, AwayFromConfig;
    var mem, c, k := e.save.mem, e.save.cfg, e.k;
    MagicMissing(c, k);
    FloorAfterCut(t, STM32F407, mem, c, k);
    ShippedCutKillsSlotA(t, mem, c, k);
    CutSparesSlot(STM32F407, mem, c, k, SLOT_B_ADDR);
    SavesFindSlot(t, STM32F407, v, e.save, SLOT_B_ADDR);
  }

  lemma ErasedRecordInvalid()
    ensures !Validate(Decode(Fill(CONFIG_BYTES, 0xFF)))
  {
    hide Crc32.Checksum;
    var s := Fill(CONFIG_BYTES, 0xFF);
    assert s[16..20][0] == 0xFF;
    U32RoundTrip(s[16..20]);
    assert Le32(BOOT_CONFIG_MAGIC)[0] == 0xAD;
  }

  lemma WipedIsNotLoaded(t: Trust, mem: Memory)
    requires ConfigAt(mem) == Fill(CONFIG_BYTES, 0xFF)
    ensures !Load(t, mem).ok
  {
    hide Validate, Recover, BanksOf, Default;
    ErasedRecordInvalid();
  }

  lemma ShippedSlotAHeadErased(mem: Memory, size: nat)
    requires 0 < size <= SLOT_SIZE
    ensures SlotAt(Erased(STM32F407, mem, SLOT_A_ADDR, SLOT_A_ADDR + size), SLOT_A_ADDR)[0] == 0xFF
  {
    var hi := SLOT_A_ADDR + size;
    assert STM32F407[4].Meets(SLOT_A_ADDR, hi);
    assert InErasedSector(STM32F407, SLOT_A_ADDR, SLOT_A_ADDR, hi);
  }

  lemma ShippedSwapIntoSlotAReverts(t: Trust, mem: Memory, c: Config)
    requires OtherSlot(c.active) == SLOT_A
    ensures SwapStep(t, STM32F407, mem, c).cfg == Committed(BanksOf(t, mem), c).(active := c.active)
  {
    hide VerifySlot, Saved, Committed, FirmwareImage.Version;
    ShippedSaveKillsSlotA(t, mem, Committed(BanksOf(t, mem), c));
  }
}
