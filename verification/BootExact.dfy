/**
 What a reset boots, exactly: when a pending image is swapped to, what counts as a
 confirmation, and where boots go when a slot does not verify.
 */
module BootExact {
  import opened Bytes
  import opened Layout
  import opened Crypto
  import opened BootConfig
  import opened Boot
  import opened BootRuns
  import Crc32
  import FirmwareImage

  // ----- The swap -----------------------------------------------------------------------

  /** The pending image takes over if and only if it verifies and is no older than anything on record. */
  lemma SwapDecided(bk: Banks, c: Config, s: Sram)
    requires s.pending != 0
    ensures var target, p := OtherSlot(c.active), Decide(bk, c, s);
      var version := bk.Of(target).version;
      if bk.Of(target).ok && version >= 65536 * c.rollback && version >= c.verA && version >= c.verB then
        && p.slot == target && p.cfg.active == target && p.cfg.attempts == 1 && p.dirty
        && p.cfg.verA == (if target == SLOT_A then version else c.verA)
        && p.cfg.verB == (if target == SLOT_A then c.verB else version)
      else p == Decide(bk, c, s.(pending := 0))
  {
    hide RecordOta;
    var c1 := AfterConfirm(c, s);
    var target := OtherSlot(c.active);
    AllowedMeans(c1, bk.Of(target).version);
    hide Allowed;
    RecordInPlace(c1, target, bk.Of(target).version);
    assert AfterConfirm(c, s.(pending := 0)) == c1;
  }

  lemma RecordInPlace(c: Config, slot: byte, version: u32)
    ensures var d := RecordOta(c, slot, version);
      && d.verA == (if slot == SLOT_A then version else c.verA)
      && d.verB == (if slot == SLOT_A then c.verB else version)
  {
  }

  /**
   With the target away from the configuration, a reset with the flag raised boots the
   other slot afresh if it verifies and is at or above the floor found, and otherwise
   does what it would have done without the flag.
   */
  lemma PendingBootsIffPermitted(t: Trust, g: Geometry, mem: Memory, s: Sram)
    requires s.pending != 0 && AwayFromConfig(g, SlotAddr(OtherSlot(Load(t, mem).cfg.active)))
    ensures var target, b := OtherSlot(Load(t, mem).cfg.active), BootStep(t, g, mem, s);
      if VerifySlot(t, SlotAt(mem, SlotAddr(target)))
         && FirmwareImage.Version(SlotAt(mem, SlotAddr(target))) >= FloorFound(t, Visit(mem, s)) then
        && b.slot == target && b.cfg.active == target && b.cfg.attempts == 1
        && Load(t, b.mem) == Loaded(Stamp(b.cfg), true)
      else b == BootStep(t, g, mem, s.(pending := 0))
  {
    hide Load, VerifySlot, FirmwareImage.Version, AwayFromConfig, BootStep, Stamp;
    var c := Load(t, mem).cfg;
    TargetBank(t, mem, c);
    hide BanksOf;
    if SwapTaken(BanksOf(t, mem), c) {
      PendingSwapBoots(t, g, mem, s);
    } else {
      NotSwapped(t, g, mem, s);
    }
  }

  lemma TargetBank(t: Trust, mem: Memory, c: Config)
    ensures var target := OtherSlot(c.active);
      BanksOf(t, mem).Of(target) == BankAt(t, mem, SlotAddr(target))
  {
  }

  /** Without a taken swap, the flag has no effect. */
  lemma NotSwapped(t: Trust, g: Geometry, mem: Memory, s: Sram)
    requires s.pending != 0 && AwayFromConfig(g, SlotAddr(OtherSlot(Load(t, mem).cfg.active)))
    requires !SwapTaken(BanksOf(t, mem), Load(t, mem).cfg)
    ensures BootStep(t, g, mem, s) == BootStep(t, g, mem, s.(pending := 0))
  {
    hide Load, BanksOf, AwayFromConfig, Saved, SwapStep, SwapTaken, Pick;
    var c := Load(t, mem).cfg;
    var x := ConfirmStage(t, g, mem, s);
    assert x == ConfirmStage(t, g, mem, s.(pending := 0));
    SavedKeepsBank(t, g, mem, x.cfg, OtherSlot(c.active));
    if SwapTaken(BanksOf(t, x.mem), x.cfg) {
      SameSwap(BanksOf(t, x.mem), x.cfg, BanksOf(t, mem), c);
    }
  }

  // ----- Confirmation ---------------------------------------------------------------------

  /** bootloader_confirm_boot, on the block the bootloader leaves. */
  function ConfirmBoot(s: Sram): Sram {
    s.(magic := SHARED_BLOCK_MAGIC, confirmed := 1)
  }

  /** bootloader_request_ota_swap. */
  function RequestSwap(s: Sram): Sram {
    s.(magic := SHARED_BLOCK_MAGIC, pending := 1)
  }

  /** The blocks successive resets find, nothing pending. */
  function Found(magics: seq<u32>, flags: seq<u32>): (r: seq<Sram>)
    requires |magics| == |flags|
    ensures |r| == |flags| && forall i :: 0 <= i < |r| ==> r[i] == Sram(magics[i], flags[i], 0)
  {
    seq(|flags|, i requires 0 <= i < |flags| => Sram(magics[i], flags[i], 0))
  }

  /** The magic word is there and the flag is not zero. */
  predicate Written(magic: u32, flag: u32) {
    magic == 0x5EAF_B001 && flag != 0
  }

  /** Calling the application's function is what counts; asking for a swap is not. */
  lemma ConfirmBootCounts(s: Sram, c: Config)
    ensures AfterConfirm(c, ConfirmBoot(s)).attempts == 0
    ensures s.confirmed == 0 ==> AfterConfirm(c, RequestSwap(s)) == c
    ensures s.confirmed == 0 ==> AfterConfirm(c, s) == c
    ensures s.magic != 0x5EAF_B001 ==> AfterConfirm(c, s) == c
  {
  }

  /**
   With both slots good and nothing pending, the active slot is kept if and only if of
   any three resets after the first boot one finds the magic word and a raised flag.
   */
  lemma ActiveKeptIffWritten(bk: Banks, c: Config, magics: seq<u32>, flags: seq<u32>)
    requires bk.a.ok && bk.b.ok && (c.active == SLOT_A || c.active == SLOT_B) && c.attempts == 0
    requires |magics| == |flags| > 0
    ensures (forall k :: 0 <= k < |flags| ==> Schedule(bk, c, Found(magics, flags))[k] == c.active) <==>
      forall i :: 1 <= i < |flags| - 2 ==>
        Written(magics[i], flags[i]) || Written(magics[i + 1], flags[i + 1]) || Written(magics[i + 2], flags[i + 2])
  {
    hide Schedule, Confirmed;
    var srams := Found(magics, flags);
    ActiveKeptIffConfirmed(bk, c, srams);
    forall i | 0 <= i < |srams| ensures Confirmed(srams[i]) == Written(magics[i], flags[i]) {
      ConfirmedIsWritten(srams[i]);
    }
    hide Written;
    var rest := srams[1..];
    if Drought(rest) {
      var i :| 0 <= i < |rest| - 2 && Dry(rest, i);
      assert !Confirmed(srams[i + 1]) && !Confirmed(srams[i + 2]) && !Confirmed(srams[i + 3]);
    } else {
      forall i | 1 <= i < |flags| - 2
        ensures Written(magics[i], flags[i]) || Written(magics[i + 1], flags[i + 1])
             || Written(magics[i + 2], flags[i + 2])
      {
        assert !Dry(rest, i - 1);
      }
    }
  }

  lemma ConfirmedIsWritten(s: Sram)
    ensures Confirmed(s) == Written(s.magic, s.confirmed)
  {
  }

  // ----- Configurations over resets -----------------------------------------------------------

  /** The configuration after successive resets. */
  function Rebooted(bk: Banks, c: Config, srams: seq<Sram>): Config
    decreases |srams|
  {
    if srams == [] then c else Rebooted(bk, Stamp(Decide(bk, c, srams[0]).cfg), srams[1..])
  }

  function Confirmations(srams: seq<Sram>): nat
    decreases |srams|
  {
    if srams == [] then 0
    else (if Written(srams[0].magic, srams[0].confirmed) then 1 else 0) + Confirmations(srams[1..])
  }

  /** last_good_boot counts the confirmations, whatever else the boots do. */
  lemma {:induction false} LastGoodCounts(bk: Banks, c: Config, srams: seq<Sram>)
    ensures Rebooted(bk, c, srams).lastGood == (c.lastGood + Confirmations(srams)) % 0x1_0000_0000
    decreases |srams|
  {
    hide Decide, Stamp, Written;
    if srams != [] {
      var p := Decide(bk, c, srams[0]);
      DecideCounts(bk, c, srams[0]);
      StampKeepsCount(p.cfg);
      LastGoodCounts(bk, Stamp(p.cfg), srams[1..]);
    }
  }

  lemma DecideCounts(bk: Banks, c: Config, s: Sram)
    ensures var n := if Written(s.magic, s.confirmed) then 1 else 0;
      Decide(bk, c, s).cfg.lastGood == (c.lastGood + n) % 0x1_0000_0000
  {
    hide SwapTaken, Floor, Counter;
  }

  lemma StampKeepsCount(c: Config)
    ensures Stamp(c).lastGood == c.lastGood
  {
    hide Crc32.Checksum;
  }

  /** The one slot that verifies is booted at every reset, confirmed or not. */
  lemma {:induction false} OnlyGoodSlotBoots(bk: Banks, c: Config, srams: seq<Sram>, good: byte)
    requires (good == SLOT_A || good == SLOT_B) && bk.Of(good).ok && !bk.Of(OtherSlot(good)).ok && WellFormed(c)
    ensures AllAre(Schedule(bk, c, srams), good)
    decreases |srams|
  {
    hide Stamp, RecordOta, Allowed, Confirmed;
    if srams != [] {
      var p := Decide(bk, c, srams[0]);
      DecideRecords(bk, c, srams[0]);
      StampKeepsState(p.cfg);
      OnlyGoodSlotBoots(bk, Stamp(p.cfg), srams[1..], good);
      AllThenRest(Schedule(bk, c, srams), Schedule(bk, Stamp(p.cfg), srams[1..]), good);
    }
  }

  /** While the alternate does not verify, unconfirmed attempts count up to three and start over at zero. */
  lemma {:induction false} AttemptsCycle(bk: Banks, c: Config, srams: seq<Sram>)
    requires bk.Of(c.active).ok && !bk.Of(OtherSlot(c.active)).ok && WellFormed(c) && c.attempts <= 3
    requires forall i :: 0 <= i < |srams| ==> !Written(srams[i].magic, srams[i].confirmed)
    ensures Rebooted(bk, c, srams).attempts == (c.attempts + |srams|) % 4
    ensures Rebooted(bk, c, srams).active == c.active
    decreases |srams|
  {
    hide Stamp, Committed, Allowed;
    if srams != [] {
      var p := Decide(bk, c, srams[0]);
      assert p.cfg.active == c.active && p.cfg.attempts == if c.attempts == 3 then 0 else c.attempts + 1;
      StampKeepsState(p.cfg);
      AttemptsCycle(bk, Stamp(p.cfg), srams[1..]);
    }
  }

  /** Falling back does not count as an attempt: the slot fallen back to has its three boots still to come. */
  lemma FallbackSchedule(bk: Banks, c: Config, s: Sram, later: Banks, srams: seq<Sram>, k: nat)
    requires !bk.Of(c.active).ok && bk.Of(OtherSlot(c.active)).ok && WellFormed(c) && s.pending == 0
    requires later.a.ok && later.b.ok && k < |srams|
    requires forall i :: 0 <= i < |srams| ==> srams[i].pending == 0 && !Confirmed(srams[i])
    ensures var other, p := OtherSlot(c.active), Decide(bk, c, s);
      && p.slot == other
      && Schedule(later, Stamp(p.cfg), srams)[k] == if k / 3 % 2 == 0 then other else OtherSlot(other)
  {
    hide Stamp, Committed, Allowed, Confirmed, Schedule;
    var p := Decide(bk, c, s);
    StampKeepsState(p.cfg);
    UnconfirmedSchedule(later, Stamp(p.cfg), srams, k);
  }
}
