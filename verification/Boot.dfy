/**
 The boot state machine: application confirmation, the OTA-pending swap with
 re-verify and revert, slot picking with attempt counting, and main as one boot step.
 The decisions are functions of what verification says about the two slots.
 */
module Boot {
  import opened Bytes
  import opened Layout
  import opened Flash
  import opened Crypto
  import opened BootConfig
  import FirmwareImage

  const MAX_SWAP_RETRIES: nat := 4
  const MAX_BOOT_ATTEMPTS: nat := 3

  /** The handoff block in SRAM. */
  datatype Sram = Sram(magic: u32, confirmed: u32, pending: u32)

  class SharedBlock {
    var magic: u32
    var confirmed: u32
    var pending: u32

    ghost function V(): Sram
      reads this
    {
      Sram(magic, confirmed, pending)
    }
  }

  // ----- The decisions ---------------------------------------------------------------

  predicate Confirmed(s: Sram) {
    s.magic == SHARED_BLOCK_MAGIC && s.confirmed != 0
  }

  function AfterConfirm(c: Config, s: Sram): Config {
    if Confirmed(s) then c.(attempts := 0, lastGood := (c.lastGood + 1) % 0x1_0000_0000) else c
  }

  /** The pending image verifies and its version is permitted. */
  predicate SwapTaken(bk: Banks, c: Config) {
    bk.Of(OtherSlot(c.active)).ok && Allowed(c, bk.Of(OtherSlot(c.active)).version)
  }

  function Committed(bk: Banks, c: Config): Config {
    var inactive := OtherSlot(c.active);
    RecordOta(c, inactive, bk.Of(inactive).version).(active := inactive, attempts := 0)
  }

  /** The configuration after a taken swap, given what the re-verify sees after the save. */
  function AfterSwap(bk: Banks, after: Banks, c: Config): Config {
    if after.Of(OtherSlot(c.active)).ok then Committed(bk, c) else Committed(bk, c).(active := c.active)
  }

  datatype Picked = Picked(cfg: Config, slot: byte, dirty: bool)

  function Pick(bk: Banks, c: Config): Picked {
    var other := OtherSlot(c.active);
    if !bk.Of(c.active).ok then
      if bk.Of(other).ok then Picked(c.(active := other, attempts := 0), other, true) else Picked(c, 0, false)
    else if c.attempts < MAX_BOOT_ATTEMPTS then Picked(c.(attempts := c.attempts + 1), c.active, true)
    else if bk.Of(other).ok then Picked(c.(active := other, attempts := 1), other, true)
    else Picked(c.(active := OtherSlot(other), attempts := 0), OtherSlot(other), true)
  }

  datatype Booted = Booted(mem: Memory, cfg: Config, slot: byte)

  /** What a part of main leaves: the flash and the configuration. */
  datatype Stage = Stage(mem: Memory, cfg: Config)

  /** A taken swap, with the saves main makes for it and after it. */
  function SwapStep(t: Trust, g: Geometry, mem: Memory, c: Config): Stage {
    var bk := BanksOf(t, mem);
    var m1 := Saved(g, mem, Committed(bk, c));
    var c1 := AfterSwap(bk, BanksOf(t, m1), c);
    var m2 := if BanksOf(t, m1).Of(OtherSlot(c.active)).ok then m1 else Saved(g, m1, c1);
    Stage(Saved(g, m2, c1), c1)
  }

  function MaybeSaved(g: Geometry, mem: Memory, c: Config, dirty: bool): Memory {
    if dirty then Saved(g, mem, c) else mem
  }

  /** After the confirmation check: what the swap is decided on. */
  function ConfirmStage(t: Trust, g: Geometry, mem: Memory, s: Sram): Stage {
    var loaded := Load(t, mem);
    var c := AfterConfirm(loaded.cfg, s);
    Stage(MaybeSaved(g, mem, c, !loaded.ok || Confirmed(s)), c)
  }

  /** After the OTA step: what slot picking is decided on. */
  function SwapStage(t: Trust, g: Geometry, mem: Memory, s: Sram): Stage {
    var x := ConfirmStage(t, g, mem, s);
    if s.pending != 0 && SwapTaken(BanksOf(t, x.mem), x.cfg) then SwapStep(t, g, x.mem, x.cfg) else x
  }

  /** One boot in which every save succeeds; slot 0 stands for recovery mode. */
  function BootStep(t: Trust, g: Geometry, mem: Memory, s: Sram): Booted {
    var x := SwapStage(t, g, mem, s);
    var p := Pick(BanksOf(t, x.mem), x.cfg);
    Booted(MaybeSaved(g, x.mem, p.cfg, p.dirty), p.cfg, p.slot)
  }

  /** The decision of one boot when both slots stay as they are throughout. */
  function Decide(bk: Banks, c: Config, s: Sram): Picked {
    var c1 := AfterConfirm(c, s);
    Pick(bk, if s.pending != 0 && SwapTaken(bk, c1) then Committed(bk, c1) else c1)
  }

  // ----- The code ------------------------------------------------------------------

  class Bootloader {
    const trust: Trust
    const nor: Nor
    const shared: SharedBlock
    const cfg: Cell
    var dirty: bool
    /** No save has failed since this was last set. */
    ghost var savesOk: bool

    constructor (trust: Trust, nor: Nor, shared: SharedBlock)
      ensures this.trust == trust && this.nor == nor && this.shared == shared && fresh(cfg)
    {
      this.trust := trust;
      this.nor := nor;
      this.shared := shared;
      this.cfg := new Cell();
      dirty := false;
      savesOk := true;
    }

    /** Either every save so far went through, or at least only config sectors changed. */
    method SaveOrWarn()
      requires nor.Valid()
      modifies nor, nor.cells, this`savesOk
      ensures savesOk ==> old(savesOk) && nor.Mem() == Saved(nor.g, old(nor.Mem()), cfg.V())
      ensures !nor.faulty ==> !old(nor.faulty) && savesOk == old(savesOk)
      ensures OnlyErasedSectorsChange(nor.g, old(nor.Mem()), nor.Mem(), CONFIG_ADDR, CONFIG_END)
    {
      hide Saved, OnlyErasedSectorsChange;
      var ok := cfg.Save(nor);
      savesOk := savesOk && ok;
    }

    method CheckAppConfirmation()
      modifies cfg, shared, this`dirty
      ensures cfg.V() == AfterConfirm(old(cfg.V()), old(shared.V()))
      ensures dirty == (old(dirty) || Confirmed(old(shared.V())))
      ensures shared.V() == Sram(SHARED_BLOCK_MAGIC, 0, old(shared.pending))
    {
      if shared.magic == SHARED_BLOCK_MAGIC && shared.confirmed != 0 {
        cfg.attempts := 0;
        cfg.lastGood := (cfg.lastGood + 1) % 0x1_0000_0000;
        dirty := true;
      }
      shared.confirmed := 0;
      shared.magic := SHARED_BLOCK_MAGIC;
    }

    /** `mid` is the flash as the re-verify reads it. */
    method ProcessOtaPendingSwap() returns (ghost mid: Memory)
      requires nor.Valid() && !dirty
      modifies cfg, shared, nor, nor.cells, this`dirty, this`savesOk
      ensures !nor.faulty ==> !old(nor.faulty) && savesOk == old(savesOk)
      ensures shared.V() == Sram(old(shared.magic), old(shared.confirmed), 0)
      ensures OnlyErasedSectorsChange(nor.g, old(nor.Mem()), mid, CONFIG_ADDR, CONFIG_END)
      ensures OnlyErasedSectorsChange(nor.g, old(nor.Mem()), nor.Mem(), CONFIG_ADDR, CONFIG_END)
      ensures var bk := BanksOf(trust, old(nor.Mem()));
        if old(shared.pending) != 0 && SwapTaken(bk, old(cfg.V())) then
          && dirty && cfg.V() == AfterSwap(bk, BanksOf(trust, mid), old(cfg.V()))
          && (savesOk ==>
                && old(savesOk) && mid == Saved(nor.g, old(nor.Mem()), Committed(bk, old(cfg.V())))
                && nor.Mem() == if BanksOf(trust, mid).Of(OtherSlot(old(cfg.V()).active)).ok then mid
                                else Saved(nor.g, mid, cfg.V()))
        else !dirty && cfg.V() == old(cfg.V()) && nor.Mem() == old(nor.Mem()) && savesOk == old(savesOk)
    {
      hide Saved, OnlyErasedSectorsChange, VerifySlot;
      mid := nor.Mem();
      NothingErased(nor.g, mid);
      if shared.pending == 0 {
        return;
      }
      shared.pending := 0;
      var inactive := OtherSlot(cfg.active);
      var addr := SlotAddr(inactive);
      var ok := VerifyFirmware(trust, nor, addr);
      if !ok {
        return;
      }
      var hdr := nor.Read(addr, HEADER_SIZE);
      assert hdr == SlotAt(nor.Mem(), addr)[..HEADER_SIZE];
      VerifiedHeader(trust, SlotAt(nor.Mem(), addr));
      HeaderFields(SlotAt(nor.Mem(), addr), hdr);
      if FirmwareImage.Magic(hdr) != FIRMWARE_MAGIC {
        return;
      }
      var version := FirmwareImage.Version(hdr);
      if !Allowed(cfg.Snapshot(), version) {
        return;
      }
      var oldActive := cfg.active;
      cfg.RecordOtaToSlot(inactive, version);
      cfg.active := inactive;
      cfg.attempts := 0;
      dirty := true;
      ghost var before := nor.Mem();
      SaveOrWarn();
      mid := nor.Mem();
      ok := VerifyFirmware(trust, nor, SlotAddr(cfg.active));
      if ok {
        return;
      }
      cfg.active := oldActive;
      SaveOrWarn();
      ErasedTwice(nor.g, before, mid, nor.Mem());
    }

    /** The swap and the save that main makes after it. */
    method SwapAndSave() returns (ghost mid: Memory)
      requires nor.Valid() && !dirty
      modifies cfg, shared, nor, nor.cells, this`dirty, this`savesOk
      ensures !nor.faulty ==> !old(nor.faulty) && savesOk == old(savesOk)
      ensures !dirty && shared.V() == Sram(old(shared.magic), old(shared.confirmed), 0)
      ensures OnlyErasedSectorsChange(nor.g, old(nor.Mem()), mid, CONFIG_ADDR, CONFIG_END)
      ensures OnlyErasedSectorsChange(nor.g, old(nor.Mem()), nor.Mem(), CONFIG_ADDR, CONFIG_END)
      ensures var m, c := old(nor.Mem()), old(cfg.V());
        if old(shared.pending) != 0 && SwapTaken(BanksOf(trust, m), c) then
          && cfg.V() == AfterSwap(BanksOf(trust, m), BanksOf(trust, mid), c)
          && (savesOk ==> old(savesOk) && Stage(nor.Mem(), cfg.V()) == SwapStep(trust, nor.g, m, c))
        else cfg.V() == c && nor.Mem() == m && savesOk == old(savesOk)
    {
      hide Saved, OnlyErasedSectorsChange, BanksOf, SwapTaken, Committed, AfterSwap;
      ghost var m := nor.Mem();
      mid := ProcessOtaPendingSwap();
      ghost var m2 := nor.Mem();
      NothingErased(nor.g, m2);
      if dirty {
        SaveOrWarn();
        dirty := false;
      }
      ErasedTwice(nor.g, m, m2, nor.Mem());
    }

    /** The retry loop; two passes always suffice, so the cap is never reached. */
    method PickSlotToBoot() returns (slot: byte, ghost passes: nat)
      requires nor.Valid() && !dirty
      modifies cfg, this`dirty
      ensures Picked(cfg.V(), slot, dirty) == Pick(BanksOf(trust, nor.Mem()), old(cfg.V()))
      ensures 1 <= passes <= 2 < MAX_SWAP_RETRIES
    {
      hide VerifySlot;
      ghost var bk := BanksOf(trust, nor.Mem());
      ghost var c := cfg.V();
      passes := 0;
      slot := 0;
      var iter := 0;
      while iter < MAX_SWAP_RETRIES
        invariant passes == iter <= 1
        invariant iter == 0 ==> !dirty && cfg.V() == c
        invariant iter == 1 ==> dirty && bk.Of(c.active).ok && c.attempts >= MAX_BOOT_ATTEMPTS
        invariant iter == 1 ==> cfg.V() == c.(active := OtherSlot(c.active), attempts := 0)
      {
        passes := passes + 1;
        var activeOk := VerifyFirmware(trust, nor, SlotAddr(cfg.active));
        if activeOk {
          if cfg.attempts >= MAX_BOOT_ATTEMPTS {
            cfg.active := OtherSlot(cfg.active);
            cfg.attempts := 0;
            dirty := true;
            iter := iter + 1;
            continue;
          }
          cfg.attempts := cfg.attempts + 1;
          dirty := true;
          slot := cfg.active;
          return;
        }
        var otherSlot := OtherSlot(cfg.active);
        var otherOk := VerifyFirmware(trust, nor, SlotAddr(otherSlot));
        if otherOk {
          cfg.active := otherSlot;
          cfg.attempts := 0;
          dirty := true;
          slot := cfg.active;
          return;
        }
        return 0, passes;
      }
      assert false;
    }

    /** The first part of main: load, confirmation check, and a save if there is something to save. */
    method LoadAndConfirm()
      requires nor.Valid()
      modifies this, cfg, shared, nor, nor.cells
      ensures !dirty && shared.V() == Sram(SHARED_BLOCK_MAGIC, 0, old(shared.pending))
      ensures !nor.faulty ==> !old(nor.faulty) && savesOk == old(savesOk)
      ensures OnlyErasedSectorsChange(nor.g, old(nor.Mem()), nor.Mem(), CONFIG_ADDR, CONFIG_END)
      ensures cfg.V() == AfterConfirm(Load(trust, old(nor.Mem())).cfg, old(shared.V()))
      ensures savesOk ==> old(savesOk)
      ensures savesOk ==> Stage(nor.Mem(), cfg.V()) == ConfirmStage(trust, nor.g, old(nor.Mem()), old(shared.V()))
    {
      hide Saved, OnlyErasedSectorsChange, Load, AfterConfirm;
      NothingErased(nor.g, nor.Mem());
      var loaded := cfg.LoadFrom(trust, nor);
      dirty := !loaded;
      CheckAppConfirmation();
      if dirty {
        SaveOrWarn();
        dirty := false;
      }
    }

    /**
     main, up to the jump. When every save succeeds, as it does unless the flash
     controller fails, the outcome is BootStep; when the slots are away from the
     configuration, failed saves change nothing about the decision.
     */
    method BootOnce() returns (slot: byte)
      requires nor.Valid() && savesOk
      modifies this, cfg, shared, nor, nor.cells
      ensures shared.V() == Sram(SHARED_BLOCK_MAGIC, 0, 0)
      ensures !nor.faulty ==> savesOk
      ensures savesOk ==> Booted(nor.Mem(), cfg.V(), slot) == BootStep(trust, nor.g, old(nor.Mem()), old(shared.V()))
      ensures ConfigAway(nor.g) ==>
        var p := Decide(BanksOf(trust, old(nor.Mem())), Load(trust, old(nor.Mem())).cfg, old(shared.V()));
        p.cfg == cfg.V() && p.slot == slot
    {
      hide Saved, OnlyErasedSectorsChange, BanksOf, Load, ConfigAway, Pick, SwapTaken, Committed, AfterSwap;
      hide AfterConfirm, BootStep, SwapStep, ConfirmStage;
      ghost var m0, s0 := nor.Mem(), shared.V();
      LoadAndConfirm();
      ghost var m1, c1 := nor.Mem(), cfg.V();
      ghost var mid := SwapAndSave();
      ghost var c2, m3 := cfg.V(), nor.Mem();
      ErasedTwice(nor.g, m0, m1, mid);
      ErasedTwice(nor.g, m0, m1, m3);
      DecisionStands(trust, nor.g, m0, m1, mid, m3, c1, c2, s0.pending != 0);
      ghost var passes;
      slot, passes := PickSlotToBoot();
      ghost var p := Picked(cfg.V(), slot, dirty);
      if dirty {
        SaveOrWarn();
      }
      if savesOk { BootStepIs(trust, nor.g, m0, s0, Stage(m3, c2), p); }
    }
  }

  /** The steps of main, put together. */
  lemma BootStepIs(t: Trust, g: Geometry, m0: Memory, s: Sram, y: Stage, p: Picked)
    requires var x := ConfirmStage(t, g, m0, s);
      y == if s.pending != 0 && SwapTaken(BanksOf(t, x.mem), x.cfg) then SwapStep(t, g, x.mem, x.cfg) else x
    requires p == Pick(BanksOf(t, y.mem), y.cfg)
    ensures BootStep(t, g, m0, s) == Booted(MaybeSaved(g, y.mem, p.cfg, p.dirty), p.cfg, p.slot)
  {
    hide Saved, BanksOf, Load, Pick, SwapTaken, SwapStep, ConfirmStage;
  }

  /** With the slots away from the configuration, the decision is the one they called for when the boot started. */
  lemma DecisionStands(t: Trust, g: Geometry, m0: Memory, m1: Memory, mid: Memory, m3: Memory,
                       c1: Config, c2: Config, pending: bool)
    requires OnlyErasedSectorsChange(g, m0, m1, CONFIG_ADDR, CONFIG_END)
    requires OnlyErasedSectorsChange(g, m0, mid, CONFIG_ADDR, CONFIG_END)
    requires OnlyErasedSectorsChange(g, m0, m3, CONFIG_ADDR, CONFIG_END)
    requires pending && SwapTaken(BanksOf(t, m1), c1) ==> c2 == AfterSwap(BanksOf(t, m1), BanksOf(t, mid), c1)
    requires !(pending && SwapTaken(BanksOf(t, m1), c1)) ==> c2 == c1
    ensures ConfigAway(g) ==>
      && BanksOf(t, m3) == BanksOf(t, m0)
      && c2 == if pending && SwapTaken(BanksOf(t, m0), c1) then Committed(BanksOf(t, m0), c1) else c1
  {
    hide OnlyErasedSectorsChange, BanksOf, ConfigAway, SwapTaken, Committed, AfterSwap;
    if ConfigAway(g) {
      SameBanks(t, g, m0, m1);
      SameBanks(t, g, m0, mid);
      SameBanks(t, g, m0, m3);
      if SwapTaken(BanksOf(t, m0), c1) { SwapOnStableSlots(BanksOf(t, m0), c1); }
    }
  }

  /** The header read on its own has the slot's magic and version. */
  lemma HeaderFields(s: Slot, hdr: seq<byte>)
    requires hdr == s[..HEADER_SIZE]
    ensures FirmwareImage.Magic(hdr) == FirmwareImage.Magic(s)
    ensures FirmwareImage.Version(hdr) == FirmwareImage.Version(s)
  {
    assert hdr[0..4] == s[0..4] && hdr[4..8] == s[4..8];
  }

  lemma SwapOnStableSlots(bk: Banks, c: Config)
    requires SwapTaken(bk, c)
    ensures AfterSwap(bk, bk, c) == Committed(bk, c)
  {
    hide Committed, Allowed;
  }

  lemma NothingErased(g: Geometry, m: Memory)
    ensures OnlyErasedSectorsChange(g, m, m, CONFIG_ADDR, CONFIG_END)
  {
  }

  lemma ErasedTwice(g: Geometry, a: Memory, b: Memory, c: Memory)
    requires OnlyErasedSectorsChange(g, a, b, CONFIG_ADDR, CONFIG_END)
    requires OnlyErasedSectorsChange(g, b, c, CONFIG_ADDR, CONFIG_END)
    ensures OnlyErasedSectorsChange(g, a, c, CONFIG_ADDR, CONFIG_END)
  {
  }

  /** With the slots away from the configuration, nothing that happens in its sectors reaches them. */
  lemma SameSlots(g: Geometry, a: Memory, b: Memory)
    requires ConfigAway(g) && OnlyErasedSectorsChange(g, a, b, CONFIG_ADDR, CONFIG_END)
    ensures SlotAt(a, SLOT_A_ADDR) == SlotAt(b, SLOT_A_ADDR) && SlotAt(a, SLOT_B_ADDR) == SlotAt(b, SLOT_B_ADDR)
  {
    forall x: nat | SLOT_A_ADDR <= x < SLOT_A_ADDR + SLOT_SIZE || SLOT_B_ADDR <= x < SLOT_B_ADDR + SLOT_SIZE
      ensures !InErasedSector(g, x, CONFIG_ADDR, CONFIG_END)
    {
    }
  }

  lemma SameBanks(t: Trust, g: Geometry, a: Memory, b: Memory)
    requires ConfigAway(g) && OnlyErasedSectorsChange(g, a, b, CONFIG_ADDR, CONFIG_END)
    ensures BanksOf(t, a) == BanksOf(t, b)
  {
    hide VerifySlot, FirmwareImage.Version;
    SameSlots(g, a, b);
  }
}
