/**
 The persisted boot configuration: its 24-byte record, the CRC-last save and every
 state a power cut can leave behind, recovery from the slot headers, and the
 anti-downgrade floor.
 */
module BootConfig {
  import opened Bytes
  import opened Layout
  import opened Flash
  import opened FirmwareImage
  import opened Crypto
  import Crc32
  import LowS
  import Sha256

  const CRC_OFFSET: nat := 20

  datatype Config = Config(verA: u32, verB: u32, active: byte, attempts: byte, rollback: byte,
                           reserved: byte, lastGood: u32, magic: u32, crc: u32)

  // ----- The record ---------------------------------------------------------------

  function Body(c: Config): (s: seq<byte>)
    ensures |s| == CRC_OFFSET
  {
    Le32(c.verA) + Le32(c.verB) + [c.active, c.attempts, c.rollback, c.reserved] + Le32(c.lastGood) + Le32(c.magic)
  }

  function Encode(c: Config): (s: seq<byte>)
    ensures |s| == CONFIG_BYTES
  {
    Body(c) + Le32(c.crc)
  }

  function Decode(s: seq<byte>): Config
    requires |s| == CONFIG_BYTES
  {
    Config(U32(s[0..4]), U32(s[4..8]), s[8], s[9], s[10], s[11], U32(s[12..16]), U32(s[16..20]), U32(s[20..24]))
  }

  lemma DecodeEncode(c: Config)
    ensures Decode(Encode(c)) == c
  {
    hide Le32, U32;
    var s := Encode(c);
    assert s[..CRC_OFFSET] == Body(c) && s[CRC_OFFSET..] == Le32(c.crc);
    assert s[0..4] == Body(c)[0..4] == Le32(c.verA) && s[4..8] == Body(c)[4..8] == Le32(c.verB);
    assert s[12..16] == Body(c)[12..16] == Le32(c.lastGood) && s[16..20] == Body(c)[16..20] == Le32(c.magic);
    assert s[20..24] == s[CRC_OFFSET..] == Le32(c.crc);
    Le32RoundTrip(c.verA);
    Le32RoundTrip(c.verB);
    Le32RoundTrip(c.lastGood);
    Le32RoundTrip(c.magic);
    Le32RoundTrip(c.crc);
  }

  lemma EncodeDecode(s: seq<byte>)
    requires |s| == CONFIG_BYTES
    ensures Encode(Decode(s)) == s
  {
    hide Le32, U32;
    U32RoundTrip(s[0..4]);
    U32RoundTrip(s[4..8]);
    U32RoundTrip(s[12..16]);
    U32RoundTrip(s[16..20]);
    U32RoundTrip(s[20..24]);
    assert s == s[0..4] + s[4..8] + [s[8], s[9], s[10], s[11]] + s[12..16] + s[16..20] + s[20..24];
  }

  function Stamp(c: Config): Config {
    c.(crc := Crc32.Checksum(Body(c)))
  }

  predicate Validate(c: Config) {
    c.magic == BOOT_CONFIG_MAGIC && Crc32.Checksum(Body(c)) == c.crc
  }

  function Default(): Config {
    Stamp(Config(0, 0, SLOT_A, 0, 0, 0, 0, BOOT_CONFIG_MAGIC, 0))
  }

  /** Where the fields of BootConfig_t lie in the record. */
  lemma RecordLayout(c: Config)
    ensures var s := Encode(c);
      && U32(s[0..4]) == c.verA && U32(s[4..8]) == c.verB && s[8] == c.active && s[9] == c.attempts
      && s[10] == c.rollback && s[11] == c.reserved && U32(s[12..16]) == c.lastGood
      && U32(s[16..20]) == c.magic && U32(s[20..24]) == c.crc
  {
    hide Encode, U32;
    DecodeEncode(c);
  }

  /** What makes 24 bytes a valid record. */
  lemma ValidRecord(s: seq<byte>)
    requires |s| == 24
    ensures Validate(Decode(s)) <==>
      s[16..20] == [0xAD, 0x10, 0x07, 0xB0] && U32(s[20..24]) == Crc32.Checksum(s[..20])
  {
    hide U32, Crc32.Checksum;
    EncodeDecode(s);
    assert Body(Decode(s)) == Encode(Decode(s))[..20];
    U32RoundTrip(s[16..20]);
    assert Le32(BOOT_CONFIG_MAGIC) == [0xAD, 0x10, 0x07, 0xB0];
    Le32RoundTrip(BOOT_CONFIG_MAGIC);
  }

  // ----- The anti-downgrade floor ----------------------------------------------------

  function Max(a: u32, b: u32): u32 { if b > a then b else a }

  function Floor(c: Config): u32 {
    Max(Max(c.rollback * 0x1_0000, c.verA), c.verB)
  }

  predicate Allowed(c: Config, version: u32) {
    version >= Floor(c)
  }

  /** The rollback counter a version calls for. */
  function Counter(version: u32): byte {
    var major := version / 0x1_0000 % 0x100;
    if major != 0 then major else 1
  }

  /** The counter is the third octet of the version, v1 standing in for v0. */
  lemma CounterIsMajor(version: u32)
    ensures Counter(version) == if Le32(version)[2] == 0 then 1 else Le32(version)[2]
  {
    assert version / 0x1_0000 == version / 0x100 / 0x100;
  }

  /** Permitted is what is no older than the counter and either recorded version. */
  lemma AllowedMeans(c: Config, version: u32)
    ensures Allowed(c, version) <==>
      version >= 65536 * c.rollback && version >= c.verA && version >= c.verB
  {
  }

  function RecordOta(c: Config, slot: byte, version: u32): Config {
    var c' := if slot == SLOT_A then c.(verA := version) else c.(verB := version);
    if version > Floor(c) then c'.(rollback := Counter(version)) else c'
  }

  // ----- Slots as the boot code sees them ------------------------------------------------

  /** What verification says of one slot, and the version its header carries. */
  datatype Bank = Bank(ok: bool, version: u32)

  datatype Banks = Banks(a: Bank, b: Bank) {
    /** The bank behind a slot identifier; anything but 'B' addresses slot A. */
    function Of(slot: byte): Bank { if slot == SLOT_B then b else a }

    /** The highest version that verifies, 0 if none does. */
    function Highest(): u32 {
      Max(if a.ok then a.version else 0, if b.ok then b.version else 0)
    }
  }

  function BankAt(t: Trust, mem: Memory, addr: u32): Bank
    requires addr == SLOT_A_ADDR || addr == SLOT_B_ADDR
  {
    Bank(VerifySlot(t, SlotAt(mem, addr)), Version(SlotAt(mem, addr)))
  }

  function BanksOf(t: Trust, mem: Memory): Banks {
    Banks(BankAt(t, mem, SLOT_A_ADDR), BankAt(t, mem, SLOT_B_ADDR))
  }

  /** boot_config_recover_from_slots. */
  function Recover(bk: Banks, c: Config): Config {
    var c1 := if bk.a.ok then c.(verA := bk.a.version) else c;
    var c2 := if bk.b.ok then c1.(verB := bk.b.version) else c1;
    Stamp(Adopt(bk, c2))
  }

  /** The active slot and the counter, by the versions that verify. */
  function Adopt(bk: Banks, c: Config): Config {
    var c1 := if bk.a.ok && bk.a.version > 0 then c.(active := SLOT_A) else c;
    var floorA := if bk.a.ok then bk.a.version else 0;
    var c2 := if bk.b.ok && bk.b.version > floorA then c1.(active := SLOT_B) else c1;
    if bk.Highest() > 0 then c2.(rollback := Counter(bk.Highest())) else c2
  }

  datatype Loaded = Loaded(cfg: Config, ok: bool)

  /** boot_config_load. */
  function Load(t: Trust, mem: Memory): Loaded {
    var c := Decode(ConfigAt(mem));
    if Validate(c) then Loaded(c, true) else Loaded(Recover(BanksOf(t, mem), Default()), false)
  }

  /** The flash after a successful save. */
  function Saved(g: Geometry, mem: Memory, c: Config): Memory {
    Splice(Erased(g, mem, CONFIG_ADDR, CONFIG_END), CONFIG_ADDR - FLASH_BASE, Encode(Stamp(c)))
  }

  // ----- The struct in RAM ----------------------------------------------------------

  /** BootConfig_t, updated in place through the pointer the callers pass around. */
  class Cell {
    var verA: u32
    var verB: u32
    var active: byte
    var attempts: byte
    var rollback: byte
    var reserved: byte
    var lastGood: u32
    var magic: u32
    var crc: u32

    constructor () {
      new;
    }

    ghost function V(): Config
      reads this
    {
      Config(verA, verB, active, attempts, rollback, reserved, lastGood, magic, crc)
    }

    function Snapshot(): (c: Config)
      reads this
      ensures c == V()
    {
      Config(verA, verB, active, attempts, rollback, reserved, lastGood, magic, crc)
    }

    method Assign(c: Config)
      modifies this
      ensures V() == c
    {
      verA, verB, active, attempts, rollback := c.verA, c.verB, c.active, c.attempts, c.rollback;
      reserved, lastGood, magic, crc := c.reserved, c.lastGood, c.magic, c.crc;
    }

    method StampCrc()
      modifies this
      ensures V() == Stamp(old(V()))
    {
      hide Crc32.Checksum;
      crc := Crc32.Checksum(Body(Snapshot()));
    }

    method SetDefault()
      modifies this
      ensures V() == Default()
    {
      hide Crc32.Checksum;
      Assign(Config(0, 0, 0, 0, 0, 0, 0, 0, 0));
      verA, verB := 0, 0;
      active := SLOT_A;
      attempts, rollback, reserved, lastGood := 0, 0, 0, 0;
      magic := BOOT_CONFIG_MAGIC;
      StampCrc();
    }

    /** One slot's part of the recovery: header sanity first, then full verification. */
    method Probe(t: Trust, nor: Nor, addr: u32) returns (valid: bool, version: u32)
      requires nor.Valid() && (addr == SLOT_A_ADDR || addr == SLOT_B_ADDR)
      ensures Bank(valid, version) == BankAt(t, nor.Mem(), addr)
    {
      hide KeyOk, Crc32.Checksum, Sha256.Hash, SignedRegion, LowS.Canonical, Payload;
      ghost var s := SlotAt(nor.Mem(), addr);
      var hdr := nor.Read(addr, HEADER_SIZE);
      assert hdr == s[..HEADER_SIZE];
      assert hdr[0..4] == s[0..4] && hdr[4..8] == s[4..8] && hdr[8..12] == s[8..12];
      version := Version(hdr);
      valid := false;
      if Magic(hdr) == FIRMWARE_MAGIC && PayloadSize(hdr) > 0 && PayloadSize(hdr) <= MAX_PAYLOAD {
        valid := VerifyFirmware(t, nor, addr);
      }
    }

    method RecoverFromSlots(t: Trust, nor: Nor)
      requires nor.Valid()
      modifies this
      ensures V() == Recover(BanksOf(t, nor.Mem()), old(V()))
    {
      hide BankAt, Crc32.Checksum, VerifySlot;
      ghost var bk := BanksOf(t, nor.Mem());
      var aValid, aVersion := Probe(t, nor, SLOT_A_ADDR);
      if aValid {
        verA := aVersion;
      }
      var bValid, bVersion := Probe(t, nor, SLOT_B_ADDR);
      if bValid {
        verB := bVersion;
      }
      assert bk == Banks(Bank(aValid, aVersion), Bank(bValid, bVersion));
      hide BanksOf, Adopt;
      AdoptVersions(aValid, bValid, bk);
      StampCrc();
    }

    /** The second half of the recovery, with the versions in place. */
    method AdoptVersions(aValid: bool, bValid: bool, ghost bk: Banks)
      requires bk.a.ok == aValid && bk.b.ok == bValid
      requires (aValid ==> verA == bk.a.version) && (bValid ==> verB == bk.b.version)
      modifies this
      ensures V() == Adopt(bk, old(V()))
    {
      var floor := 0;
      if aValid && verA > floor {
        floor := verA;
        active := SLOT_A;
      }
      if bValid && verB > floor {
        floor := verB;
        active := SLOT_B;
      }
      if floor > 0 {
        var major := floor / 0x1_0000 % 0x100;
        rollback := if major != 0 then major else 1;
      }
    }

    method LoadFrom(t: Trust, nor: Nor) returns (ok: bool)
      requires nor.Valid()
      modifies this
      ensures Loaded(V(), ok) == Load(t, nor.Mem())
    {
      hide Crc32.Checksum, Recover, BanksOf;
      var raw := nor.Read(CONFIG_ADDR, CONFIG_BYTES);
      assert raw == ConfigAt(nor.Mem());
      Assign(Decode(raw));
      if Validate(Snapshot()) {
        return true;
      }
      SetDefault();
      RecoverFromSlots(t, nor);
      ok := false;
    }

    method RecordOtaToSlot(slot: byte, version: u32)
      modifies this
      ensures V() == RecordOta(old(V()), slot, version)
    {
      var floor := Floor(Snapshot());
      if slot == SLOT_A {
        verA := version;
      } else {
        verB := version;
      }
      if version > floor {
        var major := version / 0x1_0000 % 0x100;
        rollback := if major != 0 then major else 1;
      }
    }

    /**
     boot_config_save: erase, body, CRC last, readback. On success the record is in
     place. With the record in one sector, every image the flash is logged with on the
     way, also of a save that fails, is one a power cut is shown to survive. It fails
     only when the flash controller does, and in no case does a byte outside the erased
     sectors change.
     */
    method Save(nor: Nor) returns (ok: bool)
      requires nor.Valid()
      modifies nor, nor.cells
      ensures ok ==> nor.Mem() == Saved(nor.g, old(nor.Mem()), V())
      ensures nor.faulty == (old(nor.faulty) || !ok)
      ensures OnlyErasedSectorsChange(nor.g, old(nor.Mem()), nor.Mem(), CONFIG_ADDR, CONFIG_END)
      ensures ConfigInOneSector(nor.g) ==> CutsOnly(nor.g, old(nor.Mem()), V(), old(nor.log), nor.log)
    {
      hide Crc32.Checksum, Snapshots, Erased, Encode, Body, Le32, Splice, Within, OnlyErasedSectorsChange, CutsOnly, Logged;
      var buf := Stamp(Snapshot());
      ghost var m0, log0 := nor.Mem(), nor.log;
      var record := Body(buf) + Le32(buf.crc);
      assert record == Encode(buf) by { RecordIsBodyAndCrc(buf); }
      NoCuts(nor.g, m0, V(), log0);
      var s := nor.EraseRange(CONFIG_ADDR, CONFIG_BYTES);
      if s != Ok {
        return false;
      }
      ghost var m1, log1 := nor.Mem(), nor.log;
      s := nor.ProgramBytes(CONFIG_ADDR, record[..CRC_OFFSET]);
      ProgramInErased(nor.g, m0, m1, nor.Mem(), 0, CRC_OFFSET);
      ghost var at := CONFIG_ADDR - FLASH_BASE;
      if ConfigInOneSector(nor.g) { BodyCuts(nor.g, m0, V(), log0, nor.log); }
      if s != Ok {
        return false;
      }
      ghost var m2 := nor.Mem();
      s := nor.ProgramWord(CONFIG_ADDR + CRC_OFFSET, buf.crc);
      ProgramInErased(nor.g, m0, m2, nor.Mem(), CRC_OFFSET, 4);
      if s != Ok {
        return false;
      }
      RecordInTwoSteps(m1, at, record, Le32(buf.crc));
      if ConfigInOneSector(nor.g) { RecordCuts(nor.g, m0, V(), log0, nor.log, CONFIG_BYTES); }
      var readback := nor.Read(CONFIG_ADDR, CONFIG_BYTES);
      SpliceInside(m1, at, record);
      if readback != record {
        return false;
      }
      ok := true;
    }
  }

  /** The body first and the CRC after it: together the record. */
  lemma RecordInTwoSteps(m: Memory, at: nat, record: seq<byte>, crc: seq<byte>)
    requires at + CONFIG_BYTES <= FLASH_SIZE && |record| == CONFIG_BYTES && record[CRC_OFFSET..] == crc
    ensures Splice(Splice(m, at, record[..CRC_OFFSET]), at + CRC_OFFSET, crc) == Splice(m, at, record)
    ensures Snapshots(m, at, record[..CRC_OFFSET]) + Snapshots(Splice(m, at, record[..CRC_OFFSET]), at + CRC_OFFSET, crc)
         == Snapshots(m, at, record)
    ensures record[..CONFIG_BYTES] == record
  {
    hide Splice, Snapshots;
    assert record[..CRC_OFFSET] + crc == record && record[..CONFIG_BYTES] == record;
    SpliceAppend(m, at, record[..CRC_OFFSET], crc);
    SnapshotsAppend(m, at, record[..CRC_OFFSET], crc);
  }

  lemma RecordIsBodyAndCrc(c: Config)
    ensures Body(c) + Le32(c.crc) == Encode(c)
  {
  }

  /** Bytes of the record are in an erased sector, so programming them stays within it. */
  lemma ProgramInErased(g: Geometry, m0: Memory, m1: Memory, m2: Memory, from: nat, n: nat)
    requires Tiles(g) && from + n <= CONFIG_BYTES
    requires OnlyErasedSectorsChange(g, m0, m1, CONFIG_ADDR, CONFIG_END)
    requires Within(m1, m2, CONFIG_ADDR + from - FLASH_BASE, CONFIG_ADDR + from - FLASH_BASE + n)
    ensures OnlyErasedSectorsChange(g, m0, m2, CONFIG_ADDR, CONFIG_END)
  {
    forall a: nat | CONFIG_ADDR <= a < CONFIG_END ensures InErasedSector(g, a, CONFIG_ADDR, CONFIG_END) {
      RangeErased(g, CONFIG_ADDR, CONFIG_END, a);
    }
  }

  // ----- Power cuts during a save ----------------------------------------------------

  /** The flash when power fails during a save: erased, with the first bytes of the record in place. */
  ghost predicate CutImage(g: Geometry, mem: Memory, c: Config, m: seq<byte>) {
    exists k :: 0 <= k <= CONFIG_BYTES && m == CutAt(g, mem, c, k)
  }

  function CutAt(g: Geometry, mem: Memory, c: Config, k: nat): Memory
    requires k <= CONFIG_BYTES
  {
    Splice(Erased(g, mem, CONFIG_ADDR, CONFIG_END), CONFIG_ADDR - FLASH_BASE, Encode(Stamp(c))[..k])
  }

  /** The log grew by images that a cut of this save can leave. */
  ghost predicate CutsOnly(g: Geometry, mem: Memory, c: Config, log0: seq<seq<byte>>, log: seq<seq<byte>>) {
    |log0| <= |log| && log[..|log0|] == log0 && forall i :: |log0| <= i < |log| ==> CutImage(g, mem, c, log[i])
  }

  lemma NoCuts(g: Geometry, mem: Memory, c: Config, log: seq<seq<byte>>)
    ensures CutsOnly(g, mem, c, log, log)
  {
    assert log[..|log|] == log;
  }

  /** Programming a leading part of the record into the erased flash passes through cut images only. */
  lemma RecordCuts(g: Geometry, mem: Memory, c: Config, log0: seq<seq<byte>>, log: seq<seq<byte>>, n: nat)
    requires n <= CONFIG_BYTES
    requires var m1 := Erased(g, mem, CONFIG_ADDR, CONFIG_END);
      log == log0 + [m1] + Snapshots(m1, CONFIG_ADDR - FLASH_BASE, Encode(Stamp(c))[..n])
    ensures CutsOnly(g, mem, c, log0, log)
  {
    hide Erased, Encode, Stamp;
    var m1 := Erased(g, mem, CONFIG_ADDR, CONFIG_END);
    var at, record := CONFIG_ADDR - FLASH_BASE, Encode(Stamp(c));
    forall i | |log0| <= i < |log| ensures CutImage(g, mem, c, log[i]) {
      if i == |log0| {
        SpliceNothing(m1, at);
        assert record[..0] == [];
        assert log[i] == CutAt(g, mem, c, 0);
      } else {
        var k := i - |log0| - 1;
        assert record[..n][..k + 1] == record[..k + 1];
        assert log[i] == Snapshots(m1, at, record[..n])[k] == CutAt(g, mem, c, k + 1);
      }
    }
  }

  /** The same for as much of the body as was programmed. */
  lemma BodyCuts(g: Geometry, mem: Memory, c: Config, log0: seq<seq<byte>>, log: seq<seq<byte>>)
    requires var m1 := Erased(g, mem, CONFIG_ADDR, CONFIG_END);
      Logged(log0 + [m1], log, m1, CONFIG_ADDR - FLASH_BASE, Encode(Stamp(c))[..CRC_OFFSET])
    ensures CutsOnly(g, mem, c, log0, log)
  {
    hide Erased, Encode, Stamp, Snapshots, CutsOnly;
    var m1 := Erased(g, mem, CONFIG_ADDR, CONFIG_END);
    var r := Encode(Stamp(c));
    var k :| 0 <= k <= CRC_OFFSET && log == log0 + [m1] + Snapshots(m1, CONFIG_ADDR - FLASH_BASE, r[..CRC_OFFSET][..k]);
    assert r[..CRC_OFFSET][..k] == r[..k];
    RecordCuts(g, mem, c, log0, log, k);
  }

  /** What the configuration region holds after a cut. */
  function TornRecord(c: Config, k: nat): (s: seq<byte>)
    requires k <= CONFIG_BYTES
    ensures |s| == CONFIG_BYTES
  {
    Encode(Stamp(c))[..k] + Fill(CONFIG_BYTES - k, 0xFF)
  }

  lemma CutLeavesTornRecord(g: Geometry, mem: Memory, c: Config, k: nat)
    requires Tiles(g) && k <= CONFIG_BYTES
    ensures ConfigAt(CutAt(g, mem, c, k)) == TornRecord(c, k)
  {
    hide Encode, Stamp;
    var m1 := Erased(g, mem, CONFIG_ADDR, CONFIG_END);
    forall a: nat | CONFIG_ADDR <= a < CONFIG_END ensures InErasedSector(g, a, CONFIG_ADDR, CONFIG_END) {
      RangeErased(g, CONFIG_ADDR, CONFIG_END, a);
    }
  }

  /**
   Torn-write safety, with no assumption about CRC collisions: whatever prefix of the
   record made it to flash, the region is invalid or it is the complete new record.
   */
  lemma TornRecordInvalidOrWhole(c: Config, k: nat)
    requires k <= CONFIG_BYTES
    ensures Validate(Decode(TornRecord(c, k))) ==>
      TornRecord(c, k) == Encode(Stamp(c)) && Decode(TornRecord(c, k)) == Stamp(c)
  {
    hide Crc32.Checksum;
    var r, s := Encode(Stamp(c)), TornRecord(c, k);
    if Validate(Decode(s)) {
      if k < CRC_OFFSET {
        assert false;
      }
      assert s[..CRC_OFFSET] == r[..CRC_OFFSET] == Body(Stamp(c));
      EncodeDecode(s);
      assert Encode(Decode(s))[..CRC_OFFSET] == Body(Decode(s));
      assert Body(Decode(s)) == Body(Stamp(c)) == Body(c);
      U32RoundTrip(s[20..24]);
      assert s[CRC_OFFSET..] == Le32(Crc32.Checksum(Body(c))) == r[CRC_OFFSET..];
      assert s == s[..CRC_OFFSET] + s[CRC_OFFSET..] == r;
      DecodeEncode(Stamp(c));
    }
  }

  /** A successful save loads back as the saved configuration. */
  lemma SavedLoadsBack(t: Trust, g: Geometry, mem: Memory, c: Config)
    requires c.magic == BOOT_CONFIG_MAGIC
    ensures Load(t, Saved(g, mem, c)) == Loaded(Stamp(c), true)
  {
    hide Crc32.Checksum, Encode, Erased, Recover, BanksOf;
    var m1 := Erased(g, mem, CONFIG_ADDR, CONFIG_END);
    SpliceInside(m1, CONFIG_ADDR - FLASH_BASE, Encode(Stamp(c)));
    DecodeEncode(Stamp(c));
    assert Body(Stamp(c)) == Body(c);
  }

  /** The next load after a cut: the complete new configuration, or a recovered one. */
  lemma LoadAfterCut(t: Trust, g: Geometry, mem: Memory, c: Config, m: Memory)
    requires Tiles(g) && CutImage(g, mem, c, m)
    ensures Load(t, m) == Loaded(Stamp(c), true)
         || Load(t, m) == Loaded(Recover(BanksOf(t, m), Default()), false)
  {
    hide Recover, BanksOf, Validate, Encode, Default;
    var k :| 0 <= k <= CONFIG_BYTES && m == CutAt(g, mem, c, k);
    CutLeavesTornRecord(g, mem, c, k);
    TornRecordInvalidOrWhole(c, k);
  }

  /** What the cut kept from flash reads as erased anyway, so the record is complete all the same. */
  predicate NothingMissing(c: Config, k: nat)
    requires k <= CONFIG_BYTES
  {
    c.magic == BOOT_CONFIG_MAGIC && Encode(Stamp(c))[k..] == Fill(CONFIG_BYTES - k, 0xFF)
  }

  /** The record found after a cut is valid exactly when none of its bytes is missing. */
  lemma CutLoadsExactly(t: Trust, g: Geometry, mem: Memory, c: Config, k: nat)
    requires Tiles(g) && k <= CONFIG_BYTES
    ensures Load(t, CutAt(g, mem, c, k)).ok <==> NothingMissing(c, k)
  {
    hide Recover, BanksOf, CutAt, TornRecord, Encode, Decode, Validate, Stamp, Default;
    CutLeavesTornRecord(g, mem, c, k);
    TornRecordInvalidOrWhole(c, k);
    WholeRecordValid(c);
    TornIsWhole(c, k);
  }

  lemma WholeRecordValid(c: Config)
    ensures Validate(Decode(Encode(Stamp(c)))) == (c.magic == BOOT_CONFIG_MAGIC)
    ensures Validate(Decode(Encode(Stamp(c)))) == Validate(Stamp(c))
  {
    hide Crc32.Checksum, Encode, Decode;
    DecodeEncode(Stamp(c));
    assert Body(Stamp(c)) == Body(c);
  }

  lemma TornIsWhole(c: Config, k: nat)
    requires k <= CONFIG_BYTES
    ensures TornRecord(c, k) == Encode(Stamp(c)) <==> Encode(Stamp(c))[k..] == Fill(CONFIG_BYTES - k, 0xFF)
  {
    hide Encode, Stamp;
    var r, torn := Encode(Stamp(c)), TornRecord(c, k);
    assert r == r[..k] + r[k..] && torn[k..] == Fill(CONFIG_BYTES - k, 0xFF);
  }

  /** Slots in other sectors are untouched by a save, complete or cut. */
  lemma CutSparesSlot(g: Geometry, mem: Memory, c: Config, k: nat, addr: u32)
    requires k <= CONFIG_BYTES && (addr == SLOT_A_ADDR || addr == SLOT_B_ADDR)
    requires AwayFromConfig(g, addr)
    ensures SlotAt(CutAt(g, mem, c, k), addr) == SlotAt(mem, addr)
  {
    hide Encode, Stamp;
    EraseSpares(g, mem, CONFIG_ADDR, CONFIG_END, addr, addr + SLOT_SIZE);
    var m1 := Erased(g, mem, CONFIG_ADDR, CONFIG_END);
    SpliceOutside(m1, CONFIG_ADDR - FLASH_BASE, Encode(Stamp(c))[..k], addr - FLASH_BASE, addr - FLASH_BASE + SLOT_SIZE);
  }

  lemma SavedIsCut(g: Geometry, mem: Memory, c: Config)
    ensures Saved(g, mem, c) == CutAt(g, mem, c, CONFIG_BYTES)
  {
    assert Encode(Stamp(c))[..CONFIG_BYTES] == Encode(Stamp(c));
  }

  // ----- What the floor is ------------------------------------------------------------

  /**
   The floor that goes with a highest version: itself, except that any version below
   v1.0.0 other than 0 counts as v1.0.0.
   */
  function FloorOf(highest: u32): u32 {
    if highest == 0 then 0 else if highest < 0x1_0000 then 0x1_0000 else highest
  }

  /** The counter never claims more than the version itself, from v1.0.0 on. */
  lemma CounterFloor(v: u32)
    requires v > 0
    ensures Max(Counter(v) * 0x1_0000, v) == FloorOf(v)
  {
    var major := v / 0x1_0000 % 0x100;
    assert v / 0x1_0000 == v / 0x1_0000 / 0x100 * 0x100 + major;
    assert v >= v / 0x1_0000 * 0x1_0000;
  }

  lemma FloorOfMonotone(v: u32, w: u32)
    requires v <= w
    ensures FloorOf(v) <= FloorOf(w)
  {
  }

  /** The counter is a function of the higher of the two recorded versions. */
  predicate Consistent(c: Config) {
    c.rollback == if Max(c.verA, c.verB) == 0 then 0 else Counter(Max(c.verA, c.verB))
  }

  lemma ConsistentFloor(c: Config)
    requires Consistent(c)
    ensures Floor(c) == FloorOf(Max(c.verA, c.verB))
  {
    if Max(c.verA, c.verB) > 0 { CounterFloor(Max(c.verA, c.verB)); }
  }

  /** A recovered configuration is consistent and its floor is that of the highest verified version. */
  lemma RecoveredFloor(bk: Banks)
    ensures var c := Recover(bk, Default());
      && Consistent(c) && Max(c.verA, c.verB) == bk.Highest() && Floor(c) == FloorOf(bk.Highest())
      && Validate(c) && (c.active == SLOT_A || c.active == SLOT_B)
  {
    hide Crc32.Checksum, Counter;
    var c := Recover(bk, Default());
    ConsistentFloor(c);
    assert Body(c) == Body(Stamp(c));
  }

  /** The recovered record: what the slots that verify carry, the newest of them active and slot A at a tie. */
  lemma RecoveredRecord(bk: Banks)
    ensures var c, highest := Recover(bk, Default()), bk.Highest();
      && c.verA == (if bk.a.ok then bk.a.version else 0) && c.verB == (if bk.b.ok then bk.b.version else 0)
      && (highest > 0 ==> bk.Of(c.active).ok && bk.Of(c.active).version == highest)
      && (c.verA >= c.verB ==> c.active == SLOT_A)
      && c.rollback == (if highest == 0 then 0 else if Le32(highest)[2] == 0 then 1 else Le32(highest)[2])
      && c.attempts == 0 && c.lastGood == 0
  {
    hide Crc32.Checksum, Counter, Le32;
    CounterIsMajor(bk.Highest());
  }

  /** A permitted record raises the floor to the one of its version, never lowers it. */
  lemma RecordRaisesFloor(c: Config, slot: byte, version: u32)
    requires Allowed(c, version)
    ensures Floor(c) <= Floor(RecordOta(c, slot, version)) <= FloorOf(version)
    ensures Consistent(c) ==>
      Consistent(RecordOta(c, slot, version)) && Floor(RecordOta(c, slot, version)) == FloorOf(version)
  {
    var c' := RecordOta(c, slot, version);
    if version > 0 { CounterFloor(version); }
    if Consistent(c) {
      ConsistentFloor(c);
      assert Max(c'.verA, c'.verB) == version;
      if version > 0 && version == Floor(c) { SameCounter(c, version); }
      ConsistentFloor(c');
    }
  }

  lemma SameCounter(c: Config, version: u32)
    requires Consistent(c) && version == Floor(c) > 0
    ensures c.rollback == Counter(version)
  {
    var h := Max(c.verA, c.verB);
    ConsistentFloor(c);
    assert h > 0;
    if h < 0x1_0000 { assert Counter(h) == 1 && Counter(0x1_0000) == 1; }
  }

  // ----- Recovery rebuilds the floor ---------------------------------------------------

  datatype Install = Install(slot: byte, version: u32)

  /** The configuration after a history of records, starting from the defaults. */
  function After(history: seq<Install>): Config {
    if history == [] then Default()
    else
      var last := history[|history| - 1];
      RecordOta(After(history[..|history| - 1]), last.slot, last.version)
  }

  /** Every record passed the anti-downgrade check when it was made. */
  predicate Guarded(history: seq<Install>) {
    history != [] ==>
      var last := history[|history| - 1];
      Guarded(history[..|history| - 1]) && Allowed(After(history[..|history| - 1]), last.version)
  }

  function HighestOf(history: seq<Install>): u32 {
    if history == [] then 0
    else Max(HighestOf(history[..|history| - 1]), history[|history| - 1].version)
  }

  lemma {:induction false} HistoryFloor(history: seq<Install>)
    requires Guarded(history)
    ensures Consistent(After(history))
    ensures Max(After(history).verA, After(history).verB) == HighestOf(history)
    ensures Floor(After(history)) == FloorOf(HighestOf(history))
  {
    hide Crc32.Checksum, Counter;
    if history != [] {
      var before := history[..|history| - 1];
      var last := history[|history| - 1];
      HistoryFloor(before);
      RecordRaisesFloor(After(before), last.slot, last.version);
      ConsistentFloor(After(history));
    }
  }

  /** Whatever was recorded before, exactly the versions from the floor of the highest one on are permitted. */
  lemma AllowedExactly(history: seq<Install>, version: u32)
    requires Guarded(history)
    ensures Allowed(After(history), version) <==> version >= FloorOf(HighestOf(history))
  {
    hide After, Guarded, HighestOf, FloorOf;
    HistoryFloor(history);
  }

  /** The version last recorded for slot A, or for the other one; 0 if there was none. */
  function LastInto(slotA: bool, history: seq<Install>): u32 {
    if history == [] then 0
    else
      var last := history[|history| - 1];
      if (last.slot == SLOT_A) == slotA then last.version else LastInto(slotA, history[..|history| - 1])
  }

  /** What is on record after a history: each slot's last version, and the major version of the highest. */
  lemma {:induction false} HistoryRecords(history: seq<Install>)
    requires Guarded(history)
    ensures var c, highest := After(history), HighestOf(history);
      && c.verA == LastInto(true, history) && c.verB == LastInto(false, history)
      && c.rollback == (if highest == 0 then 0 else if Le32(highest)[2] == 0 then 1 else Le32(highest)[2])
      && c.active == SLOT_A && c.attempts == 0 && c.lastGood == 0
  {
    hide Crc32.Checksum, Counter, Le32;
    HistoryFloor(history);
    CounterIsMajor(HighestOf(history));
    if history != [] {
      HistoryRecords(history[..|history| - 1]);
    }
  }

  /**
   Losing the configuration after any guarded history: the recovered floor equals the
   lost one exactly when the highest version that still verifies gives the same floor,
   in particular when the highest recorded version still verifies and nothing newer does.
   */
  lemma RecoveryRebuildsFloor(history: seq<Install>, bk: Banks)
    requires Guarded(history)
    ensures Floor(Recover(bk, Default())) == Floor(After(history)) <==>
      FloorOf(bk.Highest()) == FloorOf(HighestOf(history))
    ensures Floor(Recover(bk, Default())) < Floor(After(history)) <==>
      FloorOf(bk.Highest()) < FloorOf(HighestOf(history))
    ensures bk.Highest() == HighestOf(history) ==> Floor(Recover(bk, Default())) == Floor(After(history))
  {
    hide After, Recover, Floor;
    HistoryFloor(history);
    RecoveredFloor(bk);
  }
}
