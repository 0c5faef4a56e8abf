/**
 The flash partitions, the firmware header and the constants of the memory map,
 and how the erase sectors of a part lie across the partitions.
 */
module Layout {
  import opened Bytes

  const FLASH_BASE: u32 := 0x0800_0000
  const FLASH_SIZE: u32 := 0x10_0000
  const CONFIG_ADDR: u32 := 0x0801_0000
  const CONFIG_BYTES: nat := 24
  const CONFIG_END: u32 := 0x0801_0018
  const SLOT_A_ADDR: u32 := 0x0801_1000
  const SLOT_B_ADDR: u32 := 0x0808_4000
  const SLOT_SIZE: nat := 460 * 1024
  const SLOT_A: byte := 0x41
  const SLOT_B: byte := 0x42

  const FIRMWARE_MAGIC: u32 := 0xDEAD_BEEF
  const BOOT_CONFIG_MAGIC: u32 := 0xB007_10AD
  const SHARED_BLOCK_MAGIC: u32 := 0x5EAF_B001

  const HEADER_SIZE: nat := 512
  const MAX_PAYLOAD: nat := SLOT_SIZE - HEADER_SIZE

  /** A whole flash image. */
  type Memory = m: seq<byte> | |m| == FLASH_SIZE witness Fill(FLASH_SIZE, 0xFF)

  function SlotAddr(slot: byte): u32 {
    if slot == SLOT_B then SLOT_B_ADDR else SLOT_A_ADDR
  }

  function OtherSlot(slot: byte): byte {
    if slot == SLOT_A then SLOT_B else SLOT_A
  }

  /** The bytes of the slot based at `addr`. */
  function SlotAt(mem: Memory, addr: u32): (s: seq<byte>)
    requires addr == SLOT_A_ADDR || addr == SLOT_B_ADDR
    ensures |s| == SLOT_SIZE
  {
    mem[addr - FLASH_BASE..addr - FLASH_BASE + SLOT_SIZE]
  }

  /** The bytes of the stored boot configuration. */
  function ConfigAt(mem: Memory): (s: seq<byte>)
    ensures |s| == CONFIG_BYTES
  {
    mem[CONFIG_ADDR - FLASH_BASE..CONFIG_ADDR - FLASH_BASE + CONFIG_BYTES]
  }

  // ----- Erase sectors ------------------------------------------------------

  datatype Sector = Sector(start: u32, size: nat) {
    function End(): nat { start + size }

    /** The sector has a byte in common with [lo, hi). */
    predicate Meets(lo: nat, hi: nat) { start < hi && lo < End() }
  }

  type Geometry = seq<Sector>

  /** The sectors tile the flash without gaps, in order. */
  predicate Tiles(g: Geometry) {
    && |g| > 0 && g[0].start == FLASH_BASE && g[|g| - 1].End() == FLASH_BASE + FLASH_SIZE
    && (forall k :: 0 <= k < |g| ==> g[k].size > 0)
    && (forall k :: 0 <= k < |g| - 1 ==> g[k + 1].start == g[k].End())
  }

  const STM32F407: Geometry := [
    Sector(0x0800_0000, 0x4000), Sector(0x0800_4000, 0x4000), Sector(0x0800_8000, 0x4000),
    Sector(0x0800_C000, 0x4000), Sector(0x0801_0000, 0x1_0000), Sector(0x0802_0000, 0x2_0000),
    Sector(0x0804_0000, 0x2_0000), Sector(0x0806_0000, 0x2_0000), Sector(0x0808_0000, 0x2_0000),
    Sector(0x080A_0000, 0x2_0000), Sector(0x080C_0000, 0x2_0000), Sector(0x080E_0000, 0x2_0000)
  ]

  lemma ShippedTableTiles()
    ensures Tiles(STM32F407)
  {
  }

  lemma {:induction false} SectorsOrdered(g: Geometry, i: nat, j: nat)
    requires Tiles(g) && i < j < |g|
    ensures g[i].End() <= g[j].start
    decreases j
  {
    if i < j - 1 {
      SectorsOrdered(g, i, j - 1);
    }
  }

  /** Byte `a` is in a sector that meets [lo, hi): it does not survive erasing that range. */
  predicate InErasedSector(g: Geometry, a: nat, lo: nat, hi: nat) {
    exists k :: 0 <= k < |g| && g[k].start <= a < g[k].End() && g[k].Meets(lo, hi)
  }

  /** The flash after the sectors that meet [lo, hi) are erased. */
  function Erased(g: Geometry, mem: Memory, lo: nat, hi: nat): (r: Memory)
    ensures forall i :: 0 <= i < FLASH_SIZE ==>
      r[i] == if InErasedSector(g, FLASH_BASE + i, lo, hi) then 0xFF else mem[i]
  {
    seq(FLASH_SIZE, i requires 0 <= i < FLASH_SIZE =>
      if InErasedSector(g, FLASH_BASE + i, lo, hi) then 0xFF else mem[i])
  }

  /** No sector has bytes of both [lo, hi) and [from, to). */
  predicate Separate(g: Geometry, lo: nat, hi: nat, from: nat, to: nat) {
    forall k :: 0 <= k < |g| ==> !(g[k].Meets(lo, hi) && g[k].Meets(from, to))
  }

  /** The slot at `addr` shares no sector with the configuration. */
  predicate AwayFromConfig(g: Geometry, addr: nat) {
    Separate(g, CONFIG_ADDR, CONFIG_END, addr, addr + SLOT_SIZE)
  }

  /** Neither slot does, so a save leaves both alone: what the boot-level theorems ask for. */
  predicate ConfigAway(g: Geometry) {
    AwayFromConfig(g, SLOT_A_ADDR) && AwayFromConfig(g, SLOT_B_ADDR)
  }

  /** Nor do the slots share one with each other, so erasing any of the three leaves the others alone. */
  predicate Isolated(g: Geometry) {
    && ConfigAway(g)
    && Separate(g, SLOT_A_ADDR, SLOT_A_ADDR + SLOT_SIZE, SLOT_B_ADDR, SLOT_B_ADDR + SLOT_SIZE)
  }

  /** The configuration record lies within one sector, so it is erased in one step. */
  predicate ConfigInOneSector(g: Geometry) {
    exists k :: 0 <= k < |g| && g[k].start <= CONFIG_ADDR && CONFIG_END <= g[k].End()
  }

  /**
   Erasing [lo, hi) preserves [from, to) for every content of the flash exactly
   when no sector meets both.
   */
  lemma EraseSparesIffSeparate(g: Geometry, lo: nat, hi: nat, from: nat, to: nat)
    requires Tiles(g) && FLASH_BASE <= from < to <= FLASH_BASE + FLASH_SIZE
    ensures Separate(g, lo, hi, from, to) <==>
      forall mem: Memory :: Erased(g, mem, lo, hi)[from - FLASH_BASE..to - FLASH_BASE]
                         == mem[from - FLASH_BASE..to - FLASH_BASE]
  {
    if Separate(g, lo, hi, from, to) {
      forall mem: Memory
        ensures Erased(g, mem, lo, hi)[from - FLASH_BASE..to - FLASH_BASE]
             == mem[from - FLASH_BASE..to - FLASH_BASE]
      {
        EraseSpares(g, mem, lo, hi, from, to);
      }
    } else {
      var k :| 0 <= k < |g| && g[k].Meets(lo, hi) && g[k].Meets(from, to);
      var mem: Memory := Fill(FLASH_SIZE, 0);
      var a := if g[k].start < from then from else g[k].start;
      assert InErasedSector(g, a, lo, hi);
      var after := Erased(g, mem, lo, hi);
      assert after[a - FLASH_BASE] == 0xFF;
      assert after[from - FLASH_BASE..to - FLASH_BASE][a - from] == after[a - FLASH_BASE];
      assert mem[from - FLASH_BASE..to - FLASH_BASE][a - from] == 0;
    }
  }

  lemma EraseSpares(g: Geometry, mem: Memory, lo: nat, hi: nat, from: nat, to: nat)
    requires FLASH_BASE <= from <= to <= FLASH_BASE + FLASH_SIZE
    requires Separate(g, lo, hi, from, to)
    ensures Erased(g, mem, lo, hi)[from - FLASH_BASE..to - FLASH_BASE]
         == mem[from - FLASH_BASE..to - FLASH_BASE]
  {
  }

  lemma SeparateSymmetric(g: Geometry, lo: nat, hi: nat, from: nat, to: nat)
    requires Separate(g, lo, hi, from, to)
    ensures Separate(g, from, to, lo, hi)
  {
  }

  lemma {:induction false} SectorOf(g: Geometry, a: nat, n: nat)
    requires Tiles(g) && 0 < n <= |g| && FLASH_BASE <= a < g[n - 1].End()
    ensures exists k :: 0 <= k < n && g[k].start <= a < g[k].End()
    decreases n
  {
    if a < g[n - 1].start {
      SectorOf(g, a, n - 1);
    }
  }

  /** Every byte of a range is in a sector that erasing the range erases. */
  lemma RangeErased(g: Geometry, lo: nat, hi: nat, a: nat)
    requires Tiles(g) && FLASH_BASE <= lo <= a < hi <= FLASH_BASE + FLASH_SIZE
    ensures InErasedSector(g, a, lo, hi)
  {
    SectorOf(g, a, |g|);
    var k :| 0 <= k < |g| && g[k].start <= a < g[k].End();
    assert g[k].Meets(lo, hi);
  }

  // ----- The shipped table ---------------------------------------------------------

  /**
   Under the shipped table no partition is isolated: whatever the flash holds,
   erasing the configuration erases the first 60 KB of slot A.
   */
  lemma ShippedConfigEraseHitsSlotA(mem: Memory, i: nat)
    requires i < 0xF000
    ensures SlotAt(Erased(STM32F407, mem, CONFIG_ADDR, CONFIG_END), SLOT_A_ADDR)[i] == 0xFF
  {
    assert STM32F407[4].Meets(CONFIG_ADDR, CONFIG_END);
    assert STM32F407[4].start <= SLOT_A_ADDR + i < STM32F407[4].End();
    assert InErasedSector(STM32F407, SLOT_A_ADDR + i, CONFIG_ADDR, CONFIG_END);
  }

  /** Erasing any part of the head of slot B erases the last 16 KB of slot A. */
  lemma ShippedSlotBEraseHitsSlotA(mem: Memory, size: nat, i: nat)
    requires size > 0 && 0x6_F000 <= i < SLOT_SIZE
    ensures SlotAt(Erased(STM32F407, mem, SLOT_B_ADDR, SLOT_B_ADDR + size), SLOT_A_ADDR)[i] == 0xFF
  {
    assert STM32F407[8].Meets(SLOT_B_ADDR, SLOT_B_ADDR + size);
    assert STM32F407[8].start <= SLOT_A_ADDR + i < STM32F407[8].End();
    assert InErasedSector(STM32F407, SLOT_A_ADDR + i, SLOT_B_ADDR, SLOT_B_ADDR + size);
  }

  /** And exactly those 16 KB, however much of slot B is erased. */
  lemma ShippedSlotBEraseReach(size: nat, i: nat)
    requires 0 < size <= SLOT_SIZE && i < SLOT_SIZE
    ensures InErasedSector(STM32F407, SLOT_A_ADDR + i, SLOT_B_ADDR, SLOT_B_ADDR + size) <==> i >= SLOT_A_REACH
  {
    var a, hi := SLOT_A_ADDR + i, SLOT_B_ADDR + size;
    assert STM32F407[8].Meets(SLOT_B_ADDR, hi);
    if i >= SLOT_A_REACH { assert STM32F407[8].start <= a < STM32F407[8].End(); }
  }

  lemma ShippedSlotBApartFromHead()
    ensures Separate(STM32F407, SLOT_B_ADDR, SLOT_B_ADDR + SLOT_SIZE, SLOT_A_ADDR, SLOT_A_ADDR + SLOT_A_REACH)
  {
  }

  /** Slot B is away from the configuration even there. */
  lemma ShippedSlotBAwayFromConfig()
    ensures AwayFromConfig(STM32F407, SLOT_B_ADDR)
  {
  }

  /** Conversely, erasing any part of slot A erases the stored configuration. */
  lemma ShippedSlotAEraseHitsConfig(mem: Memory, size: nat)
    requires size > 0
    ensures ConfigAt(Erased(STM32F407, mem, SLOT_A_ADDR, SLOT_A_ADDR + size)) == Fill(CONFIG_BYTES, 0xFF)
  {
    assert STM32F407[4].Meets(SLOT_A_ADDR, SLOT_A_ADDR + size);
    var hi := SLOT_A_ADDR + size;
    forall a: nat | CONFIG_ADDR <= a < CONFIG_END ensures InErasedSector(STM32F407, a, SLOT_A_ADDR, hi) {
      assert STM32F407[4].start <= a < STM32F407[4].End();
    }
  }

  /** How much of slot A can be erased before slot B suffers. */
  const SLOT_A_REACH: nat := 0x6_F000

  /** Erasing up to 444 KB of slot A spares slot B, erasing more erases its head. */
  lemma ShippedSlotAEraseReach(mem: Memory, size: nat)
    requires 0 < size <= SLOT_SIZE
    ensures size <= SLOT_A_REACH ==>
      SlotAt(Erased(STM32F407, mem, SLOT_A_ADDR, SLOT_A_ADDR + size), SLOT_B_ADDR) == SlotAt(mem, SLOT_B_ADDR)
    ensures size > SLOT_A_REACH ==>
      SlotAt(Erased(STM32F407, mem, SLOT_A_ADDR, SLOT_A_ADDR + size), SLOT_B_ADDR)[0] == 0xFF
  {
    var hi := SLOT_A_ADDR + size;
    if size <= SLOT_A_REACH {
      assert Separate(STM32F407, SLOT_A_ADDR, hi, SLOT_B_ADDR, SLOT_B_ADDR + SLOT_SIZE);
      EraseSpares(STM32F407, mem, SLOT_A_ADDR, hi, SLOT_B_ADDR, SLOT_B_ADDR + SLOT_SIZE);
    } else {
      assert STM32F407[8].Meets(SLOT_A_ADDR, hi);
      assert InErasedSector(STM32F407, SLOT_B_ADDR, SLOT_A_ADDR, hi);
    }
  }

  lemma ShippedSlotAEraseHitsSlotB()
    ensures InErasedSector(STM32F407, SLOT_B_ADDR, SLOT_A_ADDR, SLOT_A_ADDR + SLOT_SIZE)
  {
    var hi := SLOT_A_ADDR + SLOT_SIZE;
    assert STM32F407[8].Meets(SLOT_A_ADDR, hi);
  }

  /** A part whose sectors follow the partitions. */
  const PARTITIONED: Geometry := [
    Sector(FLASH_BASE, 0x1_0000), Sector(CONFIG_ADDR, 0x1000), Sector(SLOT_A_ADDR, SLOT_SIZE),
    Sector(SLOT_B_ADDR, SLOT_SIZE), Sector(0x080F_7000, 0x9000)
  ]

  lemma PartitionedTableIsolated()
    ensures Tiles(PARTITIONED) && Isolated(PARTITIONED) && ConfigInOneSector(PARTITIONED)
  {
    assert PARTITIONED[1].start <= CONFIG_ADDR && CONFIG_END <= PARTITIONED[1].End();
  }

  lemma ShippedTableNotIsolated()
    ensures !Isolated(STM32F407) && ConfigInOneSector(STM32F407)
  {
    assert STM32F407[4].Meets(CONFIG_ADDR, CONFIG_END);
    assert STM32F407[4].Meets(SLOT_A_ADDR, SLOT_A_ADDR + SLOT_SIZE);
    assert STM32F407[4].start <= CONFIG_ADDR && CONFIG_END <= STM32F407[4].End();
  }
}
