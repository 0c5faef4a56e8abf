/**
 The flash driver over an abstract NOR array. The controller is not trusted: an
 erase or program pulse may leave anything in the cells it addresses and may report
 any status, and only the driver's own readback establishes what was written.
 Controller registers are not part of this model.
 */
module Flash {
  import opened Bytes
  import opened Layout

  datatype Status = Ok | ErrBusy | ErrVerify | ErrRange | ErrLocked | ErrProg

  /** sector_index_for_addr: the last sector that starts at or below `addr`, or -1. */
  function SectorIndex(g: Geometry, addr: u32, n: nat): (i: int)
    requires n <= |g|
    ensures -1 <= i < n
    ensures 0 <= i ==> g[i].start <= addr
    ensures forall k :: i < k < n ==> addr < g[k].start
  {
    if n == 0 then -1 else if addr >= g[n - 1].start then n - 1 else SectorIndex(g, addr, n - 1)
  }

  /** Every image the flash passes through while `data` is programmed byte by byte. */
  function Snapshots(mem: seq<byte>, off: nat, data: seq<byte>): (s: seq<seq<byte>>)
    requires off + |data| <= |mem|
    ensures |s| == |data|
  {
    seq(|data|, k requires 0 <= k < |data| => Splice(mem, off, data[..k + 1]))
  }

  lemma SnapshotsAppend(mem: seq<byte>, off: nat, d: seq<byte>, e: seq<byte>)
    requires off + |d| + |e| <= |mem|
    ensures Snapshots(mem, off, d + e) == Snapshots(mem, off, d) + Snapshots(Splice(mem, off, d), off + |d|, e)
  {
    var lhs, rhs := Snapshots(mem, off, d + e), Snapshots(mem, off, d) + Snapshots(Splice(mem, off, d), off + |d|, e);
    forall k | 0 <= k < |d + e| ensures lhs[k] == rhs[k] {
      if k < |d| {
        assert (d + e)[..k + 1] == d[..k + 1];
      } else {
        var j := k - |d|;
        assert (d + e)[..k + 1] == d + e[..j + 1];
        SpliceAppend(mem, off, d, e[..j + 1]);
      }
    }
  }

  /** The log grew by the images of some leading part of `data` being programmed. */
  ghost predicate Logged(log0: seq<seq<byte>>, log: seq<seq<byte>>, mem: seq<byte>, off: nat, data: seq<byte>)
    requires off + |data| <= |mem|
  {
    exists k :: 0 <= k <= |data| && log == log0 + Snapshots(mem, off, data[..k])
  }

  class Nor {
    const g: Geometry
    const cells: array<byte>
    /** Every image the flash has held, in order: the states a power cut can leave. */
    ghost var log: seq<seq<byte>>
    /** The controller has not always done what it was asked: only it sets this. */
    ghost var faulty: bool

    ghost predicate Valid()
    {
      Tiles(g) && cells.Length == FLASH_SIZE
    }

    ghost function Mem(): Memory
      requires Valid()
      reads cells
    {
      cells[..]
    }

    constructor (g: Geometry)
      requires Tiles(g)
      ensures Valid() && !faulty && this.g == g && fresh(cells) && Mem() == Fill(FLASH_SIZE, 0xFF)
    {
      this.g := g;
      cells := new byte[FLASH_SIZE](i => 0xFF);
      log := [];
      faulty := false;
    }

    /** The lookup loop, from the last sector down. */
    method FindSector(addr: u32) returns (i: int)
      ensures i == SectorIndex(g, addr, |g|)
    {
      i := |g| - 1;
      while i >= 0
        invariant -1 <= i < |g|
        invariant SectorIndex(g, addr, |g|) == SectorIndex(g, addr, i + 1)
      {
        if addr >= g[i].start {
          return;
        }
        i := i - 1;
      }
    }

    method SectorStart(addr: u32) returns (r: u32)
      ensures var i := SectorIndex(g, addr, |g|); r == if i < 0 then 0 else g[i].start
    {
      var i := FindSector(addr);
      r := if i < 0 then 0 else g[i].start;
    }

    method SectorSize(addr: u32) returns (r: nat)
      ensures var i := SectorIndex(g, addr, |g|); r == if i < 0 then 0 else g[i].size
    {
      var i := FindSector(addr);
      r := if i < 0 then 0 else g[i].size;
    }

    /** The controller's part of an operation on cells: any content, any status. */
    method Pulse(at: nat, ghost wanted: seq<byte>, n: nat) returns (s: Status)
      requires Valid() && at + n <= FLASH_SIZE && |wanted| == n
      modifies this`faulty, cells
      ensures Within(old(Mem()), Mem(), at, at + n) && s != ErrRange
      ensures faulty == (old(faulty) || s != Ok || Mem()[at..at + n] != wanted)
    {
      var i := 0;
      while i < n
        invariant 0 <= i <= n && faulty == old(faulty)
        invariant Within(old(Mem()), Mem(), at, at + n)
      {
        var v: byte := *;
        cells[at + i] := v;
        i := i + 1;
      }
      s :| s != ErrRange;
      faulty := faulty || s != Ok || Mem()[at..at + n] != wanted;
    }

    /** The controller's part of unlocking. */
    method Unlock() returns (s: Status)
      modifies this`faulty
      ensures (s == Ok || s == ErrLocked) && faulty == (old(faulty) || s != Ok)
    {
      s :| s == Ok || s == ErrLocked;
      faulty := faulty || s != Ok;
    }

    /** flash_erase_sector. */
    method EraseSector(addr: u32) returns (s: Status)
      requires Valid()
      modifies this, cells
      ensures log == if s == Ok then old(log) + [Mem()] else old(log)
      ensures var k := SectorIndex(g, addr, |g|);
        if k < 0 || g[k].start != addr then s == ErrRange && Mem() == old(Mem()) && faulty == old(faulty)
        else
          && faulty == (old(faulty) || s != Ok)
          && Within(old(Mem()), Mem(), addr - FLASH_BASE, addr - FLASH_BASE + g[k].size)
          && (s == Ok ==> Mem() == Erased(g, old(Mem()), addr, g[k].End()))
    {
      var idx := FindSector(addr);
      if idx < 0 || g[idx].start != addr {
        return ErrRange;
      }
      SectorInFlash(g, idx);
      var lo, size := addr - FLASH_BASE, g[idx].size;
      s := Pulse(lo, Fill(size, 0xFF), size);
      if s != Ok {
        return;
      }
      var i := 0;
      while i < size
        invariant 0 <= i <= size
        invariant forall j :: lo <= j < lo + i ==> cells[j] == 0xFF
      {
        if cells[lo + i] != 0xFF {
          assert Mem()[lo..lo + size][i] != 0xFF;
          return ErrVerify;
        }
        i := i + 1;
      }
      AllErased(Mem(), lo, size);
      log := log + [Mem()];
      ErasedIsSpan(g, old(Mem()), Mem(), addr, g[idx].End(), idx, idx);
    }

    /**
     flash_erase_range: for a range inside the flash, success means that exactly the
     sectors meeting it are erased, and failure that the controller misbehaved; in no
     case does any other byte change.
     */
    method EraseRange(addr: u32, size: nat) returns (s: Status)
      requires Valid()
      modifies this, cells
      ensures size == 0 ==> s == Ok && Mem() == old(Mem()) && log == old(log) && faulty == old(faulty)
      ensures FLASH_BASE <= addr && 0 < size && addr + size <= FLASH_BASE + FLASH_SIZE ==>
        && faulty == (old(faulty) || s != Ok)
        && (s == Ok ==> Mem() == Erased(g, old(Mem()), addr, addr + size))
        && OnlyErasedSectorsChange(g, old(Mem()), Mem(), addr, addr + size)
        && (InOneSector(g, addr, addr + size) ==> log == if s == Ok then old(log) + [Mem()] else old(log))
    {
      hide Erased, OnlyErasedSectorsChange, Filled, Within, InErasedSector, SectorIndex, InOneSector;
      if size == 0 {
        return Ok;
      }
      var start := SectorStart(addr);
      var end := (addr + size) % 0x1_0000_0000;
      ghost var inside := FLASH_BASE <= addr && addr + size <= FLASH_BASE + FLASH_SIZE;
      ghost var first := SectorIndex(g, addr, |g|);
      ghost var j := first;
      if inside {
        IndexContains(g, addr);
        FilledNothing(Mem(), g[first].start - FLASH_BASE);
      }
      while start < end
        invariant inside ==> faulty == old(faulty)
        invariant inside ==> Erasing(g, old(Mem()), Mem(), addr, end, first, j, start)
        invariant inside && j == first ==> log == old(log)
        invariant inside && j == first + 1 ==> log == old(log) + [Mem()]
        decreases end - start
      {
        ghost var before := Mem();
        if inside { SectorStartIndex(g, j); }
        s := EraseSector(start);
        if inside { EraseStep(g, old(Mem()), before, Mem(), addr, end, first, j, start, s == Ok); }
        if inside && first < j { TwoSectorsApart(g, addr, end, first, j); }
        if s != Ok {
          return;
        }
        var step := SectorSize(start);
        start := start + step;
        j := j + 1;
      }
      if inside { EraseDone(g, old(Mem()), Mem(), addr, end, first, j, start); }
      s := Ok;
    }
  
    /** flash_program_word: little-endian, read back before it counts. */
    method ProgramWord(addr: u32, value: u32) returns (s: Status)
      requires Valid() && FLASH_BASE <= addr && addr + 4 <= FLASH_BASE + FLASH_SIZE
      modifies this, cells
      ensures s == Ok ==> addr % 4 == 0 && Mem() == Splice(old(Mem()), addr - FLASH_BASE, Le32(value))
      ensures Within(old(Mem()), Mem(), addr - FLASH_BASE, addr - FLASH_BASE + 4)
      ensures log == if s == Ok then old(log) + Snapshots(old(Mem()), addr - FLASH_BASE, Le32(value)) else old(log)
      ensures faulty == (old(faulty) || (s != Ok && addr % 4 == 0))
    {
      if addr % 4 != 0 {
        return ErrRange;
      }
      var at := addr - FLASH_BASE;
      s := Pulse(at, Le32(value), 4);
      Le32RoundTrip(value);
      if s == Ok && U32(cells[at..at + 4]) != value {
        s := ErrVerify;
      }
      if s == Ok {
        U32RoundTrip(cells[at..at + 4]);
        assert Mem() == Splice(old(Mem()), at, Le32(value));
        log := log + Snapshots(old(Mem()), at, Le32(value));
      }
    }

    method ProgramByte(addr: u32, value: byte) returns (s: Status)
      requires Valid() && FLASH_BASE <= addr < FLASH_BASE + FLASH_SIZE
      modifies this, cells
      ensures s == Ok ==> Mem() == Splice(old(Mem()), addr - FLASH_BASE, [value])
      ensures Within(old(Mem()), Mem(), addr - FLASH_BASE, addr - FLASH_BASE + 1)
      ensures log == if s == Ok then old(log) + Snapshots(old(Mem()), addr - FLASH_BASE, [value]) else old(log)
      ensures faulty == (old(faulty) || s != Ok)
    {
      var at := addr - FLASH_BASE;
      s := Pulse(at, [value], 1);
      assert Mem()[at..at + 1] == [cells[at]];
      if s == Ok && cells[at] != value {
        s := ErrVerify;
      }
      if s == Ok {
        assert Mem() == Splice(old(Mem()), at, [value]);
        log := log + Snapshots(old(Mem()), at, [value]);
      }
    }

    /** The word phase: aligned words while they last; `i` bytes are then in place. */
    method ProgramWords(addr: u32, data: seq<byte>) returns (s: Status, i: nat)
      requires Valid() && FLASH_BASE <= addr && addr + |data| <= FLASH_BASE + FLASH_SIZE
      modifies this, cells
      ensures i <= |data| && faulty == (old(faulty) || s != Ok)
      ensures Within(old(Mem()), Mem(), addr - FLASH_BASE, addr - FLASH_BASE + |data|)
      ensures log == old(log) + Snapshots(old(Mem()), addr - FLASH_BASE, data[..i])
      ensures s == Ok ==> Mem() == Splice(old(Mem()), addr - FLASH_BASE, data[..i])
    {
      hide Snapshots, Splice, Le32, U32, Within;
      ghost var m0, at := Mem(), addr - FLASH_BASE;
      ProgramFirst(m0, at, data);
      i := 0;
      while i + 4 <= |data| && (addr + i) % 4 == 0
        invariant i <= |data| && faulty == old(faulty)
        invariant Mem() == Splice(m0, at, data[..i]) && Within(m0, Mem(), at, at + |data|)
        invariant log == old(log) + Snapshots(m0, at, data[..i])
      {
        ghost var before := Mem();
        var d := data[i..i + 4];
        var w := U32(d);
        s := ProgramWord(addr + i, w);
        StaysWithin(m0, before, Mem(), at, data, i, 4);
        if s != Ok {
          return;
        }
        U32RoundTrip(d);
        ProgramNext(m0, at, data, i, 4);
        i := i + 4;
      }
      s := Ok;
    }

    /** The byte phase, from `done` on. */
    method ProgramTail(addr: u32, data: seq<byte>, done: nat, ghost m0: Memory, ghost log0: seq<seq<byte>>)
      returns (s: Status)
      requires Valid() && FLASH_BASE <= addr && addr + |data| <= FLASH_BASE + FLASH_SIZE && done <= |data|
      requires Mem() == Splice(m0, addr - FLASH_BASE, data[..done])
      requires Within(m0, Mem(), addr - FLASH_BASE, addr - FLASH_BASE + |data|)
      requires log == log0 + Snapshots(m0, addr - FLASH_BASE, data[..done])
      modifies this, cells
      ensures faulty == (old(faulty) || s != Ok)
      ensures Within(m0, Mem(), addr - FLASH_BASE, addr - FLASH_BASE + |data|)
      ensures Logged(log0, log, m0, addr - FLASH_BASE, data)
      ensures s == Ok ==>
        && Mem() == Splice(m0, addr - FLASH_BASE, data) && log == log0 + Snapshots(m0, addr - FLASH_BASE, data)
    {
      hide Snapshots, Splice, Within;
      ghost var at := addr - FLASH_BASE;
      var i := done;
      while i < |data|
        invariant i <= |data| && faulty == old(faulty)
        invariant Mem() == Splice(m0, at, data[..i]) && Within(m0, Mem(), at, at + |data|)
        invariant log == log0 + Snapshots(m0, at, data[..i])
      {
        ghost var before := Mem();
        s := ProgramByte(addr + i, data[i]);
        StaysWithin(m0, before, Mem(), at, data, i, 1);
        if s != Ok {
          return;
        }
        ProgramNext(m0, at, data, i, 1);
        i := i + 1;
      }
      assert data[..|data|] == data;
      s := Ok;
    }

    /**
     flash_program_bytes: success means the target holds the data, for every alignment
     and length; it fails only when the controller did; in no case does any other byte change.
     */
    method ProgramBytes(addr: u32, data: seq<byte>) returns (s: Status)
      requires Valid() && FLASH_BASE <= addr && addr + |data| <= FLASH_BASE + FLASH_SIZE
      modifies this, cells
      ensures s == Ok ==> Mem() == Splice(old(Mem()), addr - FLASH_BASE, data)
      ensures Within(old(Mem()), Mem(), addr - FLASH_BASE, addr - FLASH_BASE + |data|)
      ensures s == Ok ==> log == old(log) + Snapshots(old(Mem()), addr - FLASH_BASE, data)
      ensures Logged(old(log), log, old(Mem()), addr - FLASH_BASE, data)
      ensures faulty == (old(faulty) || s != Ok)
    {
      hide Snapshots, Splice, Within;
      ProgramFirst(Mem(), addr - FLASH_BASE, data);
      s := Unlock();
      if s != Ok {
        return;
      }
      ghost var m0, log0 := Mem(), log;
      var i;
      s, i := ProgramWords(addr, data);
      if s != Ok {
        return;
      }
      s := ProgramTail(addr, data, i, m0, log0);
    }

    /** flash_read. */
    method Read(addr: u32, size: nat) returns (data: seq<byte>)
      requires Valid() && FLASH_BASE <= addr && addr + size <= FLASH_BASE + FLASH_SIZE
      ensures data == Mem()[addr - FLASH_BASE..addr - FLASH_BASE + size]
    {
      data := cells[addr - FLASH_BASE..addr - FLASH_BASE + size];
    }
  }

  lemma AllErased(m: Memory, lo: nat, size: nat)
    requires lo + size <= FLASH_SIZE && forall j :: lo <= j < lo + size ==> m[j] == 0xFF
    ensures m[lo..lo + size] == Fill(size, 0xFF)
  {
  }

  lemma SpliceNothing(m: Memory, at: nat)
    requires at <= FLASH_SIZE
    ensures Splice(m, at, []) == m && Snapshots(m, at, []) == []
  {
  }

  lemma ProgramFirst(m: Memory, at: nat, data: seq<byte>)
    requires at + |data| <= FLASH_SIZE
    ensures m == Splice(m, at, data[..0]) && Snapshots(m, at, data[..0]) == []
    ensures Within(m, m, at, at + |data|)
  {
    assert data[..0] == [];
  }

  /** However far programming got, it stayed in the target. */
  lemma StaysWithin(m0: Memory, m1: Memory, m2: Memory, at: nat, data: seq<byte>, i: nat, n: nat)
    requires at + |data| <= FLASH_SIZE && i + n <= |data|
    requires m1 == Splice(m0, at, data[..i]) && Within(m1, m2, at + i, at + i + n)
    ensures Within(m0, m2, at, at + |data|)
  {
  }

  lemma ProgramNext(m: Memory, at: nat, data: seq<byte>, i: nat, n: nat)
    requires at + |data| <= FLASH_SIZE && i + n <= |data|
    ensures Splice(Splice(m, at, data[..i]), at + i, data[i..i + n]) == Splice(m, at, data[..i + n])
    ensures Snapshots(m, at, data[..i]) + Snapshots(Splice(m, at, data[..i]), at + i, data[i..i + n])
         == Snapshots(m, at, data[..i + n])
    ensures n == 1 ==> data[i..i + n] == [data[i]]
  {
    assert data[..i + n] == data[..i] + data[i..i + n];
    SpliceAppend(m, at, data[..i], data[i..i + n]);
    SnapshotsAppend(m, at, data[..i], data[i..i + n]);
  }

  /** Where sector `j` starts, or where the flash ends. */
  function Boundary(g: Geometry, j: nat): nat
    requires j <= |g|
  {
    if j < |g| then g[j].start else FLASH_BASE + FLASH_SIZE
  }

  /** Cells in [lo, hi) are erased, all others unchanged. */
  ghost predicate Filled(before: Memory, after: Memory, lo: int, hi: int) {
    forall i :: 0 <= i < FLASH_SIZE ==> after[i] == if lo <= i < hi then 0xFF else before[i]
  }

  /** Only cells in [lo, hi) may differ. */
  ghost predicate Within(before: Memory, after: Memory, lo: int, hi: int) {
    forall i :: 0 <= i < FLASH_SIZE && !(lo <= i < hi) ==> after[i] == before[i]
  }

  ghost predicate OnlyErasedSectorsChange(g: Geometry, before: Memory, after: Memory, lo: nat, hi: nat) {
    forall i :: 0 <= i < FLASH_SIZE && !InErasedSector(g, FLASH_BASE + i, lo, hi) ==> after[i] == before[i]
  }

  predicate InOneSector(g: Geometry, lo: nat, hi: nat) {
    exists k :: 0 <= k < |g| && g[k].start <= lo && hi <= g[k].End()
  }

  lemma {:induction false} SectorInFlash(g: Geometry, k: nat)
    requires Tiles(g) && k < |g|
    ensures FLASH_BASE <= g[k].start && g[k].End() <= FLASH_BASE + FLASH_SIZE
  {
    if k > 0 { SectorsOrdered(g, 0, k); }
    if k < |g| - 1 { SectorsOrdered(g, k, |g| - 1); }
  }

  /** The looked-up sector is the one that contains the address. */
  lemma IndexContains(g: Geometry, addr: u32)
    requires Tiles(g) && FLASH_BASE <= addr < FLASH_BASE + FLASH_SIZE
    ensures var k := SectorIndex(g, addr, |g|); 0 <= k && g[k].start <= addr < g[k].End()
  {
    var k := SectorIndex(g, addr, |g|);
    if 0 <= k < |g| - 1 { assert addr < g[k + 1].start; }
  }

  /** Where the erase loop stands: sectors `first` up to `j` are done. */
  ghost predicate Erasing(g: Geometry, m0: Memory, m: Memory, addr: nat, end: nat, first: int, j: int, start: nat) {
    && 0 <= first < |g| && first <= j <= |g|
    && g[first].start <= addr < g[first].End() && addr < end <= FLASH_BASE + FLASH_SIZE
    && start == Boundary(g, j)
    && (first < j ==> g[j - 1].start < end)
    && Filled(m0, m, g[first].start - FLASH_BASE, start - FLASH_BASE)
  }

  lemma FilledNothing(m: Memory, lo: int)
    ensures Filled(m, m, lo, lo)
  {
  }

  lemma EraseStep(g: Geometry, m0: Memory, m: Memory, m': Memory, addr: nat, end: nat, first: int, j: int,
                  start: nat, ok: bool)
    requires Tiles(g) && Erasing(g, m0, m, addr, end, first, j, start) && start < end
    requires j < |g| && Within(m, m', start - FLASH_BASE, start - FLASH_BASE + g[j].size)
    requires ok ==> m' == Erased(g, m, start, g[j].End())
    ensures OnlyErasedSectorsChange(g, m0, m', addr, end)
    ensures ok ==> Erasing(g, m0, m', addr, end, first, j + 1, start + g[j].size)
  {
    SpanHit(g, addr, end, first, j);
    SectorInFlash(g, j);
    SectorInFlash(g, first);
    if first < j { SectorsOrdered(g, first, j); }
    if ok {
      SpanErased(g, start, g[j].End(), j, j);
    }
  }

  lemma EraseDone(g: Geometry, m0: Memory, m: Memory, addr: nat, end: nat, first: int, j: int, start: nat)
    requires Tiles(g) && Erasing(g, m0, m, addr, end, first, j, start) && end <= start
    ensures m == Erased(g, m0, addr, end) && OnlyErasedSectorsChange(g, m0, m, addr, end)
    ensures InOneSector(g, addr, end) ==> j == first + 1
  {
    assert first < j;
    ErasedIsSpan(g, m0, m, addr, end, first, j - 1);
    if first < j - 1 { TwoSectorsApart(g, addr, end, first, j - 1); }
  }

  /** Looking up a sector's own start finds that sector. */
  lemma {:induction false} SectorStartIndex(g: Geometry, j: nat)
    requires Tiles(g) && j < |g|
    ensures SectorIndex(g, g[j].start, |g|) == j
  {
    var k := SectorIndex(g, g[j].start, |g|);
    if k > j { SectorsOrdered(g, j, k); }
  }

  /** All of the sectors from the one containing `lo` to one starting below `hi` are hit. */
  lemma SpanHit(g: Geometry, lo: nat, hi: nat, first: nat, last: nat)
    requires Tiles(g) && first <= last < |g|
    requires g[first].start <= lo < g[first].End() && g[last].start < hi
    ensures forall a: nat :: g[first].start <= a < g[last].End() ==> InErasedSector(g, a, lo, hi)
  {
    forall a: nat | g[first].start <= a < g[last].End() ensures InErasedSector(g, a, lo, hi) {
      SectorInFlash(g, first);
      SectorOf(g, a, last + 1);
      var k :| 0 <= k < last + 1 && g[k].start <= a < g[k].End();
      if k < first { SectorsOrdered(g, k, first); }
      if first < k { SectorsOrdered(g, first, k); }
      if k < last { SectorsOrdered(g, k, last); }
      assert g[k].Meets(lo, hi);
    }
  }

  /** The sectors meeting a range are consecutive: together they are one span. */
  lemma SpanErased(g: Geometry, lo: nat, hi: nat, first: nat, last: nat)
    requires Tiles(g) && first <= last < |g|
    requires g[first].start <= lo < g[first].End() && g[last].start < hi <= g[last].End()
    ensures forall a: nat :: InErasedSector(g, a, lo, hi) <==> g[first].start <= a < g[last].End()
  {
    SpanHit(g, lo, hi, first, last);
    forall a: nat | InErasedSector(g, a, lo, hi) ensures g[first].start <= a < g[last].End() {
      var k :| 0 <= k < |g| && g[k].start <= a < g[k].End() && g[k].Meets(lo, hi);
      if k < first { SectorsOrdered(g, k, first); }
      if first < k { SectorsOrdered(g, first, k); }
      if last < k { SectorsOrdered(g, last, k); }
      if k < last { SectorsOrdered(g, k, last); }
    }
  }

  lemma ErasedIsSpan(g: Geometry, before: Memory, after: Memory, lo: nat, hi: nat, first: nat, last: nat)
    requires Tiles(g) && first <= last < |g|
    requires g[first].start <= lo < g[first].End() && g[last].start < hi <= g[last].End()
    requires Filled(before, after, g[first].start - FLASH_BASE, g[last].End() - FLASH_BASE)
    ensures after == Erased(g, before, lo, hi)
  {
    SpanErased(g, lo, hi, first, last);
  }

  lemma TwoSectorsApart(g: Geometry, lo: nat, hi: nat, first: nat, j: nat)
    requires Tiles(g) && first < j < |g|
    requires g[first].start <= lo < g[first].End() && g[j].start < hi
    ensures !InOneSector(g, lo, hi)
  {
    forall k | 0 <= k < |g| ensures !(g[k].start <= lo && hi <= g[k].End()) {
      SectorsOrdered(g, first, j);
      if k < first { SectorsOrdered(g, k, first); }
      if first < k { SectorsOrdered(g, first, k); }
    }
  }

  // ----- Stretches of flash -----------------------------------------------------------

  /** A range of addresses inside the flash. */
  predicate InFlash(addr: int, n: nat) {
    FLASH_BASE <= addr && addr + n <= FLASH_BASE + FLASH_SIZE
  }

  function Stretch(mem: Memory, addr: int, n: nat): (s: seq<byte>)
    requires InFlash(addr, n)
    ensures |s| == n
  {
    mem[addr - FLASH_BASE..addr - FLASH_BASE + n]
  }

  /** Only the `n` bytes at `addr` may differ. */
  ghost predicate WrittenOnly(before: Memory, after: Memory, addr: int, n: nat) {
    Within(before, after, addr - FLASH_BASE, addr - FLASH_BASE + n)
  }

  lemma WrittenFromWithin(a: Memory, b: Memory, addr: int, n: nat)
    requires Within(a, b, addr - FLASH_BASE, addr - FLASH_BASE + n)
    ensures WrittenOnly(a, b, addr, n)
  {
  }

  lemma NothingWritten(m: Memory, addr: int, n: nat)
    ensures WrittenOnly(m, m, addr, n)
  {
  }

  lemma WrittenTwice(a: Memory, b: Memory, c: Memory, addr: int, n: nat)
    requires WrittenOnly(a, b, addr, n) && WrittenOnly(b, c, addr, n)
    ensures WrittenOnly(a, c, addr, n)
  {
  }

  lemma WrittenGrows(a: Memory, b: Memory, addr: int, n: nat, addr': int, n': nat)
    requires WrittenOnly(a, b, addr, n) && addr' <= addr && addr + n <= addr' + n'
    ensures WrittenOnly(a, b, addr', n')
  {
  }

  /** Changes to one stretch leave every stretch apart from it alone. */
  lemma WrittenSpares(a: Memory, b: Memory, addr: int, n: nat, at: int, k: nat)
    requires WrittenOnly(a, b, addr, n) && InFlash(at, k) && (at + k <= addr || addr + n <= at)
    ensures Stretch(a, at, k) == Stretch(b, at, k)
  {
  }

  lemma SliceOfStretch(m: Memory, addr: int, n: nat, lo: nat, hi: nat)
    requires InFlash(addr, n) && lo <= hi <= n
    ensures Stretch(m, addr, n)[lo..hi] == m[addr - FLASH_BASE + lo..addr - FLASH_BASE + hi]
  {
    SliceOfSlice(m, addr - FLASH_BASE, n, lo, hi);
  }

  /** Writing just after a stretch extends it by the data. */
  lemma StretchGrows(m: Memory, addr: int, n: nat, data: seq<byte>)
    requires InFlash(addr, n + |data|)
    ensures Stretch(Splice(m, addr - FLASH_BASE + n, data), addr, n + |data|) == Stretch(m, addr, n) + data
  {
  }
}
