/**
 What every sequence of OTA frames keeps: the receiver writes only inside its slot, the
 stored bytes are the accepted payloads in order, the configuration and the running
 image stay as they are, and only an acceptable image raises the pending flag.
 */
module Transfers {
  import opened Bytes
  import opened Layout
  import opened Flash
  import opened BootConfig
  import opened Boot
  import opened Frame
  import opened OtaClient
  import BootRuns
  import Crypto
  import Delta
  import FirmwareImage

  // ----- Erasing spares other sectors ---------------------------------------------------

  /** Erasing part of a slot leaves alone whatever shares no sector with that slot. */
  lemma EraseSparesStretch(g: Geometry, a: Memory, b: Memory, addr: nat, n: nat, span: nat, at: nat, k: nat)
    requires n <= span && Separate(g, addr, addr + span, at, at + k) && InFlash(at, k)
    requires OnlyErasedSectorsChange(g, a, b, addr, addr + n)
    ensures Stretch(a, at, k) == Stretch(b, at, k)
  {
    var hi := addr + n;
    forall x: nat | at <= x < at + k ensures !InErasedSector(g, x, addr, hi) {
      forall j | 0 <= j < |g| && g[j].start <= x < g[j].End() ensures !g[j].Meets(addr, hi) {
        assert g[j].Meets(at, at + k);
      }
    }
  }

  lemma ErasedOnlyErases(g: Geometry, m: Memory, lo: nat, hi: nat)
    ensures OnlyErasedSectorsChange(g, m, Erased(g, m, lo, hi), lo, hi)
  {
  }

  /** The slot a frame can touch: the session's own, or the one a START picks. */
  function Touched(w: Platform, d: Device, f: Frame): u32 {
    if f.op == OP_START || f.op == OP_START_DELTA then Target(w, d.mem) else d.session.slotAddr
  }

  /** A frame changes nothing that shares no sector with the slot it touches. */
  lemma FrameSpares(w: Platform, d: Device, f: Frame, d': Device, ok: bool, at: nat, k: nat)
    requires SessionOk(d.session) && Handles(w, d, f, d', ok) && InFlash(at, k)
    requires var addr := Touched(w, d, f); Separate(w.g, addr, addr + SLOT_SIZE, at, at + k)
    requires var addr := Touched(w, d, f); at + k <= addr || addr + SLOT_SIZE <= at
    ensures Stretch(d.mem, at, k) == Stretch(d'.mem, at, k)
  {
    hide Target, Running, BaseMatches, Erased, OnlyErasedSectorsChange, Acceptable, Stretch, WrittenOnly, Separate, Splice;
    hide HandlesEnd, HandlesData;
    var addr := Touched(w, d, f);
    if f.op == OP_START && StartInRange(f) {
      var n := U32(f.data[0..4]);
      ErasedOnlyErases(w.g, d.mem, addr, addr + n);
      EraseSparesStretch(w.g, d.mem, d'.mem, addr, n, SLOT_SIZE, at, k);
    } else if f.op == OP_START_DELTA && d.mem != d'.mem {
      ErasedOnlyErases(w.g, d.mem, addr, addr + SLOT_SIZE);
      EraseSparesStretch(w.g, d.mem, d'.mem, addr, SLOT_SIZE, SLOT_SIZE, at, k);
    } else if (f.op == OP_DATA || f.op == OP_END) && d.session.active {
      ProgramsStayInSlot(w, d, f, d', ok);
      WrittenSpares(d.mem, d'.mem, addr, SLOT_SIZE, at, k);
    } else if f.op == OP_DATA || f.op == OP_END {
      IdleRejects(w, d, f, d', ok);
    }
  }

  lemma IdleRejects(w: Platform, d: Device, f: Frame, d': Device, ok: bool)
    requires SessionOk(d.session) && Handles(w, d, f, d', ok)
    requires !d.session.active && f.op != OP_START && f.op != OP_START_DELTA
    ensures !ok && d' == d
  {
    hide HandlesStart, HandlesStartDelta;
  }

  /** Outside of START, a frame programs only cells of the session's slot. */
  lemma ProgramsStayInSlot(w: Platform, d: Device, f: Frame, d': Device, ok: bool)
    requires SessionOk(d.session) && Handles(w, d, f, d', ok) && d.session.active
    requires f.op != OP_START && f.op != OP_START_DELTA
    ensures WrittenOnly(d.mem, d'.mem, d.session.slotAddr, SLOT_SIZE)
  {
    hide Handles, HandlesData, HandlesEnd, SessionOk, WrittenOnly;
    HandlesByOpcode(w, d, f, d', ok);
    if f.op == OP_DATA {
      DataStaysInSlot(d, f, d', ok);
    } else if f.op == OP_END {
      EndStaysInSlot(w, d, d', ok);
    } else {
      OtherRejected(w, d, f, d', ok);
      NothingWritten(d.mem, d.session.slotAddr, SLOT_SIZE);
    }
  }

  lemma DataStaysInSlot(d: Device, f: Frame, d': Device, ok: bool)
    requires SessionOk(d.session) && d.session.active && HandlesData(d, f, d', ok)
    ensures WrittenOnly(d.mem, d'.mem, d.session.slotAddr, SLOT_SIZE)
  {
    hide WrittenOnly, Splice;
    var s := d.session;
    NothingWritten(d.mem, s.slotAddr, SLOT_SIZE);
    if DataInSequence(s, f) {
      SpliceWrites(d.mem, Base(s) + s.written, f.data);
      WrittenGrows(d.mem, d'.mem, Base(s) + s.written, |f.data|, s.slotAddr, SLOT_SIZE);
    }
  }

  lemma EndStaysInSlot(w: Platform, d: Device, d': Device, ok: bool)
    requires SessionOk(d.session) && d.session.active && HandlesEnd(w, d, d', ok)
    ensures WrittenOnly(d.mem, d'.mem, d.session.slotAddr, SLOT_SIZE)
  {
    hide WrittenOnly, Acceptable, Delta.Refines, Delta.AnyFault;
    var s := d.session;
    NothingWritten(d.mem, s.slotAddr, SLOT_SIZE);
    if s.written == s.total && s.kind == Patch {
      WrittenGrows(d.mem, d'.mem, s.slotAddr, s.expectedNew, s.slotAddr, SLOT_SIZE);
    }
  }

  lemma SpliceWrites(m: Memory, addr: int, data: seq<byte>)
    requires InFlash(addr, |data|)
    ensures WrittenOnly(m, Splice(m, addr - FLASH_BASE, data), addr, |data|)
  {
  }

  // ----- The stored bytes --------------------------------------------------------------

  /** The bytes of the current transfer, as they lie in flash. */
  function Stored(d: Device): seq<byte>
    requires SessionOk(d.session) && d.session.active
  {
    Stretch(d.mem, Base(d.session), d.session.written)
  }

  /** An accepted DATA frame extends the stored bytes by exactly its payload; a rejected one keeps them. */
  lemma DataExtends(w: Platform, d: Device, f: Frame, d': Device, ok: bool)
    requires SessionOk(d.session) && Handles(w, d, f, d', ok) && f.op == OP_DATA && d.session.active
    ensures SessionOk(d'.session) && d'.session.active && d'.session.total == d.session.total
    ensures Base(d'.session) == Base(d.session)
    ensures Stored(d') == Stored(d) + (if ok then f.data else [])
  {
    hide Handles, Splice, WrittenOnly, Stretch;
    HandlesByOpcode(w, d, f, d', ok);
    var s := d.session;
    if ok {
      StretchGrows(d.mem, Base(s), s.written, f.data);
    } else if DataInSequence(s, f) {
      WrittenSpares(d.mem, d'.mem, Base(s) + s.written, |f.data|, Base(s), s.written);
    }
    assert Stored(d) + [] == Stored(d);
  }

  /** END, whatever becomes of it, leaves the transferred bytes where they are. */
  lemma EndKeepsStored(w: Platform, d: Device, f: Frame, d': Device, ok: bool)
    requires SessionOk(d.session) && Handles(w, d, f, d', ok) && f.op == OP_END && d.session.active
    ensures d'.session == d.session && Stored(d') == Stored(d)
  {
    hide Handles, WrittenOnly, Stretch, Acceptable, Delta.Refines, Delta.AnyFault;
    HandlesByOpcode(w, d, f, d', ok);
    var s := d.session;
    if s.written == s.total && s.kind == Patch {
      WrittenSpares(d.mem, d'.mem, s.slotAddr, s.expectedNew, Base(s), s.written);
    }
  }

  /** The payloads accepted since the last accepted START. */
  function Received(log: seq<Pass>): seq<byte>
    decreases |log|
  {
    if log == [] then []
    else
      var before, x := Received(log[..|log| - 1]), log[|log| - 1];
      if !x.Handled? || !x.e.ok then before
      else if x.e.frame.op == OP_START || x.e.frame.op == OP_START_DELTA then []
      else if x.e.frame.op == OP_DATA then before + x.e.frame.data
      else before
  }

  predicate IsStart(f: Frame) {
    f.op == OP_START || f.op == OP_START_DELTA
  }

  /** How many bytes at the inactive slot a START erases when it passes its checks; 0 when it does not. */
  function EraseLength(w: Platform, mem: Memory, f: Frame): (n: nat)
    ensures n <= SLOT_SIZE
  {
    if f.op == OP_START && StartInRange(f) then U32(f.data[0..4])
    else if f.op == OP_START_DELTA && DeltaInRange(f) && BaseMatches(mem, Running(w, mem), f.data[8..40]) then SLOT_SIZE
    else 0
  }

  /** Stored bytes of an open session lie in sectors that the START erases. */
  predicate Exposed(w: Platform, d: Device, f: Frame) {
    var s, target, n := d.session, Target(w, d.mem), EraseLength(w, d.mem, f);
    s.active && n > 0 && Hit(w.g, Base(s), s.written, target, target + n)
  }

  /** Some of the `k` bytes at `at` are in sectors that meet [lo, hi). */
  predicate Hit(g: Geometry, at: nat, k: nat, lo: nat, hi: nat) {
    exists a :: at <= a < at + k && InErasedSector(g, a, lo, hi)
  }

  /** A START that is rejected changed nothing, or what it erases does not reach the stored bytes. */
  predicate StartsHarmless(w: Platform, log: seq<Pass>) {
    forall i :: 0 <= i < |log| && log[i].Handled? && !log[i].e.ok && IsStart(log[i].e.frame) ==>
      log[i].e.after.mem == log[i].e.before.mem || !Exposed(w, log[i].e.before, log[i].e.frame)
  }

  /** In every state any sequence of frames leads to, the stored bytes are the accepted payloads in order. */
  lemma {:induction false} StoresWhatItAccepted(w: Platform, first: Device, log: seq<Pass>, last: Device)
    requires Follows(w, first, log, last) && StartsHarmless(w, log)
    ensures SessionOk(last.session)
    ensures last.session.active ==> Stored(last) == Received(log) && |Received(log)| == last.session.written
    decreases |log|
  {
    hide Handles, SessionOk, Base, Stored, Exposed;
    if log == [] {
      IdleOk();
    } else {
      var rest, x := log[..|log| - 1], log[|log| - 1];
      if x.Handled? {
        StoresWhatItAccepted(w, first, rest, x.e.before);
        StoredStep(w, x.e, Received(rest));
      } else {
        StoresWhatItAccepted(w, first, rest, last);
      }
    }
    if last.session.active { StoredLength(last); }
  }

  lemma IdleOk()
    ensures SessionOk(IDLE)
  {
  }

  lemma StoredLength(d: Device)
    requires SessionOk(d.session) && d.session.active
    ensures |Stored(d)| == d.session.written
  {
  }

  lemma StoredStep(w: Platform, e: Event, got: seq<byte>)
    requires SessionOk(e.before.session) && Handles(w, e.before, e.frame, e.after, e.ok)
    requires e.before.session.active ==> Stored(e.before) == got
    requires !e.ok && IsStart(e.frame) ==> e.after.mem == e.before.mem || !Exposed(w, e.before, e.frame)
    ensures SessionOk(e.after.session)
    ensures e.after.session.active ==>
      Stored(e.after) ==
        if !e.ok then got
        else if e.frame.op == OP_START || e.frame.op == OP_START_DELTA then []
        else if e.frame.op == OP_DATA then got + e.frame.data
        else got
  {
    hide Handles, Stored, SessionOk, Exposed;
    HandlesKeepsSession(w, e.before, e.frame, e.after, e.ok);
    if IsStart(e.frame) {
      StartStep(w, e);
      if !e.ok && e.before.session.active && !Exposed(w, e.before, e.frame) {
        UnexposedKeepsStored(w, e.before, e.frame, e.after);
      }
    } else if !e.before.session.active {
      IdleRejects(w, e.before, e.frame, e.after, e.ok);
    } else if e.frame.op == OP_DATA {
      DataExtends(w, e.before, e.frame, e.after, e.ok);
      assert got + [] == got;
    } else if e.frame.op == OP_END {
      EndKeepsStored(w, e.before, e.frame, e.after, e.ok);
    } else {
      OtherRejected(w, e.before, e.frame, e.after, e.ok);
    }
  }

  lemma StartStep(w: Platform, e: Event)
    requires SessionOk(e.before.session) && Handles(w, e.before, e.frame, e.after, e.ok) && SessionOk(e.after.session)
    requires e.frame.op == OP_START || e.frame.op == OP_START_DELTA
    ensures !e.ok ==> e.after.session == e.before.session
    ensures e.ok ==> e.after.session.active && Stored(e.after) == []
    ensures !e.ok && e.after.mem == e.before.mem && e.before.session.active ==> Stored(e.after) == Stored(e.before)
  {
    hide Handles, SessionOk, Stretch;
    StartSession(w, e.before, e.frame, e.after, e.ok);
    if e.ok { StoredLength(e.after); }
  }

  lemma StartSession(w: Platform, d: Device, f: Frame, d': Device, ok: bool)
    requires SessionOk(d.session) && Handles(w, d, f, d', ok) && (f.op == OP_START || f.op == OP_START_DELTA)
    ensures if ok then d'.session.active && d'.session.written == 0 else d'.session == d.session
  {
    hide Handles, SessionOk, Target, Running, BaseMatches, Erased, OnlyErasedSectorsChange, U32;
    HandlesByOpcode(w, d, f, d', ok);
  }

  lemma OtherRejected(w: Platform, d: Device, f: Frame, d': Device, ok: bool)
    requires SessionOk(d.session) && Handles(w, d, f, d', ok)
    requires f.op != OP_START && f.op != OP_START_DELTA && f.op != OP_DATA && f.op != OP_END
    ensures !ok && d' == d
  {
    hide HandlesStart, HandlesStartDelta, HandlesData, HandlesEnd;
  }

  /** The last accepted DATA frame, sent again while its session lasts, is rejected and changes nothing. */
  lemma RepeatRejected(w: Platform, d: Device, f: Frame, d': Device, again: Device, d'': Device, ok: bool)
    requires SessionOk(d.session) && Handles(w, d, f, d', true) && f.op == OP_DATA
    requires again.session == d'.session && SessionOk(again.session) && Handles(w, again, f, d'', ok)
    ensures !ok && d'' == again
  {
    hide Handles, Splice, WrittenOnly, HandlesStart, HandlesStartDelta, HandlesEnd, SessionOk;
    HandlesByOpcode(w, d, f, d', true);
    HandlesByOpcode(w, again, f, d'', ok);
  }

  // ----- A START that fails in its erase ------------------------------------------------------

  /** A rejected START changed only sectors that its erase reaches, if it got as far as erasing. */
  lemma RejectedStartChanges(w: Platform, d: Device, f: Frame, d': Device)
    requires SessionOk(d.session) && Handles(w, d, f, d', false) && IsStart(f)
    ensures var target, n := Target(w, d.mem), EraseLength(w, d.mem, f);
      if n == 0 then d' == d
      else d'.session == d.session && OnlyErasedSectorsChange(w.g, d.mem, d'.mem, target, target + n)
  {
    hide Handles, SessionOk, Target, EraseLength, HandlesStart, HandlesStartDelta, OnlyErasedSectorsChange;
    HandlesByOpcode(w, d, f, d', false);
    if f.op == OP_START { RejectedWhole(w, d, f, d'); } else { RejectedDelta(w, d, f, d'); }
  }

  lemma RejectedWhole(w: Platform, d: Device, f: Frame, d': Device)
    requires f.op == OP_START && HandlesStart(w, d, f, d', false)
    ensures var target, n := Target(w, d.mem), EraseLength(w, d.mem, f);
      if n == 0 then d' == d
      else d'.session == d.session && OnlyErasedSectorsChange(w.g, d.mem, d'.mem, target, target + n)
  {
    hide Target, OnlyErasedSectorsChange, U32, Erased, WholeSession;
  }

  lemma RejectedDelta(w: Platform, d: Device, f: Frame, d': Device)
    requires f.op == OP_START_DELTA && HandlesStartDelta(w, d, f, d', false)
    ensures var target, n := Target(w, d.mem), EraseLength(w, d.mem, f);
      if n == 0 then d' == d
      else d'.session == d.session && OnlyErasedSectorsChange(w.g, d.mem, d'.mem, target, target + n)
  {
    hide Target, Running, BaseMatches, OnlyErasedSectorsChange, U32, Erased, DeltaSession, DeltaInRange;
  }

  /** And any such change is possible: the controller can leave anything there and report a failure. */
  lemma RejectedStartPossible(w: Platform, d: Device, f: Frame, m: Memory)
    requires SessionOk(d.session) && IsStart(f) && EraseLength(w, d.mem, f) > 0
    requires var target, n := Target(w, d.mem), EraseLength(w, d.mem, f);
      OnlyErasedSectorsChange(w.g, d.mem, m, target, target + n)
    ensures Handles(w, d, f, Device(m, d.sram, d.session, true), false)
  {
    hide HandlesStart, HandlesStartDelta, SessionOk, Target, EraseLength, OnlyErasedSectorsChange;
    if f.op == OP_START { WholeStartMayFail(w, d, f, m); } else { DeltaStartMayFail(w, d, f, m); }
  }

  lemma WholeStartMayFail(w: Platform, d: Device, f: Frame, m: Memory)
    requires f.op == OP_START && EraseLength(w, d.mem, f) > 0
    requires var target, n := Target(w, d.mem), EraseLength(w, d.mem, f);
      OnlyErasedSectorsChange(w.g, d.mem, m, target, target + n)
    ensures HandlesStart(w, d, f, Device(m, d.sram, d.session, true), false)
  {
    hide Target, OnlyErasedSectorsChange, Erased, WholeSession, EraseLength, StartInRange;
    WholeStartLength(w, d.mem, f);
  }

  lemma WholeStartLength(w: Platform, mem: Memory, f: Frame)
    requires f.op == OP_START
    ensures StartInRange(f) <==> EraseLength(w, mem, f) > 0
    ensures StartInRange(f) ==> EraseLength(w, mem, f) == U32(f.data[0..4])
  {
    hide U32, BaseMatches, Running;
  }

  lemma DeltaStartMayFail(w: Platform, d: Device, f: Frame, m: Memory)
    requires f.op == OP_START_DELTA && EraseLength(w, d.mem, f) > 0
    requires var target, n := Target(w, d.mem), EraseLength(w, d.mem, f);
      OnlyErasedSectorsChange(w.g, d.mem, m, target, target + n)
    ensures HandlesStartDelta(w, d, f, Device(m, d.sram, d.session, true), false)
  {
    hide Target, Running, BaseMatches, OnlyErasedSectorsChange, U32, Erased, DeltaSession;
  }

  lemma StoredInFlash(s: Session)
    requires SessionOk(s) && s.active
    ensures InFlash(Base(s), s.written)
  {
  }

  lemma UnexposedKeepsStored(w: Platform, d: Device, f: Frame, d': Device)
    requires SessionOk(d.session) && d.session.active && Handles(w, d, f, d', false) && IsStart(f) && !Exposed(w, d, f)
    ensures d'.session == d.session && Stored(d') == Stored(d)
  {
    hide Handles, EraseLength, OnlyErasedSectorsChange, Hit, Target, Stretch, SessionOk, Base;
    StoredInFlash(d.session);
    RejectedStartChanges(w, d, f, d');
    var target, n := Target(w, d.mem), EraseLength(w, d.mem, f);
    if n > 0 { UnhitStays(w.g, d.mem, d'.mem, target, target + n, Base(d.session), d.session.written); }
  }

  lemma UnhitStays(g: Geometry, a: Memory, b: Memory, lo: nat, hi: nat, at: nat, k: nat)
    requires OnlyErasedSectorsChange(g, a, b, lo, hi) && InFlash(at, k) && !Hit(g, at, k, lo, hi)
    ensures Stretch(a, at, k) == Stretch(b, at, k)
  {
  }

  /** A change within the erased sectors that shows in the stretch. */
  lemma HitChanges(g: Geometry, a: Memory, lo: nat, hi: nat, at: nat, k: nat) returns (b: Memory)
    requires InFlash(at, k) && Hit(g, at, k, lo, hi)
    ensures OnlyErasedSectorsChange(g, a, b, lo, hi) && Stretch(a, at, k) != Stretch(b, at, k)
  {
    var x :| at <= x < at + k && InErasedSector(g, x, lo, hi);
    var i := x - FLASH_BASE;
    b := a[i := (a[i] as int + 1) % 0x100];
    assert Stretch(a, at, k)[x - at] == a[i] != b[i] == Stretch(b, at, k)[x - at];
  }

  /**
   Exactly when a rejected START is sure to leave an open session what it stored: when
   no stored byte lies in a sector that the START erases.
   */
  lemma RejectedStartKeepsStoredExactly(w: Platform, d: Device, f: Frame)
    requires SessionOk(d.session) && d.session.active && IsStart(f)
    ensures (forall d' :: Handles(w, d, f, d', false) ==> d'.session == d.session && Stored(d') == Stored(d))
      <==> !Exposed(w, d, f)
  {
    hide Handles, Stored, SessionOk;
    if Exposed(w, d, f) {
      var d' := LosingStart(w, d, f);
      assert Handles(w, d, f, d', false) && d'.session == d.session && Stored(d') != Stored(d);
    } else {
      forall d' | Handles(w, d, f, d', false) ensures d'.session == d.session && Stored(d') == Stored(d) {
        UnexposedKeepsStored(w, d, f, d');
      }
    }
  }

  lemma LosingStart(w: Platform, d: Device, f: Frame) returns (d': Device)
    requires SessionOk(d.session) && d.session.active && IsStart(f) && Exposed(w, d, f)
    ensures Handles(w, d, f, d', false) && d'.session == d.session && Stored(d') != Stored(d)
  {
    hide Handles, EraseLength, OnlyErasedSectorsChange, Hit, Target, Stretch, SessionOk, Base;
    StoredInFlash(d.session);
    var target, n := Target(w, d.mem), EraseLength(w, d.mem, f);
    var m := HitChanges(w.g, d.mem, target, target + n, Base(d.session), d.session.written);
    RejectedStartPossible(w, d, f, m);
    d' := Device(m, d.sram, d.session, true);
  }

  /** The same for a log: a rejected START can be what breaks it exactly when it is exposed. */
  lemma NextStartHarmlessExactly(w: Platform, first: Device, log: seq<Pass>, last: Device, f: Frame)
    requires Follows(w, first, log, last) && StartsHarmless(w, log) && last.session.active && IsStart(f)
    requires SessionOk(last.session)
    ensures (forall d' :: Follows(w, first, log + [Handled(Event(last, f, d', false))], d') ==>
        d'.session == last.session && Stored(d') == Received(log)) <==> !Exposed(w, last, f)
  {
    StoresWhatItAccepted(w, first, log, last);
    RejectedStartKeepsStoredExactly(w, last, f);
    hide Handles, Stored, SessionOk, Exposed;
    forall d'
      ensures Follows(w, first, log + [Handled(Event(last, f, d', false))], d') <==> Handles(w, last, f, d', false)
    {
      var longer := log + [Handled(Event(last, f, d', false))];
      assert longer[..|longer| - 1] == log;
    }
  }

  // ----- The configuration and the running image ------------------------------------------

  lemma FrameKeepsConfig(w: Platform, d: Device, f: Frame, d': Device, ok: bool)
    requires SessionOk(d.session) && Handles(w, d, f, d', ok)
    requires d.session.active || IsStart(f) ==> AwayFromConfig(w.g, Touched(w, d, f))
    ensures ConfigAt(d'.mem) == ConfigAt(d.mem)
  {
    hide Handles, Target;
    if !d.session.active && !IsStart(f) {
      IdleRejects(w, d, f, d', ok);
    } else {
      var addr := Touched(w, d, f);
      assert Delta.SlotBase(addr);
      SeparateSymmetric(w.g, CONFIG_ADDR, CONFIG_END, addr, addr + SLOT_SIZE);
      FrameSpares(w, d, f, d', ok, CONFIG_ADDR, CONFIG_BYTES);
    }
  }

  /** With both slots away from the configuration, no sequence of frames touches it, valid or not. */
  lemma {:induction false} TransfersKeepConfig(w: Platform, first: Device, log: seq<Pass>, last: Device)
    requires ConfigAway(w.g) && Follows(w, first, log, last)
    ensures ConfigAt(last.mem) == ConfigAt(first.mem)
    decreases |log|
  {
    hide Handles, AwayFromConfig, ConfigAt, Target;
    if log != [] {
      var rest, x := log[..|log| - 1], log[|log| - 1];
      if x.Handled? {
        TransfersKeepConfig(w, first, rest, x.e.before);
        FrameKeepsConfig(w, x.e.before, x.e.frame, x.e.after, x.e.ok);
      } else {
        TransfersKeepConfig(w, first, rest, last);
      }
    }
  }

  /** The session's slot is the inactive one of the configuration. */
  predicate OnTarget(w: Platform, d: Device) {
    d.session.active ==>
      && d.session.slotAddr == Target(w, d.mem)
      && (d.session.kind == Patch ==> d.session.activeBase == Running(w, d.mem))
  }

  /** The configuration is valid and the slot it makes inactive is away from it. */
  predicate TargetAway(w: Platform, mem: Memory) {
    Load(w.trust, mem).ok && AwayFromConfig(w.g, Target(w, mem))
  }

  /** The two slots are told apart, and erasing the inactive one spares the running one. */
  predicate RunningSpared(w: Platform, mem: Memory) {
    var a, b := Running(w, mem), Target(w, mem);
    BootRuns.WellFormed(Load(w.trust, mem).cfg) && Separate(w.g, b, b + SLOT_SIZE, a, a + SLOT_SIZE)
  }

  lemma SameConfigSameSlots(w: Platform, m: Memory, m': Memory)
    requires Load(w.trust, m).ok && ConfigAt(m) == ConfigAt(m')
    ensures Load(w.trust, m') == Load(w.trust, m) && Target(w, m') == Target(w, m) && Running(w, m') == Running(w, m)
  {
    hide Load;
    BootRuns.LoadOfSameRecord(w.trust, m, m');
  }

  /**
   What it takes for a frame not to redirect a session, where erasing a slot may reach the
   configuration: both slots are away from it, or the record lies in one sector, so that
   an erase spares it or wipes it, and no flash operation has failed.
   */
  predicate Aimable(w: Platform, d: Device) {
    Load(w.trust, d.mem).ok && (ConfigAway(w.g) || (Tiles(w.g) && ConfigInOneSector(w.g) && !d.faulty))
  }

  /** An erase wipes a record that lies in one sector, or spares it. */
  lemma EraseSparesOrWipes(g: Geometry, mem: Memory, lo: nat, hi: nat)
    requires Tiles(g) && ConfigInOneSector(g)
    ensures var after := ConfigAt(Erased(g, mem, lo, hi)); after == ConfigAt(mem) || after == Fill(CONFIG_BYTES, 0xFF)
  {
    var k :| 0 <= k < |g| && g[k].start <= CONFIG_ADDR && CONFIG_END <= g[k].End();
    forall a: nat | CONFIG_ADDR <= a < CONFIG_END ensures InErasedSector(g, a, lo, hi) <==> g[k].Meets(lo, hi) {
      forall j | 0 <= j < |g| && g[j].start <= a < g[j].End() ensures j == k {
        if j < k { SectorsOrdered(g, j, k); }
        if k < j { SectorsOrdered(g, k, j); }
      }
    }
  }

  /** If the configuration is valid after a frame and no operation failed, the frame left it alone. */
  lemma ValidRecordWasSpared(w: Platform, d: Device, f: Frame, d': Device, ok: bool)
    requires SessionOk(d.session) && Handles(w, d, f, d', ok)
    requires Tiles(w.g) && ConfigInOneSector(w.g) && !d'.faulty && Load(w.trust, d'.mem).ok
    ensures !d.faulty && ConfigAt(d'.mem) == ConfigAt(d.mem)
  {
    hide Handles, Tiles, ConfigInOneSector, Load, ConfigAt, Target, EraseLength, Erased;
    FaultsStay(w, d, f, d', ok);
    if IsStart(f) && ok {
      AcceptedStartErases(w, d, f, d');
      EraseSparesOrWipes(w.g, d.mem, Target(w, d.mem), Target(w, d.mem) + EraseLength(w, d.mem, f));
      if ConfigAt(d'.mem) == Fill(CONFIG_BYTES, 0xFF) { BootRuns.WipedIsNotLoaded(w.trust, d'.mem); }
    } else if !IsStart(f) {
      ProgramsSpareConfig(w, d, f, d', ok);
    }
  }

  lemma ProgramsSpareConfig(w: Platform, d: Device, f: Frame, d': Device, ok: bool)
    requires SessionOk(d.session) && Handles(w, d, f, d', ok) && !IsStart(f)
    ensures ConfigAt(d'.mem) == ConfigAt(d.mem)
  {
    hide Handles, WrittenOnly;
    if d.session.active {
      ProgramsStayInSlot(w, d, f, d', ok);
      WrittenSpares(d.mem, d'.mem, d.session.slotAddr, SLOT_SIZE, CONFIG_ADDR, CONFIG_BYTES);
    } else {
      IdleRejects(w, d, f, d', ok);
    }
  }

  lemma FaultsStay(w: Platform, d: Device, f: Frame, d': Device, ok: bool)
    requires SessionOk(d.session) && Handles(w, d, f, d', ok)
    ensures d.faulty ==> d'.faulty
    ensures IsStart(f) && !ok && !d'.faulty ==> d' == d
  {
    hide Target, Running, BaseMatches, Erased, OnlyErasedSectorsChange, Acceptable, U32, WrittenOnly, Splice;
    hide Delta.Refines, Delta.AnyFault, SessionOk;
  }

  /** Whether a session's aim still counts can be told afterwards. */
  lemma AimableBackwards(w: Platform, d: Device, f: Frame, d': Device, ok: bool)
    requires SessionOk(d.session) && Handles(w, d, f, d', ok) && Aimable(w, d')
    ensures Aimable(w, d) && Load(w.trust, d'.mem) == Load(w.trust, d.mem) && (d.faulty ==> d'.faulty)
    ensures Target(w, d'.mem) == Target(w, d.mem) && Running(w, d'.mem) == Running(w, d.mem)
  {
    hide Handles, Load, AwayFromConfig, Tiles, ConfigInOneSector, Target, Running, ConfigAt;
    FaultsStay(w, d, f, d', ok);
    if ConfigAway(w.g) {
      FrameKeepsConfig(w, d, f, d', ok);
    } else {
      ValidRecordWasSpared(w, d, f, d', ok);
    }
    SameConfigSameSlots(w, d'.mem, d.mem);
  }

  /** With a valid configuration away from the inactive slot, a frame keeps both the configuration and the aim. */
  lemma FrameKeepsAim(w: Platform, d: Device, f: Frame, d': Device, ok: bool)
    requires SessionOk(d.session) && Handles(w, d, f, d', ok) && OnTarget(w, d) && TargetAway(w, d.mem)
    ensures ConfigAt(d'.mem) == ConfigAt(d.mem) && Load(w.trust, d'.mem) == Load(w.trust, d.mem) && OnTarget(w, d')
    ensures Target(w, d'.mem) == Target(w, d.mem) && Running(w, d'.mem) == Running(w, d.mem)
  {
    hide Handles, Load, Target, Running, SessionOk, AwayFromConfig, ConfigAt;
    assert d.session.active || IsStart(f) ==> Touched(w, d, f) == Target(w, d.mem);
    FrameKeepsConfig(w, d, f, d', ok);
    SameConfigSameSlots(w, d.mem, d'.mem);
    AimStep(w, d, f, d', ok);
  }

  /** And the running image, if erasing the inactive slot spares it. */
  lemma FrameKeepsRunning(w: Platform, d: Device, f: Frame, d': Device, ok: bool)
    requires SessionOk(d.session) && Handles(w, d, f, d', ok) && OnTarget(w, d) && RunningSpared(w, d.mem)
    ensures SlotAt(d'.mem, Running(w, d.mem)) == SlotAt(d.mem, Running(w, d.mem))
  {
    hide Handles, Load, Target, Running, Separate, SessionOk, BootRuns.WellFormed, SlotAt, Stretch;
    RunningApart(w, d.mem);
    SlotIsStretch(d'.mem, d.mem, Running(w, d.mem));
    FrameKeepsApart(w, d, f, d', ok, Running(w, d.mem), SLOT_SIZE);
  }

  lemma SlotIsStretch(m: Memory, m': Memory, addr: u32)
    requires Delta.SlotBase(addr)
    ensures Stretch(m, addr, SLOT_SIZE) == Stretch(m', addr, SLOT_SIZE) ==> SlotAt(m, addr) == SlotAt(m', addr)
  {
  }

  lemma RunningApart(w: Platform, m: Memory)
    requires BootRuns.WellFormed(Load(w.trust, m).cfg)
    ensures var a, b := Running(w, m), Target(w, m); a + SLOT_SIZE <= b || b + SLOT_SIZE <= a
  {
    hide Load;
  }

  /** In an isolated geometry a well-formed configuration spares the running slot. */
  lemma IsolatedSparesRunning(w: Platform, m: Memory)
    requires Isolated(w.g) && BootRuns.WellFormed(Load(w.trust, m).cfg)
    ensures RunningSpared(w, m) && AwayFromConfig(w.g, Target(w, m))
  {
    hide Load, Separate;
    SeparateSymmetric(w.g, SLOT_A_ADDR, SLOT_A_ADDR + SLOT_SIZE, SLOT_B_ADDR, SLOT_B_ADDR + SLOT_SIZE);
  }

  lemma AimStep(w: Platform, d: Device, f: Frame, d': Device, ok: bool)
    requires SessionOk(d.session) && Handles(w, d, f, d', ok) && OnTarget(w, d)
    requires Target(w, d'.mem) == Target(w, d.mem) && Running(w, d'.mem) == Running(w, d.mem)
    ensures OnTarget(w, d')
  {
    hide Target, Running, BaseMatches, Erased, OnlyErasedSectorsChange, Reconstructs, Acceptable, U32;
  }

  /**
   Whatever frames arrive, in whatever order: a valid configuration away from the
   inactive slot stays as it is, and an open session is aimed at that slot. The shipped
   part meets this when slot A is active.
   */
  lemma {:induction false} TransfersKeepAim(w: Platform, first: Device, log: seq<Pass>, last: Device)
    requires Follows(w, first, log, last) && TargetAway(w, first.mem)
    ensures ConfigAt(last.mem) == ConfigAt(first.mem) && Load(w.trust, last.mem) == Load(w.trust, first.mem)
    ensures Target(w, last.mem) == Target(w, first.mem) && Running(w, last.mem) == Running(w, first.mem)
    ensures OnTarget(w, last)
    decreases |log|
  {
    hide Handles, Load, OnTarget, Target, Running, ConfigAt, AwayFromConfig;
    if log == [] {
      assert OnTarget(w, last) by { IdleOnTarget(w, last); }
    } else {
      var rest, x := log[..|log| - 1], log[|log| - 1];
      if x.Handled? {
        TransfersKeepAim(w, first, rest, x.e.before);
        FrameKeepsAim(w, x.e.before, x.e.frame, x.e.after, x.e.ok);
      } else {
        TransfersKeepAim(w, first, rest, last);
      }
    }
  }

  /** And so does every range of the flash that shares no sector with that slot. */
  lemma {:induction false} TransfersKeepApart(w: Platform, first: Device, log: seq<Pass>, last: Device, at: nat, k: nat)
    requires Follows(w, first, log, last) && TargetAway(w, first.mem) && InFlash(at, k)
    requires var target := Target(w, first.mem);
      Separate(w.g, target, target + SLOT_SIZE, at, at + k) && (at + k <= target || target + SLOT_SIZE <= at)
    ensures Stretch(last.mem, at, k) == Stretch(first.mem, at, k)
    decreases |log|
  {
    hide Handles, Load, Target, Running, ConfigAt, AwayFromConfig, Separate, SessionOk, Stretch;
    if log != [] {
      var rest, x := log[..|log| - 1], log[|log| - 1];
      if x.Handled? {
        TransfersKeepApart(w, first, rest, x.e.before, at, k);
        TransfersKeepAim(w, first, rest, x.e.before);
        FrameKeepsApart(w, x.e.before, x.e.frame, x.e.after, x.e.ok, at, k);
      } else {
        TransfersKeepApart(w, first, rest, last, at, k);
      }
    }
  }

  lemma FrameKeepsApart(w: Platform, d: Device, f: Frame, d': Device, ok: bool, at: nat, k: nat)
    requires SessionOk(d.session) && Handles(w, d, f, d', ok) && OnTarget(w, d) && InFlash(at, k)
    requires var target := Target(w, d.mem);
      Separate(w.g, target, target + SLOT_SIZE, at, at + k) && (at + k <= target || target + SLOT_SIZE <= at)
    ensures Stretch(d'.mem, at, k) == Stretch(d.mem, at, k)
  {
    hide Handles, Target, Separate, SessionOk, Stretch;
    if !d.session.active && !IsStart(f) {
      IdleRejects(w, d, f, d', ok);
    } else {
      assert Touched(w, d, f) == Target(w, d.mem);
      FrameSpares(w, d, f, d', ok, at, k);
    }
  }

  /** In particular the slot it runs from, if erasing the inactive slot spares that. */
  lemma TransfersKeepRunning(w: Platform, first: Device, log: seq<Pass>, last: Device)
    requires Follows(w, first, log, last) && TargetAway(w, first.mem) && RunningSpared(w, first.mem)
    ensures SlotAt(last.mem, Running(w, first.mem)) == SlotAt(first.mem, Running(w, first.mem))
  {
    hide Follows, Load, Target, Running, AwayFromConfig, Separate, SlotAt, Stretch;
    RunningApart(w, first.mem);
    TransfersKeepApart(w, first, log, last, Running(w, first.mem), SLOT_SIZE);
    SlotIsStretch(last.mem, first.mem, Running(w, first.mem));
  }

  lemma IdleOnTarget(w: Platform, d: Device)
    requires d.session == IDLE
    ensures OnTarget(w, d)
  {
  }

  /** An accepted END somewhere in the log, with the image in its slot acceptable. */
  ghost predicate AcceptedEnd(w: Platform, log: seq<Pass>) {
    exists i :: 0 <= i < |log| && log[i].Handled? && log[i].e.ok && log[i].e.frame.op == OP_END
             && log[i].e.before.session.active && Delta.SlotBase(log[i].e.after.session.slotAddr)
             && Acceptable(w, log[i].e.after.mem, log[i].e.after.session.slotAddr)
  }

  /** The pending flag is raised by nothing but an END whose image verified and was permitted. */
  lemma {:induction false} PendingMeansAccepted(w: Platform, first: Device, log: seq<Pass>, last: Device)
    requires Follows(w, first, log, last)
    ensures last.sram == first.sram || (last.sram == PENDING && AcceptedEnd(w, log))
    decreases |log|
  {
    hide Handles, Acceptable;
    if log != [] {
      var rest, x := log[..|log| - 1], log[|log| - 1];
      var before := if x.Handled? then x.e.before else last;
      PendingMeansAccepted(w, first, rest, before);
      if AcceptedEnd(w, rest) {
        var i :| 0 <= i < |rest| && rest[i].Handled? && rest[i].e.ok && rest[i].e.frame.op == OP_END
                 && rest[i].e.before.session.active && Delta.SlotBase(rest[i].e.after.session.slotAddr)
                 && Acceptable(w, rest[i].e.after.mem, rest[i].e.after.session.slotAddr);
        assert log[i] == rest[i];
      }
      if x.Handled? { SramStep(w, x.e.before, x.e.frame, x.e.after, x.e.ok); }
    }
  }

  lemma SramStep(w: Platform, d: Device, f: Frame, d': Device, ok: bool)
    requires SessionOk(d.session) && Handles(w, d, f, d', ok)
    ensures d'.sram == d.sram ||
      (d'.sram == PENDING && ok && f.op == OP_END && d.session.active && Delta.SlotBase(d'.session.slotAddr)
       && Acceptable(w, d'.mem, d'.session.slotAddr))
  {
    hide Target, Running, BaseMatches, Erased, OnlyErasedSectorsChange, Reconstructs, Acceptable, U32;
  }

  /** A boot, any transfer into a slot away from the configuration, and a reset: the floor found then is no lower. */
  lemma TransferKeepsFloor(w: Platform, v: BootRuns.Visit, first: Device, log: seq<Pass>, last: Device, sram: Sram)
    requires Follows(w, first, log, last) && first.mem == BootRuns.Outcome(w.trust, w.g, v).mem
    requires AwayFromConfig(w.g, Target(w, first.mem))
    ensures BootRuns.Run(w.trust, w.g, [v, BootRuns.Visit(last.mem, sram)])
    ensures BootRuns.FloorFound(w.trust, v) <= BootRuns.FloorFound(w.trust, BootRuns.Visit(last.mem, sram))
  {
    hide BootStep, Load, Floor, AwayFromConfig, Target, ConfigAt, Follows;
    BootRuns.BootStepLoads(w.trust, w.g, v.mem, v.sram);
    TransfersKeepAim(w, first, log, last);
    BootRuns.FloorNeverDecreases(w.trust, w.g, [v, BootRuns.Visit(last.mem, sram)], 0, 1);
  }

  // ----- Deltas that erase their own base -------------------------------------------------------

  /** The header of a delta's base lies in a sector that its START erased. */
  predicate ErasesBase(g: Geometry, s: Session) {
    s.active && s.kind == Patch && InErasedSector(g, s.activeBase, s.slotAddr, s.slotAddr + SLOT_SIZE)
  }

  predicate BaseGone(g: Geometry, d: Device)
    requires SessionOk(d.session)
  {
    ErasesBase(g, d.session) ==> SlotAt(d.mem, d.session.activeBase)[0] == 0xFF
  }

  lemma BaseStaysGone(w: Platform, d: Device, f: Frame, d': Device, ok: bool)
    requires SessionOk(d.session) && Handles(w, d, f, d', ok) && !d'.faulty && BaseGone(w.g, d)
    ensures SessionOk(d'.session) && BaseGone(w.g, d')
  {
    hide Handles, SessionOk, SlotAt, InErasedSector;
    HandlesKeepsSession(w, d, f, d', ok);
    if IsStart(f) {
      if ok { StartErasesBase(w, d, f, d'); } else { FaultsStay(w, d, f, d', ok); }
    } else if !d.session.active {
      IdleRejects(w, d, f, d', ok);
    } else if f.op == OP_DATA {
      DataSparesHead(w, d, f, d', ok);
    } else if f.op == OP_END {
      EndWithoutBase(w, d, f, d', ok);
    } else {
      OtherRejected(w, d, f, d', ok);
    }
  }

  lemma StartErasesBase(w: Platform, d: Device, f: Frame, d': Device)
    requires SessionOk(d.session) && Handles(w, d, f, d', true) && IsStart(f)
    ensures SessionOk(d'.session) && BaseGone(w.g, d')
  {
    hide Handles, HandlesStart, SessionOk, Target, Running, Erased, BaseMatches, InErasedSector, DeltaInRange, SlotAt;
    HandlesKeepsSession(w, d, f, d', true);
    HandlesByOpcode(w, d, f, d', true);
    if f.op == OP_START {
      WholeStartIsWhole(w, d, f, d');
    } else {
      var base, target := Running(w, d.mem), Target(w, d.mem);
      SlotErased(w.g, d.mem, base, target, target + SLOT_SIZE);
    }
  }

  lemma WholeStartIsWhole(w: Platform, d: Device, f: Frame, d': Device)
    requires HandlesStart(w, d, f, d', true)
    ensures d'.session.kind == Whole
  {
    hide Target, Erased, OnlyErasedSectorsChange, U32;
  }

  /** The patch is stored behind the room for the new image. */
  lemma DataSparesHead(w: Platform, d: Device, f: Frame, d': Device, ok: bool)
    requires SessionOk(d.session) && Handles(w, d, f, d', ok) && d.session.active && f.op == OP_DATA && BaseGone(w.g, d)
    ensures SessionOk(d'.session) && BaseGone(w.g, d')
  {
    hide Handles, Splice, WrittenOnly, InErasedSector;
    HandlesByOpcode(w, d, f, d', ok);
    HandlesKeepsSession(w, d, f, d', ok);
    var s := d.session;
    if ErasesBase(w.g, s) && DataInSequence(s, f) {
      var at := Base(s) + s.written;
      if ok { SpliceWrites(d.mem, at, f.data); }
      WrittenSpares(d.mem, d'.mem, at, |f.data|, s.activeBase, 1);
      assert Stretch(d.mem, s.activeBase, 1)[0] == SlotAt(d.mem, s.activeBase)[0];
      assert Stretch(d'.mem, s.activeBase, 1)[0] == SlotAt(d'.mem, s.activeBase)[0];
    }
  }

  lemma EndWithoutBase(w: Platform, d: Device, f: Frame, d': Device, ok: bool)
    requires SessionOk(d.session) && Handles(w, d, f, d', ok) && d.session.active && f.op == OP_END && BaseGone(w.g, d)
    ensures d'.session == d.session && BaseGone(w.g, d') && (ErasesBase(w.g, d.session) ==> !ok && d'.mem == d.mem)
  {
    hide Handles, WrittenOnly, Acceptable, FirmwareImage.Magic, Delta.Applied, Delta.AnyFault, InErasedSector;
    HandlesByOpcode(w, d, f, d', ok);
    var s := d.session;
    if ErasesBase(w.g, s) { HeadErasedIsNotApplicable(d.mem, s.activeBase, s.total, s.expectedNew); }
  }

  lemma HeadErasedIsNotApplicable(m: Memory, addr: u32, patchTotal: nat, expectedNew: nat)
    requires Delta.SlotBase(addr) && SlotAt(m, addr)[0] == 0xFF
    ensures !Delta.Applicable(Stretch(m, addr, HEADER_SIZE), patchTotal, expectedNew)
  {
    var s, hdr := SlotAt(m, addr), Stretch(m, addr, HEADER_SIZE);
    SliceOfSlice(m, addr - FLASH_BASE, SLOT_SIZE, 0, HEADER_SIZE);
    SliceOfSlice(s, 0, HEADER_SIZE, 0, 4);
    assert hdr == s[0..HEADER_SIZE] && hdr[0..4] == s[0..4];
    if FirmwareImage.Magic(hdr) == FIRMWARE_MAGIC { BootRuns.MagicLowOctet(s); }
  }

  lemma {:induction false} BaseGoneAlways(w: Platform, first: Device, log: seq<Pass>, last: Device)
    requires Follows(w, first, log, last) && !last.faulty
    ensures SessionOk(last.session) && BaseGone(w.g, last)
    decreases |log|
  {
    hide Handles, SessionOk, BaseGone;
    if log == [] {
      IdleOk();
      assert BaseGone(w.g, last) by { IdleKeepsBase(w.g, last); }
    } else {
      var rest, x := log[..|log| - 1], log[|log| - 1];
      if x.Handled? {
        FaultsStay(w, x.e.before, x.e.frame, x.e.after, x.e.ok);
        BaseGoneAlways(w, first, rest, x.e.before);
        BaseStaysGone(w, x.e.before, x.e.frame, x.e.after, x.e.ok);
      } else {
        BaseGoneAlways(w, first, rest, last);
      }
    }
  }

  lemma IdleKeepsBase(g: Geometry, d: Device)
    requires d.session == IDLE
    ensures SessionOk(d.session) && BaseGone(g, d)
  {
  }

  /**
   Without flash failures a delta whose START erased the header of its own base is never
   accepted, and its END changes nothing, whatever frames came before it.
   */
  lemma DeltaWithoutBaseRejected(w: Platform, first: Device, log: seq<Pass>, d: Device, f: Frame, d': Device, ok: bool)
    requires Follows(w, first, log, d) && SessionOk(d.session) && !d.faulty && ErasesBase(w.g, d.session)
    requires Handles(w, d, f, d', ok) && f.op == OP_END
    ensures !ok && d'.mem == d.mem && d'.session == d.session
  {
    hide Handles, Follows, SessionOk, SlotAt, InErasedSector;
    BaseGoneAlways(w, first, log, d);
    EndWithoutBase(w, d, f, d', ok);
  }

  /**
   That is so when old and new slot coincide, as they do when the stored identifier is
   neither that of slot A nor that of slot B; and on the shipped part for every delta
   into slot A.
   */
  lemma WhoErasesItsBase(w: Platform, s: Session)
    requires SessionOk(s) && s.active && s.kind == Patch
    ensures Tiles(w.g) && s.activeBase == s.slotAddr ==> ErasesBase(w.g, s)
    ensures w.g == STM32F407 ==> (ErasesBase(w.g, s) <==> s.slotAddr == SLOT_A_ADDR || s.activeBase == SLOT_B_ADDR)
  {
    hide Tiles, InErasedSector;
    if Tiles(w.g) && s.activeBase == s.slotAddr { RangeErased(w.g, s.slotAddr, s.slotAddr + SLOT_SIZE, s.slotAddr); }
    if w.g == STM32F407 {
      ShippedTableTiles();
      RangeErased(w.g, s.slotAddr, s.slotAddr + SLOT_SIZE, s.slotAddr);
      ShippedSlotBEraseReach(SLOT_SIZE, 0);
      ShippedSlotAEraseHitsSlotB();
    }
  }

  // ----- What a START leaves of the image in the other slot -----------------------------------

  /** What erasing [lo, hi) makes of the content of the slot at `addr`. */
  function SlotAfterErase(g: Geometry, s: Crypto.Slot, addr: u32, lo: nat, hi: nat): (r: Crypto.Slot)
    ensures forall i :: 0 <= i < SLOT_SIZE ==> r[i] == if InErasedSector(g, addr + i, lo, hi) then 0xFF else s[i]
  {
    seq(SLOT_SIZE, i requires 0 <= i < SLOT_SIZE => if InErasedSector(g, addr + i, lo, hi) then 0xFF else s[i])
  }

  lemma SlotErased(g: Geometry, mem: Memory, addr: u32, lo: nat, hi: nat)
    requires Delta.SlotBase(addr)
    ensures SlotAt(Erased(g, mem, lo, hi), addr) == SlotAfterErase(g, SlotAt(mem, addr), addr, lo, hi)
  {
    var at, s, r := addr - FLASH_BASE, SlotAt(mem, addr), SlotAt(Erased(g, mem, lo, hi), addr);
    forall i | 0 <= i < SLOT_SIZE ensures r[i] == SlotAfterErase(g, s, addr, lo, hi)[i] {
      assert r[i] == Erased(g, mem, lo, hi)[at + i] && s[i] == mem[at + i];
    }
  }

  /** The bytes that an image of `n` bytes consists of: its own, and the header fields that say so. */
  predicate ImageByte(i: nat, n: nat) {
    i < n || i < 4 || 8 <= i < 12
  }

  /** Of an image of `n` bytes, erasing [lo, hi) reaches only bytes that read as erased anyway. */
  predicate ImageSpared(g: Geometry, s: Crypto.Slot, addr: u32, n: nat, lo: nat, hi: nat) {
    forall i :: 0 <= i < SLOT_SIZE && ImageByte(i, n) && InErasedSector(g, addr + i, lo, hi) ==> s[i] == 0xFF
  }

  lemma SeparateSparesImage(g: Geometry, s: Crypto.Slot, addr: u32, n: nat, lo: nat, hi: nat)
    requires Separate(g, lo, hi, addr, addr + SLOT_SIZE)
    ensures ImageSpared(g, s, addr, n, lo, hi)
  {
  }

  predicate SameOnImage(s: Crypto.Slot, r: Crypto.Slot, n: nat) {
    forall i :: 0 <= i < SLOT_SIZE && ImageByte(i, n) ==> r[i] == s[i]
  }

  lemma SameOnImageSlices(s: Crypto.Slot, r: Crypto.Slot, n: nat)
    requires n <= SLOT_SIZE
    ensures SameOnImage(s, r, n) <==> s[0..4] == r[0..4] && s[8..12] == r[8..12] && s[..n] == r[..n]
  {
    if s[0..4] == r[0..4] && s[8..12] == r[8..12] && s[..n] == r[..n] {
      forall i | 0 <= i < SLOT_SIZE && ImageByte(i, n) ensures r[i] == s[i] {
        if i < n {
          assert s[i] == s[..n][i] && r[i] == r[..n][i];
        } else if i < 4 {
          assert s[i] == s[0..4][i] && r[i] == r[0..4][i];
        } else {
          assert s[i] == s[8..12][i - 8] && r[i] == r[8..12][i - 8];
        }
      }
    }
  }

  /** Two slots that agree on its bytes hold the same image, and conversely. */
  lemma SameImageExactly(s: Crypto.Slot, r: Crypto.Slot)
    requires Delta.BaseRegion(s).Some?
    ensures Delta.BaseRegion(r) == Delta.BaseRegion(s) <==> SameOnImage(s, r, |Delta.BaseRegion(s).value|)
  {
    hide SameOnImage, FirmwareImage.Magic, Delta.LogicalTotal;
    SameOnImageSlices(s, r, |Delta.BaseRegion(s).value|);
    SameHeaderFields(s, r);
  }

  /** The magic and the size field are equal as numbers exactly when they are equal as bytes. */
  lemma SameHeaderFields(s: Crypto.Slot, r: Crypto.Slot)
    ensures FirmwareImage.Magic(s) == FirmwareImage.Magic(r) <==> s[0..4] == r[0..4]
    ensures Delta.LogicalTotal(s) == Delta.LogicalTotal(r) <==> s[8..12] == r[8..12]
  {
    hide U32, Le32;
    U32RoundTrip(s[0..4]);
    U32RoundTrip(r[0..4]);
    U32RoundTrip(s[8..12]);
    U32RoundTrip(r[8..12]);
    RoomForHeader(FirmwareImage.PayloadSize(s), FirmwareImage.PayloadSize(r));
  }

  lemma RoomForHeader(m: u32, n: u32)
    ensures (HEADER_SIZE + m) % 0x1_0000_0000 == (HEADER_SIZE + n) % 0x1_0000_0000 <==> m == n
  {
  }

  /**
   An accepted START, of either kind, leaves the image in a slot as it is exactly when its
   erase reaches only bytes of the image that were 0xFF before.
   */
  lemma StartKeepsImageExactly(w: Platform, d: Device, f: Frame, d': Device, addr: u32)
    requires SessionOk(d.session) && Handles(w, d, f, d', true) && IsStart(f)
    requires Delta.SlotBase(addr) && Delta.BaseRegion(SlotAt(d.mem, addr)).Some?
    ensures var s, target := SlotAt(d.mem, addr), Target(w, d.mem);
      Delta.BaseRegion(SlotAt(d'.mem, addr)) == Delta.BaseRegion(s) <==>
        ImageSpared(w.g, s, addr, |Delta.BaseRegion(s).value|, target, target + EraseLength(w, d.mem, f))
  {
    hide Handles, Target, EraseLength, Erased, SlotAt, Delta.BaseRegion;
    AcceptedStartErases(w, d, f, d');
    var s, target, n := SlotAt(d.mem, addr), Target(w, d.mem), EraseLength(w, d.mem, f);
    SlotErased(w.g, d.mem, addr, target, target + n);
    SameImageExactly(s, SlotAfterErase(w.g, s, addr, target, target + n));
  }

  // ----- Frames that are accepted ---------------------------------------------------------------

  /** A START of `n` bytes is accepted when its erase succeeds. */
  lemma StartAccepted(w: Platform, d: Device, n: u32) returns (f: Frame, d': Device)
    requires HEADER_SIZE <= n <= SLOT_SIZE && SessionOk(d.session)
    ensures f.op == OP_START && |f.data| <= MAX_DATA && Handles(w, d, f, d', true) && d'.faulty == d.faulty
    ensures d'.mem == Erased(w.g, d.mem, Target(w, d.mem), Target(w, d.mem) + n)
    ensures SessionOk(d'.session) && d'.session.active && d'.session.kind == Whole
    ensures d'.session.slotAddr == Target(w, d.mem) && d'.session.total == n && d'.session.written == 0
  {
    hide Target, Erased, Begins, WholeSession, StartInRange, SessionOk, Handles;
    f := StartOf(n);
    var addr := Target(w, d.mem);
    d' := Begun(w, d, addr, n, WholeSession(d.session, f, addr));
    WholeHandled(w, d, f, d');
    WholeOpens(d.session, f, addr, n);
  }

  /** A START that announces `n` bytes. */
  lemma StartOf(n: u32) returns (f: Frame)
    requires HEADER_SIZE <= n <= SLOT_SIZE
    ensures f.op == OP_START && |f.data| == 4 && StartInRange(f) && U32(f.data[0..4]) == n
  {
    hide Le32, U32;
    Le32RoundTrip(n);
    f := Frame(OP_START, 1, Le32(n));
    assert f.data[0..4] == Le32(n);
  }

  /** The erase of a START, when it succeeds. */
  lemma Begun(w: Platform, d: Device, addr: u32, n: nat, s: Session) returns (d': Device)
    requires Delta.SlotBase(addr)
    ensures Begins(w, d, d', true, addr, n, s)
    ensures d' == d.(mem := Erased(w.g, d.mem, addr, addr + n), session := s)
  {
    hide Erased, OnlyErasedSectorsChange;
    d' := d.(mem := Erased(w.g, d.mem, addr, addr + n), session := s);
  }

  lemma WholeHandled(w: Platform, d: Device, f: Frame, d': Device)
    requires SessionOk(d.session) && f.op == OP_START && StartInRange(f)
    requires Begins(w, d, d', true, Target(w, d.mem), U32(f.data[0..4]), WholeSession(d.session, f, Target(w, d.mem)))
    ensures Handles(w, d, f, d', true)
  {
    hide Target, Begins, WholeSession, StartInRange, SessionOk, U32;
    assert HandlesStart(w, d, f, d', true);
    hide HandlesStart;
  }

  lemma WholeOpens(s: Session, f: Frame, addr: u32, n: u32)
    requires StartInRange(f) && U32(f.data[0..4]) == n && Delta.SlotBase(addr)
    ensures var o := WholeSession(s, f, addr);
      && SessionOk(o) && o.active && o.kind == Whole && o.slotAddr == addr && o.total == n && o.written == 0
  {
    hide U32;
  }

  /** A chunk in sequence is accepted when it is programmed. */
  lemma ChunkAccepted(w: Platform, d: Device, data: seq<byte>) returns (f: Frame, d': Device)
    requires SessionOk(d.session) && d.session.active && d.session.kind == Whole
    requires data != [] && d.session.written + |data| <= d.session.total
    ensures f == Frame(OP_DATA, d.session.expectedSeq, data) && Handles(w, d, f, d', true) && d'.faulty == d.faulty
    ensures d'.mem == Splice(d.mem, Base(d.session) + d.session.written - FLASH_BASE, data)
    ensures d'.session.active && d'.session.kind == Whole && d'.session.slotAddr == d.session.slotAddr
    ensures d'.session.total == d.session.total && d'.session.written == d.session.written + |data|
  {
    hide Splice, HandlesStart, HandlesStartDelta, HandlesEnd;
    var s := d.session;
    f := Frame(OP_DATA, s.expectedSeq, data);
    d' := Device(Splice(d.mem, Base(s) + s.written - FLASH_BASE, data), d.sram,
                 s.(written := s.written + |data|, expectedSeq := NextSeq(s.expectedSeq)), d.faulty);
  }

  /** The END of a complete image is accepted when that verifies and is permitted. */
  lemma EndAccepted(w: Platform, d: Device, f: Frame) returns (d': Device)
    requires SessionOk(d.session) && d.session.active && d.session.kind == Whole && d.session.written == d.session.total
    requires Acceptable(w, d.mem, d.session.slotAddr) && f.op == OP_END
    ensures Handles(w, d, f, d', true) && d' == d.(sram := PENDING)
  {
    hide Acceptable, SessionOk, Reconstructs, HandlesStart, HandlesStartDelta, HandlesData;
    d' := d.(sram := PENDING);
    NothingToReconstruct(w, d);
    assert HandlesEnd(w, d, d', true);
    hide HandlesEnd;
  }

  lemma NothingToReconstruct(w: Platform, d: Device)
    requires SessionOk(d.session) && d.session.active && d.session.kind == Whole
    ensures Reconstructs(w, d, d.mem, true, [], d.faulty)
  {
    hide SessionOk;
  }

  // ----- The shipped sector table -----------------------------------------------------------

  lemma AcceptedStartErases(w: Platform, d: Device, f: Frame, d': Device)
    requires SessionOk(d.session) && Handles(w, d, f, d', true) && IsStart(f)
    ensures EraseLength(w, d.mem, f) > 0
    ensures d'.mem == Erased(w.g, d.mem, Target(w, d.mem), Target(w, d.mem) + EraseLength(w, d.mem, f))
  {
    hide HandlesStart, HandlesStartDelta, HandlesData, HandlesEnd, EraseLength, SessionOk, Target, Erased;
    HandlesByOpcode(w, d, f, d', true);
    if f.op == OP_START { WholeStartErases(w, d, f, d'); } else { DeltaStartErases(w, d, f, d'); }
  }

  lemma WholeStartErases(w: Platform, d: Device, f: Frame, d': Device)
    requires HandlesStart(w, d, f, d', true) && f.op == OP_START
    ensures EraseLength(w, d.mem, f) > 0
    ensures d'.mem == Erased(w.g, d.mem, Target(w, d.mem), Target(w, d.mem) + EraseLength(w, d.mem, f))
  {
    hide Target, Erased, OnlyErasedSectorsChange, WholeSession, EraseLength, StartInRange;
    WholeStartLength(w, d.mem, f);
  }

  lemma DeltaStartErases(w: Platform, d: Device, f: Frame, d': Device)
    requires HandlesStartDelta(w, d, f, d', true) && f.op == OP_START_DELTA
    ensures EraseLength(w, d.mem, f) > 0
    ensures d'.mem == Erased(w.g, d.mem, Target(w, d.mem), Target(w, d.mem) + EraseLength(w, d.mem, f))
  {
    hide Target, Running, BaseMatches, Erased, OnlyErasedSectorsChange, U32, DeltaSession;
  }

  /**
   With the shipped table the hypothesis fails for slot A: any START into it that is
   accepted erases the stored configuration, and with it the floor, up to what recovery
   finds in slot B.
   */
  lemma ShippedStartIntoSlotALosesFloor(w: Platform, d: Device, f: Frame, d': Device, sram: Sram)
    requires w.g == STM32F407 && SessionOk(d.session) && Handles(w, d, f, d', true) && IsStart(f)
    requires Target(w, d.mem) == SLOT_A_ADDR
    ensures var b := BankAt(w.trust, d.mem, SLOT_B_ADDR);
      && ConfigAt(d'.mem) == Fill(CONFIG_BYTES, 0xFF)
      && BootRuns.FloorFound(w.trust, BootRuns.Visit(d'.mem, sram)) ==
           if EraseLength(w, d.mem, f) <= SLOT_A_REACH && b.ok then FloorOf(b.version) else 0
  {
    hide Handles, SessionOk, Target, EraseLength, Erased, Load, Floor, BankAt, ConfigAt;
    AcceptedStartErases(w, d, f, d');
    BootRuns.ShippedEraseOfSlotALosesFloor(w.trust, d.mem, EraseLength(w, d.mem, f));
  }

  /** What an image of `n` bytes has in the last 16 KB of its slot is 0xFF, if it reaches that far. */
  predicate TailBlank(s: Crypto.Slot, n: nat) {
    forall i :: SLOT_A_REACH <= i < SLOT_SIZE && i < n ==> s[i] == 0xFF
  }

  lemma ShippedImageSpared(s: Crypto.Slot, n: nat, k: nat)
    requires 0 < k <= SLOT_SIZE
    ensures ImageSpared(STM32F407, s, SLOT_A_ADDR, n, SLOT_B_ADDR, SLOT_B_ADDR + k) <==> TailBlank(s, n)
  {
    hide InErasedSector;
    var hi := SLOT_B_ADDR + k;
    forall i: nat | i < SLOT_SIZE && ImageByte(i, n)
      ensures InErasedSector(STM32F407, SLOT_A_ADDR + i, SLOT_B_ADDR, hi) <==> i >= SLOT_A_REACH
    {
      ShippedSlotBEraseReach(k, i);
    }
    if ImageSpared(STM32F407, s, SLOT_A_ADDR, n, SLOT_B_ADDR, hi) {
      forall i | SLOT_A_REACH <= i < SLOT_SIZE && i < n ensures s[i] == 0xFF { assert ImageByte(i, n); }
    }
  }

  /**
   With the shipped table, an accepted START into slot B leaves the image in slot A, the
   base of a delta, as it is exactly when that image ends before the last 16 KB of its
   slot, or what it has there is 0xFF.
   */
  lemma ShippedStartIntoSlotBKeepsImage(w: Platform, d: Device, f: Frame, d': Device)
    requires w.g == STM32F407 && SessionOk(d.session) && Handles(w, d, f, d', true) && IsStart(f)
    requires Target(w, d.mem) == SLOT_B_ADDR && Delta.BaseRegion(SlotAt(d.mem, SLOT_A_ADDR)).Some?
    ensures var s := SlotAt(d.mem, SLOT_A_ADDR);
      Delta.BaseRegion(SlotAt(d'.mem, SLOT_A_ADDR)) == Delta.BaseRegion(s) <==> TailBlank(s, |Delta.BaseRegion(s).value|)
  {
    hide Handles, Target, EraseLength, SlotAt, Erased, TailBlank, ImageSpared, Delta.BaseRegion;
    AcceptedStartErases(w, d, f, d');
    StartKeepsImageExactly(w, d, f, d', SLOT_A_ADDR);
    var s := SlotAt(d.mem, SLOT_A_ADDR);
    ShippedImageSpared(s, |Delta.BaseRegion(s).value|, EraseLength(w, d.mem, f));
  }

  /** Whatever frames arrive while slot A is the active one, its first 444 KB stay as they are. */
  lemma ShippedTransfersKeepHeadOfSlotA(w: Platform, first: Device, log: seq<Pass>, last: Device)
    requires w.g == STM32F407 && Follows(w, first, log, last)
    requires Load(w.trust, first.mem).ok && Target(w, first.mem) == SLOT_B_ADDR
    ensures Stretch(last.mem, SLOT_A_ADDR, SLOT_A_REACH) == Stretch(first.mem, SLOT_A_ADDR, SLOT_A_REACH)
  {
    hide Follows, Load, Target, AwayFromConfig, Separate, Stretch;
    ShippedSlotBAwayFromConfig();
    ShippedSlotBApartFromHead();
    TransfersKeepApart(w, first, log, last, SLOT_A_ADDR, SLOT_A_REACH);
  }

  /**
   An accepted START into slot A leaves the image in slot B as it is exactly when it erases no more
   than 444 KB; a START_DELTA erases the whole slot, so it always destroys its own base.
   */
  lemma ShippedStartIntoSlotAKeepsImage(w: Platform, d: Device, f: Frame, d': Device)
    requires w.g == STM32F407 && SessionOk(d.session) && Handles(w, d, f, d', true) && IsStart(f)
    requires Target(w, d.mem) == SLOT_A_ADDR && Delta.BaseRegion(SlotAt(d.mem, SLOT_B_ADDR)).Some?
    ensures Delta.BaseRegion(SlotAt(d'.mem, SLOT_B_ADDR)) == Delta.BaseRegion(SlotAt(d.mem, SLOT_B_ADDR)) <==>
      EraseLength(w, d.mem, f) <= SLOT_A_REACH
    ensures f.op == OP_START_DELTA ==> Delta.BaseRegion(SlotAt(d'.mem, SLOT_B_ADDR)) == None
  {
    hide Handles, Target, Erased, SlotAt;
    AcceptedStartErases(w, d, f, d');
    var k := EraseLength(w, d.mem, f);
    ShippedSlotAEraseReach(d.mem, k);
    if k > SLOT_A_REACH { HeadErasedIsNoImage(SlotAt(d'.mem, SLOT_B_ADDR)); }
  }

  lemma HeadErasedIsNoImage(s: Crypto.Slot)
    requires s[0] == 0xFF
    ensures Delta.BaseRegion(s) == None
  {
    hide FirmwareImage.Magic, Delta.LogicalTotal;
    if FirmwareImage.Magic(s) == FIRMWARE_MAGIC { BootRuns.MagicLowOctet(s); }
  }
}
