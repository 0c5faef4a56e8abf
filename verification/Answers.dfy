/**
 What the receiver answers, exactly: for each frame the condition under which it is
 acknowledged when the flash does not fail, and when the receive loop ends.
 */
module Answers {
  import opened Bytes
  import opened Layout
  import opened Flash
  import opened Crypto
  import opened BootConfig
  import opened Boot
  import opened Frame
  import opened OtaClient
  import Delta
  import DeltaScript
  import FirmwareImage
  import Sha256

  /** The frame is answered this way, and no flash operation has failed by then. */
  ghost predicate Answers(w: Platform, d: Device, f: Frame, d': Device, ok: bool) {
    SessionOk(d.session) && Handles(w, d, f, d', ok) && !d'.faulty
  }

  /** START is acknowledged if and only if it announces 512 bytes to 460 KB; otherwise nothing happens. */
  lemma StartAnswered(w: Platform, d: Device, f: Frame, d': Device, ok: bool)
    requires Answers(w, d, f, d', ok) && f.op == 0x21
    ensures ok <==> |f.data| >= 4 && 512 <= U32(f.data[0..4]) <= 471_040
    ensures !ok ==> d' == d
    ensures ok ==>
      var s, target, total := d'.session, Target(w, d.mem), U32(f.data[0..4]);
      && s.active && s.kind == Whole && s.slotAddr == target && s.total == total && s.written == 0
      && s.expectedSeq == (f.seqNo + 1) % 0x1_0000
      && d'.mem == Erased(w.g, d.mem, target, target + total) && d'.sram == d.sram
  {
    hide Target, Erased, OnlyErasedSectorsChange, U32, SessionOk, HandlesStartDelta, HandlesData, HandlesEnd;
  }

  /** Patch and new image fit the slot together, and the new one is at least a header. */
  predicate SizesFit(f: Frame) {
    && |f.data| >= 40
    && var patch, total := U32(f.data[0..4]), U32(f.data[4..8]);
      0 < patch && 512 <= total && patch + total <= 471_040
  }

  /** The running slot has an image, and it hashes to the digest in the frame. */
  predicate BaseHashes(running: Slot, digest: seq<byte>) {
    && running[..4] == [0xEF, 0xBE, 0xAD, 0xDE]
    && var total := (512 + U32(running[8..12])) % 0x1_0000_0000;
      total <= 471_040 && Sha256.Hash(running[..total]) == digest
  }

  predicate RunningHashes(w: Platform, mem: Memory, digest: seq<byte>) {
    BaseHashes(SlotAt(mem, Running(w, mem)), digest)
  }

  /** A session of this delta, out of the running slot into the other one. */
  predicate DeltaOpened(w: Platform, mem: Memory, f: Frame, s: Session)
    requires SizesFit(f)
  {
    && s.active && s.kind == Patch && s.total == U32(f.data[0..4]) && s.expectedNew == U32(f.data[4..8])
    && s.written == 0 && s.expectedSeq == (f.seqNo + 1) % 0x1_0000
    && s.slotAddr == Target(w, mem) && s.activeBase == Running(w, mem)
  }

  function TargetErased(w: Platform, mem: Memory): Memory {
    var target := Target(w, mem);
    Erased(w.g, mem, target, target + 471_040)
  }

  /** START_DELTA is acknowledged if and only if the sizes fit and the base has the digest. */
  lemma DeltaStartAnswered(w: Platform, d: Device, f: Frame, d': Device, ok: bool)
    requires Answers(w, d, f, d', ok) && f.op == 0x24
    ensures ok <==> SizesFit(f) && RunningHashes(w, d.mem, f.data[8..40])
    ensures !ok ==> d' == d
    ensures ok ==>
      && DeltaOpened(w, d.mem, f, d'.session) && d'.mem == TargetErased(w, d.mem) && d'.sram == d.sram
  {
    hide Target, Running, Erased, OnlyErasedSectorsChange, U32, SessionOk, SlotAt, Sha256.Hash;
    hide HandlesStart, HandlesData, HandlesEnd;
    DigestMeans(SlotAt(d.mem, Running(w, d.mem)));
    hide HasDigest, BaseHashes;
  }

  lemma DigestMeans(s: Slot)
    ensures forall digest :: HasDigest(s, digest) == BaseHashes(s, digest)
  {
    hide Sha256.Hash, U32;
    MagicBytes(s);
    assert s[8..12] == s[8..12];
  }

  /** DATA is acknowledged if and only if a session is open, it is the next one, and it fits; it stores its bytes. */
  lemma DataAnswered(w: Platform, d: Device, f: Frame, d': Device, ok: bool)
    requires Answers(w, d, f, d', ok) && f.op == 0x22
    ensures var s := d.session;
      ok <==> s.active && f.seqNo == s.expectedSeq && 0 < |f.data| && s.written + |f.data| <= s.total
    ensures !ok ==> d' == d
    ensures ok ==>
      var s := d.session;
      var at := (if s.kind == Whole then s.slotAddr else s.slotAddr + 471_040 - s.total) + s.written - FLASH_BASE;
      d' == d.(mem := Splice(d.mem, at, f.data),
               session := s.(written := s.written + |f.data|, expectedSeq := (s.expectedSeq + 1) % 0x1_0000))
  {
    hide Splice, HandlesStart, HandlesStartDelta, HandlesEnd;
  }

  /** The bytes in the slot are the image; for a delta, the base is there and the pure patch makes one. */
  predicate Built(w: Platform, d: Device)
    requires SessionOk(d.session) && d.session.active
  {
    var s := d.session;
    s.kind == Patch ==>
      && DeltaScript.BaseFound(SlotAt(d.mem, s.activeBase))
      && Delta.Patched(w.patcher, Delta.StoredPatch(d.mem, s.slotAddr, s.total),
                       Delta.OldImage(d.mem, s.activeBase), s.expectedNew).ok
  }

  /**
   END is acknowledged if and only if all bytes arrived, the patch if any made an image, and
   what then is in the slot verifies and is at or above the floor; the flag is raised with it.
   */
  lemma EndAnswered(w: Platform, d: Device, f: Frame, d': Device, ok: bool)
    requires Answers(w, d, f, d', ok) && f.op == 0x23
    requires d.session.active && d.session.kind == Patch ==> d.session.activeBase != d.session.slotAddr
    ensures var s := d.session;
      ok <==> (s.active && s.written == s.total && Built(w, d) && VerifySlot(w.trust, SlotAt(d'.mem, s.slotAddr))
               && FirmwareImage.Version(SlotAt(d'.mem, s.slotAddr)) >= Floor(Load(w.trust, d'.mem).cfg))
    ensures d'.session == d.session && d'.sram == if ok then Sram(0x5EAF_B001, 0, 1) else d.sram
    ensures d.session.kind == Whole ==> d'.mem == d.mem
  {
    hide Delta.Refines, WrittenOnly, VerifySlot, FirmwareImage.Version, Load, Floor, SlotAt, Delta.AnyFault, Built;
    hide HandlesStart, HandlesStartDelta, HandlesData;
    var s := d.session;
    if s.active && s.written == s.total {
      var applied, faults :| Reconstructs(w, d, d'.mem, applied, faults, d'.faulty)
        && ok == (applied && Acceptable(w, d'.mem, s.slotAddr)) && d'.sram == if ok then PENDING else d.sram;
      AppliedIffBuilt(w, d, d'.mem, applied, faults);
    }
  }

  lemma AppliedIffBuilt(w: Platform, d: Device, m: Memory, applied: bool, faults: seq<bool>)
    requires SessionOk(d.session) && d.session.active && Reconstructs(w, d, m, applied, faults, false)
    requires d.session.kind == Patch ==> d.session.activeBase != d.session.slotAddr
    ensures applied == Built(w, d)
  {
    hide WrittenOnly, Delta.Applied, Delta.Patched, DeltaScript.BaseFound, Delta.StoredPatch, Delta.OldImage, SlotAt;
    hide FirmwareImage.Magic, FirmwareImage.PayloadSize, Delta.LogicalTotal, Stretch;
    var s := d.session;
    if s.kind == Patch {
      DeltaScript.BaseByHeader(d.mem, s.activeBase, SlotAt(d.mem, s.activeBase));
    }
  }

  /** Any other opcode is refused and changes nothing. */
  lemma OthersAnswered(w: Platform, d: Device, f: Frame, d': Device, ok: bool)
    requires Answers(w, d, f, d', ok) && f.op != 0x21 && f.op != 0x22 && f.op != 0x23 && f.op != 0x24
    ensures !ok && d' == d
  {
    hide HandlesStart, HandlesStartDelta, HandlesData, HandlesEnd;
  }

  /** The bytes of an answer. */
  function AnswerBytes(ok: bool, seqNo: u16): seq<byte> {
    [if ok then 0x06 else 0x15, seqNo % 0x100, seqNo / 0x100]
  }

  /** What is sent back for what the reader returned: nothing on a timeout, and no for sequence number 0 on damage. */
  lemma ReplyExactly(s: seq<byte>, x: Pass)
    requires Concerns(x, ParseFrame(s))
    ensures match ParseFrame(s).frame
      case Some(f) => if f.op == 0x2F then Reply(x) == AnswerBytes(true, f.seqNo)
                      else x.Handled? && Reply(x) == AnswerBytes(x.e.ok, f.seqNo)
      case None => Reply(x) == if ParseFrame(s).status == FrameTimeout then [] else [0x15, 0, 0]
  {
    hide ParseFrame;
  }

  // ----- The receive loop -----------------------------------------------------------------------

  /** A frame was accepted in this pass. */
  predicate Went(x: Pass) {
    x.Handled? && x.e.ok
  }

  /** The sixteen passes before the `k`-th all failed. */
  predicate SixteenFailed(log: seq<Pass>, k: nat)
    requires k <= |log|
  {
    k >= 16 && forall i :: k - 16 <= i < k ==> !Went(log[i])
  }

  lemma {:induction false} ErrorsAtLeast(log: seq<Pass>, n: nat)
    ensures Errors(log) >= n <==> n <= |log| && forall i :: |log| - n <= i < |log| ==> !Went(log[i])
    decreases |log|
  {
    if log != [] && n > 0 {
      var rest := log[..|log| - 1];
      ErrorsAtLeast(rest, n - 1);
      if !Went(log[|log| - 1]) && n <= |log| {
        assert forall i :: |log| - n <= i < |rest| ==> rest[i] == log[i];
      }
    }
  }

  lemma SixteenErrors(log: seq<Pass>)
    ensures Errors(log) >= 16 <==> SixteenFailed(log, |log|)
  {
    hide Errors, Went;
    ErrorsAtLeast(log, 16);
  }

  lemma {:induction false} OngoingMeans(log: seq<Pass>)
    ensures Ongoing(log) <==>
      (forall k :: 0 <= k < |log| ==> !Final(log[k])) && (forall k :: 0 <= k < |log| ==> !SixteenFailed(log, k))
    decreases |log|
  {
    hide Errors, Final, SixteenFailed;
    if log != [] {
      var rest := log[..|log| - 1];
      OngoingMeans(rest);
      SixteenErrors(rest);
      assert forall k :: 0 <= k < |rest| ==> log[k] == rest[k];
      forall k | 0 <= k < |log| ensures SixteenFailed(log, k) == SixteenFailed(rest, k) {
        SameWindow(log, rest, k);
      }
    }
  }

  lemma SameWindow(log: seq<Pass>, rest: seq<Pass>, k: nat)
    requires k <= |rest| <= |log| && log[..|rest|] == rest
    ensures SixteenFailed(log, k) == SixteenFailed(rest, k)
  {
    hide Went;
    assert forall i :: 0 <= i < |rest| ==> log[i] == rest[i];
  }

  /**
   The call ends with the first accepted END or ABORT, or as soon as sixteen passes in a row
   have failed, whichever comes first; it reports success for the accepted END alone.
   */
  lemma EndsExactly(log: seq<Pass>, done: bool)
    ensures Ends(log, done) <==>
      && log != [] && (forall k :: 0 <= k < |log| - 1 ==> !Final(log[k]))
      && (forall k :: 0 <= k < |log| ==> !SixteenFailed(log, k))
      && var x := log[|log| - 1];
        if Final(x) then done == (x.Handled? && x.e.ok && x.e.frame.op == 0x23) else !done && SixteenFailed(log, |log|)
  {
    hide Errors, Ongoing, SixteenFailed;
    ErrorsStep(log);
    if log != [] {
      var rest := log[..|log| - 1];
      OngoingMeans(log);
      OngoingMeans(rest);
      SixteenErrors(rest);
      SixteenErrors(log);
      assert forall k :: 0 <= k < |rest| ==> log[k] == rest[k];
      forall k | 0 <= k < |log| ensures SixteenFailed(log, k) == SixteenFailed(rest, k) {
        SameWindow(log, rest, k);
      }
    }
  }

  lemma ErrorsStep(log: seq<Pass>)
    ensures if log == [] then Errors(log) == 0 else Errors(log) <= 1 + Errors(log[..|log| - 1])
  {
  }
}
