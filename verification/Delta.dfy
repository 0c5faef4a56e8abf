/**
 The in-place delta: the old image, the patch in the tail of the inactive slot and the
 new image at its head lie in one flash. The patch library and the decompressor are a
 deterministic strategy that acts through the callbacks alone, in any order, for any
 number of steps; the refinement theorem compares it with the same strategy run on
 immutable copies of the patch and the old image.
 */
module Delta {
  import opened Bytes
  import opened Layout
  import opened Flash
  import opened FirmwareImage
  import opened Crypto
  import Sha256

  const TUZ_DICT_MAX: nat := 8 * 1024
  const HASH_CHUNK: nat := 512

  // ----- The hidden patcher -----------------------------------------------------------

  /** What a callback gave back. */
  datatype Reply = Data(bytes: seq<byte>) | Written | Failed

  /** A phase that can only read the patch stream before it reports. */
  datatype Probe<R> = Look(n: nat) | Report(result: R)

  datatype Action = ReadDiff(n: nat) | ReadOld(from: nat, n: nat) | WriteNew(data: seq<byte>) | Stop(ok: bool)

  datatype Compression = Plain | Tuz | Unsupported

  datatype Opening = Opening(ct: Compression, newSize: u32)

  /** Everything the library does, as a function of the replies it has seen so far. */
  datatype Patcher = Patcher(open: seq<Reply> -> Probe<Option<Opening>>, dictSize: seq<Reply> -> Probe<nat>,
                             tuzOpen: seq<Reply> -> Probe<bool>, next: seq<Reply> -> Action, limit: nat)

  // ----- The same patcher on immutable copies --------------------------------------------

  /** diff_stream_read on a byte string. */
  function DiffReply(patch: seq<byte>, pos: nat, n: nat): (r: Reply)
    requires pos <= |patch|
    ensures r.Data? ==> pos + |r.bytes| <= |patch| && r.bytes == patch[pos..pos + |r.bytes|]
  {
    if n == 0 then Data([])
    else if pos == |patch| then Failed
    else if n > |patch| - pos then Data(patch[pos..]) else Data(patch[pos..pos + n])
  }

  function Advance(pos: nat, r: Reply): nat {
    if r.Data? then pos + |r.bytes| else pos
  }

  function OldReply(oldImg: seq<byte>, from: nat, n: nat): Reply {
    if from > |oldImg| || n > |oldImg| - from then Failed else Data(oldImg[from..from + n])
  }

  datatype View = View(pos: nat, replies: seq<Reply>, output: seq<byte>, stopped: Option<bool>)

  function Start(): View {
    View(0, [], [], None)
  }

  function Probed<R>(patch: seq<byte>, s: seq<Reply> -> Probe<R>, v: View, limit: nat): (r: (Option<R>, View))
    requires v.pos <= |patch|
    ensures r.1.pos <= |patch| && r.1.output == v.output && r.1.stopped == v.stopped
    decreases limit
  {
    match s(v.replies)
    case Report(x) => (Some(x), v)
    case Look(n) =>
      if limit == 0 then (None, v)
      else
        var reply := DiffReply(patch, v.pos, n);
        Probed(patch, s, v.(pos := Advance(v.pos, reply), replies := v.replies + [reply]), limit - 1)
  }

  /** One step of the patch proper; `fault` says whether the flash fails a write. */
  function Step(p: Patcher, patch: seq<byte>, oldImg: seq<byte>, expected: nat, v: View, fault: bool): (r: View)
    requires v.pos <= |patch| && |v.output| <= expected
    ensures r.pos <= |patch| && |r.output| <= expected
  {
    if v.stopped.Some? then v
    else match p.next(v.replies)
      case Stop(ok) => v.(stopped := Some(ok))
      case ReadDiff(n) =>
        var reply := DiffReply(patch, v.pos, n);
        v.(pos := Advance(v.pos, reply), replies := v.replies + [reply])
      case ReadOld(from, n) => v.(replies := v.replies + [OldReply(oldImg, from, n)])
      case WriteNew(data) =>
        if fault || |data| > expected - |v.output| then v.(replies := v.replies + [Failed])
        else v.(replies := v.replies + [Written], output := v.output + data)
  }

  function Steps(p: Patcher, patch: seq<byte>, oldImg: seq<byte>, expected: nat, v: View, faults: seq<bool>): (r: View)
    requires v.pos <= |patch| && |v.output| <= expected
    ensures r.pos <= |patch| && |r.output| <= expected
    decreases |faults|
  {
    if faults == [] then v
    else
      var n := |faults| - 1;
      Step(p, patch, oldImg, expected, Steps(p, patch, oldImg, expected, v, faults[..n]), faults[n])
  }

  /** The phases before the patch proper: None when one of them rejects the patch. */
  function Opened(p: Patcher, patch: seq<byte>, expected: nat): (r: Option<View>)
    ensures r.Some? ==> r.value.pos <= |patch| && r.value.output == [] && r.value.stopped == None
  {
    var (opening, v) := Probed(patch, p.open, Start(), p.limit);
    if opening.None? || opening.value.None? || opening.value.value.newSize != expected then None
    else if opening.value.value.ct == Plain then Some(v)
    else if opening.value.value.ct != Tuz then None
    else
      var (dict, v1) := Probed(patch, p.dictSize, v, p.limit);
      if dict.None? || dict.value == 0 || dict.value > TUZ_DICT_MAX then None
      else
        var (tuz, v2) := Probed(patch, p.tuzOpen, v1, p.limit);
        if tuz == Some(true) then Some(v2) else None
  }

  datatype Outcome = Outcome(ok: bool, output: seq<byte>)

  /** What applying the patch to copies gives, when the flash fails the writes `faults` says. */
  function Applied(p: Patcher, patch: seq<byte>, oldImg: seq<byte>, expected: nat, faults: seq<bool>): (r: Outcome)
    ensures r.ok ==> |r.output| == expected
  {
    var start := Opened(p, patch, expected);
    if start.None? then Outcome(false, [])
    else
      var v := Steps(p, patch, oldImg, expected, start.value, faults);
      Outcome(v.stopped == Some(true) && |v.output| == expected, v.output)
  }

  predicate AnyFault(faults: seq<bool>) {
    exists i :: 0 <= i < |faults| && faults[i]
  }

  lemma AnyFaultAppend(faults: seq<bool>, fault: bool)
    ensures AnyFault(faults + [fault]) == (AnyFault(faults) || fault)
  {
    if AnyFault(faults) {
      var i :| 0 <= i < |faults| && faults[i];
      assert (faults + [fault])[i];
    }
    assert (faults + [fault])[|faults|] == fault;
  }

  function NoFaults(n: nat): (s: seq<bool>)
    ensures |s| == n && forall i :: 0 <= i < n ==> !s[i]
  {
    seq(n, i => false)
  }

  /** The pure patch: a flash on which every write succeeds. */
  function Patched(p: Patcher, patch: seq<byte>, oldImg: seq<byte>, expected: nat): Outcome {
    Applied(p, patch, oldImg, expected, NoFaults(p.limit))
  }

  lemma {:induction false} StoppedStays(p: Patcher, patch: seq<byte>, oldImg: seq<byte>, expected: nat, v: View,
                                        faults: seq<bool>, more: seq<bool>)
    requires v.pos <= |patch| && |v.output| <= expected
    requires Steps(p, patch, oldImg, expected, v, faults).stopped.Some?
    ensures Steps(p, patch, oldImg, expected, v, faults + more) == Steps(p, patch, oldImg, expected, v, faults)
    decreases |more|
  {
    if more == [] {
      assert faults + more == faults;
    } else {
      var n := |more| - 1;
      StoppedStays(p, patch, oldImg, expected, v, faults, more[..n]);
      assert (faults + more)[..|faults| + n] == faults + more[..n];
    }
  }

  /** A run that used up its steps or stopped, without a fault, is the pure patch. */
  lemma FaultFreeIsPatched(p: Patcher, patch: seq<byte>, oldImg: seq<byte>, expected: nat, faults: seq<bool>)
    requires |faults| <= p.limit && !AnyFault(faults)
    requires var o := Opened(p, patch, expected);
      o.Some? && |faults| < p.limit ==> Steps(p, patch, oldImg, expected, o.value, faults).stopped.Some?
    ensures Applied(p, patch, oldImg, expected, faults) == Patched(p, patch, oldImg, expected)
  {
    hide Opened, Step;
    var more := NoFaults(p.limit - |faults|);
    assert faults + more == NoFaults(p.limit);
    var o := Opened(p, patch, expected);
    if o.Some? {
      if |faults| < p.limit {
        StoppedStays(p, patch, oldImg, expected, o.value, faults, more);
      } else {
        assert faults == NoFaults(p.limit);
      }
    }
  }

  // ----- The callbacks over flash ---------------------------------------------------------

  predicate SlotBase(addr: u32) { addr == SLOT_A_ADDR || addr == SLOT_B_ADDR }

  /** The diff stream and the listener that the callbacks share. */
  class Listener {
    const nor: Nor
    const activeBase: u32
    const inactiveBase: u32
    const newExpected: nat
    const activeTotal: nat
    const streamLen: nat
    var pos: nat
    var newWritten: nat
    /** What the library has been told so far. */
    var replies: seq<Reply>

    ghost predicate Valid()
      reads this
    {
      && nor.Valid() && SlotBase(activeBase) && SlotBase(inactiveBase)
      && activeTotal <= SLOT_SIZE && newExpected + streamLen <= SLOT_SIZE
      && pos <= streamLen && newWritten <= newExpected
    }

    constructor (nor: Nor, activeBase: u32, inactiveBase: u32, newExpected: nat, activeTotal: nat, streamLen: nat)
      requires nor.Valid() && SlotBase(activeBase) && SlotBase(inactiveBase)
      requires activeTotal <= SLOT_SIZE && newExpected + streamLen <= SLOT_SIZE
      ensures Valid() && pos == 0 && newWritten == 0 && replies == []
      ensures this.nor == nor && this.activeBase == activeBase && this.inactiveBase == inactiveBase
      ensures this.newExpected == newExpected && this.activeTotal == activeTotal && this.streamLen == streamLen
    {
      this.nor, this.activeBase, this.inactiveBase := nor, activeBase, inactiveBase;
      this.newExpected, this.activeTotal, this.streamLen := newExpected, activeTotal, streamLen;
      pos, newWritten, replies := 0, 0, [];
    }

    /** Old and new image are in different slots. */
    predicate Apart() {
      activeBase != inactiveBase
    }

    function StreamBase(): int {
      inactiveBase + SLOT_SIZE - streamLen
    }

    ghost function Patch(): (s: seq<byte>)
      requires Valid()
      reads this, nor.cells
      ensures |s| == streamLen
    {
      Stretch(nor.Mem(), StreamBase(), streamLen)
    }

    ghost function Old(): (s: seq<byte>)
      requires Valid()
      reads this, nor.cells
      ensures |s| == activeTotal
    {
      Stretch(nor.Mem(), activeBase, activeTotal)
    }

    ghost function Output(): (s: seq<byte>)
      requires Valid()
      reads this, nor.cells
      ensures |s| == newWritten
    {
      Stretch(nor.Mem(), inactiveBase, newWritten)
    }

    /** The part of the flash a patch may change. */
    ghost predicate OnlyTarget(before: Memory)
      requires Valid()
      reads this, nor.cells
    {
      WrittenOnly(before, nor.Mem(), inactiveBase, newExpected)
    }

    /** diff_stream_read. */
    method DiffStreamRead(n: nat) returns (r: Reply)
      requires Valid()
      modifies this`pos
      ensures Valid() && r == DiffReply(Patch(), old(pos), n) && pos == Advance(old(pos), r)
    {
      if n == 0 {
        return Data([]);
      }
      var want := n;
      var rem := streamLen - pos;
      if want > rem {
        want := rem;
      }
      if want == 0 {
        return Failed;
      }
      var data := nor.Read(StreamBase() + pos, want);
      SliceOfStretch(nor.Mem(), StreamBase(), streamLen, pos, pos + want);
      pos := pos + want;
      r := Data(data);
    }

    /** read_old_cb. */
    method ReadOldCb(from: nat, n: nat) returns (r: Reply)
      requires Valid()
      ensures r == OldReply(Old(), from, n)
    {
      if from > activeTotal {
        return Failed;
      }
      if n > activeTotal - from {
        return Failed;
      }
      var data := nor.Read(activeBase + from, n);
      SliceOfStretch(nor.Mem(), activeBase, activeTotal, from, from + n);
      r := Data(data);
    }

    /** write_new_cb: it never reaches the patch tail or the old image. */
    method WriteNewCb(data: seq<byte>) returns (r: Reply, ghost fault: bool)
      requires Valid()
      modifies this`newWritten, nor, nor.cells
      ensures Valid() && OnlyTarget(old(nor.Mem()))
      ensures Patch() == old(Patch()) && (Apart() ==> Old() == old(Old()))
      ensures nor.faulty == (old(nor.faulty) || fault)
      ensures if fault || |data| > newExpected - old(newWritten) then r == Failed && Output() == old(Output())
              else r == Written && Output() == old(Output()) + data
    {
      hide Within, Splice, Snapshots, Stretch, WrittenOnly;
      ghost var before := nor.Mem();
      NothingWritten(before, inactiveBase, newExpected);
      if |data| > newExpected - newWritten {
        return Failed, false;
      }
      var s := nor.ProgramBytes(inactiveBase + newWritten, data);
      WrittenFromWithin(before, nor.Mem(), inactiveBase + newWritten, |data|);
      WrittenGrows(before, nor.Mem(), inactiveBase + newWritten, |data|, inactiveBase, newExpected);
      WrittenSpares(before, nor.Mem(), inactiveBase, newExpected, StreamBase(), streamLen);
      if Apart() { WrittenSpares(before, nor.Mem(), inactiveBase, newExpected, activeBase, activeTotal); }
      WrittenSpares(before, nor.Mem(), inactiveBase + newWritten, |data|, inactiveBase, newWritten);
      if s != Ok {
        return Failed, true;
      }
      StretchGrows(before, inactiveBase, newWritten, data);
      newWritten := newWritten + |data|;
      return Written, false;
    }

    ghost function Now(): View
      requires Valid()
      reads this, nor.cells
    {
      View(pos, replies, Output(), None)
    }

    /** A phase of the library that reads the patch stream until it reports. */
    method RunProbe<R>(s: seq<Reply> -> Probe<R>, limit: nat) returns (x: Option<R>)
      requires Valid()
      modifies this`pos, this`replies
      ensures Valid() && (x, Now()) == Probed(Patch(), s, old(Now()), limit)
    {
      var left := limit;
      while true
        invariant Valid()
        invariant Probed(Patch(), s, Now(), left) == Probed(Patch(), s, old(Now()), limit)
        decreases left
      {
        match s(replies) {
          case Report(result) => return Some(result);
          case Look(n) =>
            if left == 0 {
              return None;
            }
            var r := DiffStreamRead(n);
            replies := replies + [r];
            left := left - 1;
        }
      }
    }

    /** One move of the library in the patch proper. */
    method RunStep(p: Patcher) returns (stopped: Option<bool>, ghost fault: bool)
      requires Valid()
      modifies this`pos, this`newWritten, this`replies, nor, nor.cells
      ensures Valid() && OnlyTarget(old(nor.Mem()))
      ensures Patch() == old(Patch())
      ensures Apart() ==> Old() == old(Old())
      ensures nor.faulty == (old(nor.faulty) || fault)
      ensures Apart() ==> Now().(stopped := stopped) == Step(p, Patch(), Old(), newExpected, old(Now()), fault)
    {
      hide WrittenOnly, Stretch;
      NothingWritten(nor.Mem(), inactiveBase, newExpected);
      stopped, fault := None, false;
      match p.next(replies) {
        case Stop(ok) =>
          stopped := Some(ok);
        case ReadDiff(n) =>
          var r := DiffStreamRead(n);
          replies := replies + [r];
        case ReadOld(from, n) =>
          var r := ReadOldCb(from, n);
          replies := replies + [r];
        case WriteNew(data) =>
          var r;
          r, fault := WriteNewCb(data);
          replies := replies + [r];
      }
    }

    /** hpatch_lite_patch: the patch proper, until the library stops. */
    method RunPatcher(p: Patcher) returns (stopped: Option<bool>, ghost faults: seq<bool>)
      requires Valid()
      modifies this`pos, this`newWritten, this`replies, nor, nor.cells
      ensures Valid() && OnlyTarget(old(nor.Mem()))
      ensures Patch() == old(Patch()) && (Apart() ==> Old() == old(Old()))
      ensures nor.faulty == (old(nor.faulty) || AnyFault(faults))
      ensures |faults| <= p.limit && (stopped.None? ==> |faults| == p.limit)
      ensures Apart() ==> Now().(stopped := stopped) == Steps(p, Patch(), Old(), newExpected, old(Now()), faults)
    {
      hide WrittenOnly, Stretch, Step, AnyFault;
      NoneFaulty();
      faults := [];
      stopped := None;
      var left := p.limit;
      NothingWritten(nor.Mem(), inactiveBase, newExpected);
      while left > 0
        invariant Valid() && OnlyTarget(old(nor.Mem()))
        invariant Patch() == old(Patch()) && (Apart() ==> Old() == old(Old()))
        invariant nor.faulty == (old(nor.faulty) || AnyFault(faults))
        invariant stopped == None && |faults| == p.limit - left
        invariant Apart() ==> Now() == Steps(p, Patch(), Old(), newExpected, old(Now()), faults)
      {
        ghost var before := nor.Mem();
        ghost var fault;
        stopped, fault := RunStep(p);
        WrittenTwice(old(nor.Mem()), before, nor.Mem(), inactiveBase, newExpected);
        assert (faults + [fault])[..|faults|] == faults;
        AnyFaultAppend(faults, fault);
        faults := faults + [fault];
        left := left - 1;
        if stopped.Some? {
          return;
        }
      }
    }
  }

  // ----- Applying a patch ------------------------------------------------------------------

  /** Header plus payload by the stored size field, in 32-bit arithmetic. */
  function LogicalTotal(hdr: seq<byte>): u32
    requires |hdr| >= 20
  {
    (HEADER_SIZE + PayloadSize(hdr)) % 0x1_0000_0000
  }

  /** The checks before the patch is opened. */
  predicate Applicable(hdr: seq<byte>, patchTotal: nat, expectedNew: nat)
    requires |hdr| >= 20
  {
    && patchTotal != 0 && expectedNew != 0 && expectedNew + patchTotal <= SLOT_SIZE
    && Magic(hdr) == FIRMWARE_MAGIC && PayloadSize(hdr) != 0 && LogicalTotal(hdr) <= SLOT_SIZE
  }

  /** The patch as it lies in the tail of the inactive slot. */
  function StoredPatch(mem: Memory, inactiveBase: u32, patchTotal: nat): seq<byte>
    requires SlotBase(inactiveBase) && patchTotal <= SLOT_SIZE
  {
    Stretch(mem, inactiveBase + SLOT_SIZE - patchTotal, patchTotal)
  }

  function OldImage(mem: Memory, activeBase: u32): seq<byte>
    requires SlotBase(activeBase)
  {
    var hdr := Stretch(mem, activeBase, HEADER_SIZE);
    if LogicalTotal(hdr) <= SLOT_SIZE then Stretch(mem, activeBase, LogicalTotal(hdr)) else []
  }

  /** delta_run_patch, after hpatch_lite_open. */
  method RunPatch(l: Listener, p: Patcher, opening: Opening) returns (ok: bool, ghost faults: seq<bool>)
    requires l.Valid() && l.Output() == [] && opening.newSize == l.newExpected
    requires Probed(l.Patch(), p.open, Start(), p.limit) == (Some(Some(opening)), l.Now())
    modifies l, l.nor, l.nor.cells
    ensures l.nor.faulty == (old(l.nor.faulty) || AnyFault(faults))
    ensures l.Valid() && l.OnlyTarget(old(l.nor.Mem())) && |faults| <= p.limit
    ensures l.Apart() ==>
      var o := Applied(p, old(l.Patch()), old(l.Old()), l.newExpected, faults); ok == o.ok && l.Output() == o.output
    ensures var o := Opened(p, old(l.Patch()), l.newExpected);
      l.Apart() && o.Some? && |faults| < p.limit ==>
        Steps(p, old(l.Patch()), old(l.Old()), l.newExpected, o.value, faults).stopped.Some?
  {
    hide WrittenOnly, Stretch, Step, Probed, AnyFault;
    NoneFaulty();
    faults := [];
    ok := false;
    NothingWritten(l.nor.Mem(), l.inactiveBase, l.newExpected);
    if opening.ct == Tuz {
      var dict := l.RunProbe(p.dictSize, p.limit);
      if dict.None? || dict.value == 0 || dict.value > TUZ_DICT_MAX {
        return;
      }
      var ready := l.RunProbe(p.tuzOpen, p.limit);
      if ready != Some(true) {
        return;
      }
    } else if opening.ct != Plain {
      return;
    }
    assert Opened(p, l.Patch(), l.newExpected) == Some(l.Now());
    var stopped;
    stopped, faults := l.RunPatcher(p);
    ok := stopped == Some(true) && l.newWritten == l.newExpected && opening.newSize == l.newWritten;
  }

  /**
   The flash ends up as the patcher run on copies says, with `faults` the failed writes;
   when no flash operation has failed, it ends up as the pure patch.
   */
  ghost predicate Refines(p: Patcher, before: Memory, after: Memory, activeBase: u32, inactiveBase: u32,
                          patchTotal: nat, expectedNew: nat, ok: bool, faults: seq<bool>, clean: bool)
    requires SlotBase(activeBase) && SlotBase(inactiveBase) && patchTotal <= SLOT_SIZE && expectedNew <= SLOT_SIZE
  {
    if !Applicable(Stretch(before, activeBase, HEADER_SIZE), patchTotal, expectedNew) then !ok && after == before
    else
      activeBase != inactiveBase ==>
        var patch, oldImg := StoredPatch(before, inactiveBase, patchTotal), OldImage(before, activeBase);
        var o := Applied(p, patch, oldImg, expectedNew, faults);
        && ok == o.ok && |o.output| <= SLOT_SIZE && Stretch(after, inactiveBase, |o.output|) == o.output
        && (clean ==> o == Patched(p, patch, oldImg, expectedNew))
  }

  /**
   delta_apply_patch. Whatever the patcher does, only the head of the inactive slot
   changes, and what ends up there is the output of the same patcher run on copies of
   the patch and the old image as they were at the start.
   */
  method ApplyPatch(nor: Nor, p: Patcher, activeBase: u32, inactiveBase: u32, patchTotal: nat, expectedNew: nat)
    returns (ok: bool, ghost faults: seq<bool>)
    requires nor.Valid() && SlotBase(activeBase) && SlotBase(inactiveBase)
    requires patchTotal <= SLOT_SIZE && expectedNew <= SLOT_SIZE
    modifies nor, nor.cells
    ensures WrittenOnly(old(nor.Mem()), nor.Mem(), inactiveBase, expectedNew)
    ensures nor.faulty == (old(nor.faulty) || AnyFault(faults))
    ensures Refines(p, old(nor.Mem()), nor.Mem(), activeBase, inactiveBase, patchTotal, expectedNew, ok, faults,
                    !nor.faulty)
  {
    hide WrittenOnly, Stretch, Magic, PayloadSize, Applied, Opened, Steps, Patched, AnyFault;
    NoneFaulty();
    ok, faults := false, [];
    NothingWritten(nor.Mem(), inactiveBase, expectedNew);
    if patchTotal == 0 || expectedNew == 0 {
      return;
    }
    if expectedNew + patchTotal > SLOT_SIZE {
      return;
    }
    var hdr := nor.Read(activeBase, HEADER_SIZE);
    assert hdr == Stretch(nor.Mem(), activeBase, HEADER_SIZE) by { StretchIs(nor.Mem(), activeBase, HEADER_SIZE); }
    if Magic(hdr) != FIRMWARE_MAGIC || PayloadSize(hdr) == 0 {
      return;
    }
    var activeTotal := LogicalTotal(hdr);
    if activeTotal > SLOT_SIZE {
      return;
    }
    var l := new Listener(nor, activeBase, inactiveBase, expectedNew, activeTotal, patchTotal);
    StretchEmpty(nor.Mem(), inactiveBase);
    ghost var patch, oldImg := l.Patch(), l.Old();
    var opening := l.RunProbe(p.open, p.limit);
    if opening.None? || opening.value.None? || opening.value.value.newSize != expectedNew {
      NotOpened(p, patch, oldImg, expectedNew);
      return;
    }
    ok, faults := RunPatch(l, p, opening.value.value);
    if l.Apart() { FaultFree(p, patch, oldImg, expectedNew, faults); }
  }

  lemma NoneFaulty()
    ensures !AnyFault([])
  {
  }

  lemma NotOpened(p: Patcher, patch: seq<byte>, oldImg: seq<byte>, expected: nat)
    ensures Opened(p, patch, expected) == None ==>
      Applied(p, patch, oldImg, expected, []) == Outcome(false, []) == Patched(p, patch, oldImg, expected)
    ensures var x := Probed(patch, p.open, Start(), p.limit).0;
      x.None? || x.value.None? || x.value.value.newSize != expected ==> Opened(p, patch, expected) == None
  {
    hide Probed;
  }

  lemma FaultFree(p: Patcher, patch: seq<byte>, oldImg: seq<byte>, expected: nat, faults: seq<bool>)
    requires |faults| <= p.limit
    requires var o := Opened(p, patch, expected);
      o.Some? && |faults| < p.limit ==> Steps(p, patch, oldImg, expected, o.value, faults).stopped.Some?
    ensures !AnyFault(faults) ==>
      Applied(p, patch, oldImg, expected, faults) == Patched(p, patch, oldImg, expected)
  {
    if !AnyFault(faults) { FaultFreeIsPatched(p, patch, oldImg, expected, faults); }
  }

  lemma StretchIs(m: Memory, addr: int, n: nat)
    requires InFlash(addr, n)
    ensures Stretch(m, addr, n) == m[addr - FLASH_BASE..addr - FLASH_BASE + n]
  {
  }

  lemma StretchEmpty(m: Memory, addr: int)
    requires InFlash(addr, 0)
    ensures Stretch(m, addr, 0) == []
  {
  }

  // ----- The base digest -------------------------------------------------------------------

  /** What the device hashes as the base of a delta. */
  function BaseRegion(s: Slot): Option<seq<byte>> {
    if Magic(s) != FIRMWARE_MAGIC || LogicalTotal(s) > SLOT_SIZE then None else Some(s[..LogicalTotal(s)])
  }

  /** delta_verify_active_base_sha256. */
  method VerifyActiveBase(nor: Nor, activeBase: u32, digest: Digest) returns (ok: bool)
    requires nor.Valid() && SlotBase(activeBase)
    ensures var region := BaseRegion(SlotAt(nor.Mem(), activeBase));
      ok <==> region.Some? && Sha256.Hash(region.value) == digest
  {
    hide Sha256.Hash, Sha256.Context.Valid;
    ghost var s := SlotAt(nor.Mem(), activeBase);
    var hdr := nor.Read(activeBase, HEADER_SIZE);
    assert hdr == s[..HEADER_SIZE];
    assert hdr[0..4] == s[0..4] && hdr[8..12] == s[8..12];
    if Magic(hdr) != FIRMWARE_MAGIC {
      return false;
    }
    var total := LogicalTotal(hdr);
    if total > SLOT_SIZE {
      return false;
    }
    var ctx := new Sha256.Context();
    SliceOfSlice(nor.Mem(), activeBase - FLASH_BASE, SLOT_SIZE, 0, total);
    HashFlash(ctx, nor, activeBase, total, HASH_CHUNK);
    assert ctx.message == s[..total];
    var hash := ctx.Final();
    ok := ConstantTimeEqual(hash, digest);
  }

  /**
   The device hashes what the host tool hashes exactly when the size field leaves room
   for the header in 32 bits; beyond that the device's total wraps and it hashes a
   piece of the header, where the tool reports an error.
   */
  lemma BaseIsLogical(s: Slot)
    requires Magic(s) == FIRMWARE_MAGIC
    ensures BaseRegion(s) == LogicalSignedBytes(s) <==> PayloadSize(s) < 0x1_0000_0000 - HEADER_SIZE
  {
    hide Magic, PayloadSize;
  }
}
