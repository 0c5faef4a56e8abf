/**
 What applying a delta comes to, seen from outside: the stream hands over the patch in
 whatever pieces it is asked for, and a patcher that follows an edit script of pieces
 of the patch and pieces of the old image produces exactly what the script spells out.
 */
module DeltaScript {
  import opened Bytes
  import opened Layout
  import opened Flash
  import opened Crypto
  import opened Delta
  import FirmwareImage

  // ----- The diff stream ------------------------------------------------------------------

  /** What a reader that asks for `sizes` in turn receives. */
  function Received(patch: seq<byte>, pos: nat, sizes: seq<nat>): seq<byte>
    requires pos <= |patch|
    decreases |sizes|
  {
    if sizes == [] then []
    else
      var r := DiffReply(patch, pos, sizes[0]);
      (if r.Data? then r.bytes else []) + Received(patch, Advance(pos, r), sizes[1..])
  }

  function Sum(sizes: seq<nat>): nat
    decreases |sizes|
  {
    if sizes == [] then 0 else sizes[0] + Sum(sizes[1..])
  }

  /** Where a read of `n` bytes leaves the stream. */
  function PosAfter(patch: seq<byte>, pos: nat, n: nat): (r: nat)
    requires pos <= |patch|
    ensures pos <= r <= |patch|
  {
    if pos + n <= |patch| then pos + n else |patch|
  }

  /** Whatever the sizes, the reader has the bytes it asked for, in order, up to the end of the patch. */
  lemma {:induction false} StreamDelivers(patch: seq<byte>, pos: nat, sizes: seq<nat>)
    requires pos <= |patch|
    ensures Received(patch, pos, sizes) == patch[pos..PosAfter(patch, pos, Sum(sizes))]
    decreases |sizes|
  {
    hide DiffReply;
    if sizes == [] {
      assert patch[pos..pos] == [];
    } else {
      var next := PosAfter(patch, pos, sizes[0]);
      ReplyGives(patch, pos, sizes[0]);
      StreamDelivers(patch, next, sizes[1..]);
      Summed(patch, pos, sizes[0], Sum(sizes[1..]));
      hide PosAfter, Advance;
      Pieces(patch, pos, next, PosAfter(patch, next, Sum(sizes[1..])));
    }
  }

  lemma Pieces(s: seq<byte>, a: nat, b: nat, c: nat)
    requires a <= b <= c <= |s|
    ensures s[a..b] + s[b..c] == s[a..c]
  {
  }

  /** A read is refused at the end of the patch and nowhere else; otherwise it gives what is there. */
  lemma ReplyGives(patch: seq<byte>, pos: nat, n: nat)
    requires pos <= |patch|
    ensures DiffReply(patch, pos, n).Data? <==> n == 0 || pos < |patch|
    ensures DiffReply(patch, pos, n) == Failed || DiffReply(patch, pos, n) == Data(patch[pos..PosAfter(patch, pos, n)])
    ensures Advance(pos, DiffReply(patch, pos, n)) == PosAfter(patch, pos, n)
  {
    assert patch[pos..|patch|] == patch[pos..];
  }

  // ----- Edit scripts -------------------------------------------------------------------------

  /** Up to `n` bytes of the patch from where it was left, or bytes of the old image. */
  datatype Edit = Take(n: nat) | Copy(from: nat, n: nat)

  datatype Progress = Progress(pos: nat, output: seq<byte>)

  /** What a script spells out, the patch read from `pos` on; None if it asks for bytes that are not there. */
  function Spelled(script: seq<Edit>, patch: seq<byte>, pos: nat, oldImg: seq<byte>): (r: Option<Progress>)
    requires pos <= |patch|
    ensures r.Some? ==> r.value.pos <= |patch|
    decreases |script|
  {
    if script == [] then Some(Progress(pos, []))
    else
      var before := Spelled(script[..|script| - 1], patch, pos, oldImg);
      if before.None? then None
      else
        var at, output := before.value.pos, before.value.output;
        match script[|script| - 1]
        case Take(n) =>
          if n > 0 && at == |patch| then None
          else Some(Progress(PosAfter(patch, at, n), output + patch[at..PosAfter(patch, at, n)]))
        case Copy(from, n) =>
          if from + n > |oldImg| then None else Some(Progress(at, output + oldImg[from..from + n]))
  }

  /** The library as far as it reads before the patch proper, and the script it then follows. */
  datatype Library = Library(head: nat, opening: Opening, dictHead: nat, dict: nat, tuzHead: nat, ready: bool,
                             script: seq<Edit>, limit: nat)

  /** How many reads the phases before the patch proper make. */
  function Preamble(l: Library): nat { if l.opening.ct == Tuz then 3 else 1 }

  /** Read, write what came, and so on through the script; give up at the first refusal. */
  function NextMove(l: Library, replies: seq<Reply>): Action {
    if |replies| < Preamble(l) then Stop(false)
    else
      var i := |replies| - Preamble(l);
      if i % 2 == 0 then
        if i > 0 && replies[|replies| - 1] != Written then Stop(false)
        else if i / 2 == |l.script| then Stop(true)
        else if i / 2 > |l.script| then Stop(false)
        else match l.script[i / 2]
          case Take(n) => ReadDiff(n)
          case Copy(from, n) => ReadOld(from, n)
      else match replies[|replies| - 1]
        case Data(bytes) => WriteNew(bytes)
        case _ => Stop(false)
  }

  function Follow(l: Library): Patcher {
    Patcher(
      (replies: seq<Reply>) => if |replies| == 0 then Look(l.head) else Report(Some(l.opening)),
      (replies: seq<Reply>) => if |replies| == 1 then Look(l.dictHead) else Report(l.dict),
      (replies: seq<Reply>) => if |replies| == 2 then Look(l.tuzHead) else Report(l.ready),
      (replies: seq<Reply>) => NextMove(l, replies),
      l.limit)
  }

  /** What the device asks of the opening. */
  predicate Opens(l: Library, expected: nat) {
    && l.opening.newSize == expected
    && (l.opening.ct == Plain || (l.opening.ct == Tuz && 0 < l.dict <= 8192 && l.ready))
  }

  /** Where the patch proper starts. */
  function ScriptStart(l: Library, patch: seq<byte>): (pos: nat)
    ensures pos <= |patch|
  {
    PosAfter(patch, 0, l.head + if l.opening.ct == Tuz then l.dictHead + l.tuzHead else 0)
  }

  /** The phases before the patch proper leave the stream where the script starts. */
  lemma OpenedScript(l: Library, patch: seq<byte>, expected: nat) returns (v: View)
    requires l.limit > 0
    ensures !Opens(l, expected) ==> Opened(Follow(l), patch, expected) == None
    ensures Opens(l, expected) ==> Opened(Follow(l), patch, expected) == Some(v)
    ensures v.pos == ScriptStart(l, patch) && |v.replies| == Preamble(l) && v.output == [] && v.stopped == None
  {
    hide NextMove, DiffReply, PosAfter;
    var p := Follow(l);
    v := Start();
    v := OneLook(patch, p.open, v, l.head, Some(l.opening), l.limit);
    if l.opening.ct == Tuz {
      var v1 := OneLook(patch, p.dictSize, v, l.dictHead, l.dict, l.limit);
      var v2 := OneLook(patch, p.tuzOpen, v1, l.tuzHead, l.ready, l.limit);
      Summed(patch, 0, l.head, l.dictHead);
      Summed(patch, 0, l.head + l.dictHead, l.tuzHead);
      v := v2;
    }
  }

  lemma Summed(patch: seq<byte>, pos: nat, n: nat, m: nat)
    requires pos <= |patch|
    ensures PosAfter(patch, PosAfter(patch, pos, n), m) == PosAfter(patch, pos, n + m)
  {
  }

  /** A phase of one read. */
  lemma OneLook<R>(patch: seq<byte>, s: seq<Reply> -> Probe<R>, v: View, n: nat, x: R, limit: nat) returns (w: View)
    requires v.pos <= |patch| && limit > 0 && s(v.replies) == Look(n)
    requires forall r :: s(v.replies + [r]) == Report(x)
    ensures w.pos == PosAfter(patch, v.pos, n) && |w.replies| == |v.replies| + 1
    ensures w.output == v.output && w.stopped == v.stopped
    ensures Probed(patch, s, v, limit) == (Some(x), w)
  {
    var reply := DiffReply(patch, v.pos, n);
    ReplyGives(patch, v.pos, n);
    w := v.(pos := Advance(v.pos, reply), replies := v.replies + [reply]);
    assert Probed(patch, s, w, limit - 1) == (Some(x), w);
  }

  /** The first `j` edits ask for bytes that are not there, or spell out more than was announced. */
  predicate Bad(l: Library, patch: seq<byte>, oldImg: seq<byte>, expected: nat, j: nat)
    requires j <= |l.script|
  {
    var s := Spelled(l.script[..j], patch, ScriptStart(l, patch), oldImg);
    s.None? || |s.value.output| > expected
  }

  /** Before edit `j`: what the script spelled out so far is written, or it is being given up. */
  predicate Before(l: Library, patch: seq<byte>, oldImg: seq<byte>, expected: nat, j: nat, v: View)
    requires j <= |l.script|
  {
    && v.pos <= |patch| && |v.output| <= expected
    && if v.stopped.Some? then v.stopped == Some(false) && Bad(l, patch, oldImg, expected, j)
       else
         && Ready(l, 2 * j, v)
         && if j > 0 && v.replies[|v.replies| - 1] != Written then Bad(l, patch, oldImg, expected, j)
            else Spelled(l.script[..j], patch, ScriptStart(l, patch), oldImg) == Some(Progress(v.pos, v.output))
  }

  /** The reply to the read of an edit. */
  function EditReply(e: Edit, patch: seq<byte>, pos: nat, oldImg: seq<byte>): Reply
    requires pos <= |patch|
  {
    match e
    case Take(n) => DiffReply(patch, pos, n)
    case Copy(from, n) => OldReply(oldImg, from, n)
  }

  /** Where it leaves the patch. */
  function EditPos(e: Edit, patch: seq<byte>, pos: nat): (r: nat)
    requires pos <= |patch|
    ensures r <= |patch|
  {
    match e
    case Take(n) => PosAfter(patch, pos, n)
    case Copy(_, _) => pos
  }

  /** Ready for the move of number `i`. */
  predicate Ready(l: Library, i: nat, v: View) {
    v.stopped == None && |v.replies| == Preamble(l) + i
  }

  lemma ReadStep(l: Library, patch: seq<byte>, oldImg: seq<byte>, expected: nat, j: nat, v: View)
    requires j < |l.script| && v.pos <= |patch| && |v.output| <= expected && Ready(l, 2 * j, v)
    requires j > 0 ==> v.replies[|v.replies| - 1] == Written
    ensures var w := Step(Follow(l), patch, oldImg, expected, v, false);
      && Ready(l, 2 * j + 1, w) && w.pos == EditPos(l.script[j], patch, v.pos) && w.output == v.output
      && w.replies[|w.replies| - 1] == EditReply(l.script[j], patch, v.pos, oldImg)
  {
    hide PosAfter, DiffReply, OldReply;
    match l.script[j]
    case Take(n) => ReplyGives(patch, v.pos, n);
    case Copy(_, _) =>
  }

  lemma WriteStep(l: Library, patch: seq<byte>, oldImg: seq<byte>, expected: nat, j: nat, v: View)
    requires v.pos <= |patch| && |v.output| <= expected && Ready(l, 2 * j + 1, v)
    ensures var w, r := Step(Follow(l), patch, oldImg, expected, v, false), v.replies[|v.replies| - 1];
      && w.pos == v.pos
      && if !r.Data? then w == v.(stopped := Some(false))
         else
           && Ready(l, 2 * j + 2, w)
           && if |v.output + r.bytes| > expected then w.output == v.output && w.replies[|w.replies| - 1] == Failed
              else w.output == v.output + r.bytes && w.replies[|w.replies| - 1] == Written
  {
  }

  /** After a refused write the library stops. */
  lemma RefusedStep(l: Library, patch: seq<byte>, oldImg: seq<byte>, expected: nat, j: nat, v: View)
    requires v.pos <= |patch| && |v.output| <= expected && Ready(l, 2 * j, v)
    requires j > 0 && v.replies[|v.replies| - 1] != Written
    ensures Step(Follow(l), patch, oldImg, expected, v, false) == v.(stopped := Some(false))
  {
  }

  /** After the last edit it stops, content. */
  lemma StopStep(l: Library, patch: seq<byte>, oldImg: seq<byte>, expected: nat, v: View)
    requires v.pos <= |patch| && |v.output| <= expected && Ready(l, 2 * |l.script|, v)
    requires |l.script| > 0 ==> v.replies[|v.replies| - 1] == Written
    ensures Step(Follow(l), patch, oldImg, expected, v, false) == v.(stopped := Some(true))
  {
  }

  /** One more edit of the script. */
  lemma SpelledStep(l: Library, patch: seq<byte>, oldImg: seq<byte>, expected: nat, j: nat)
    requires j < |l.script|
    ensures Bad(l, patch, oldImg, expected, j) ==> Bad(l, patch, oldImg, expected, j + 1)
    ensures var s := Spelled(l.script[..j], patch, ScriptStart(l, patch), oldImg);
      s.Some? ==>
        var at := s.value.pos;
        var r := EditReply(l.script[j], patch, at, oldImg);
        Spelled(l.script[..j + 1], patch, ScriptStart(l, patch), oldImg)
        == if r.Data? then Some(Progress(EditPos(l.script[j], patch, at), s.value.output + r.bytes)) else None
  {
    hide PosAfter, ScriptStart, DiffReply;
    assert l.script[..j + 1][..j] == l.script[..j];
    var s := Spelled(l.script[..j], patch, ScriptStart(l, patch), oldImg);
    if s.Some? && l.script[j].Take? {
      ReplyGives(patch, s.value.pos, l.script[j].n);
    }
  }

  /** One edit: its read and its write. */
  lemma EditStep(l: Library, patch: seq<byte>, oldImg: seq<byte>, expected: nat, j: nat, v: View)
    requires j < |l.script| && Before(l, patch, oldImg, expected, j, v)
    ensures var p := Follow(l);
      Before(l, patch, oldImg, expected, j + 1,
             Step(p, patch, oldImg, expected, Step(p, patch, oldImg, expected, v, false), false))
  {
    hide Spelled, ScriptStart, NextMove, EditReply, EditPos, PosAfter, DiffReply, OldReply;
    SpelledStep(l, patch, oldImg, expected, j);
    if v.stopped == None {
      if j > 0 && v.replies[|v.replies| - 1] != Written {
        RefusedStep(l, patch, oldImg, expected, j, v);
      } else {
        ReadStep(l, patch, oldImg, expected, j, v);
        WriteStep(l, patch, oldImg, expected, j, Step(Follow(l), patch, oldImg, expected, v, false));
      }
    }
  }

  lemma {:induction false} ScriptSteps(l: Library, patch: seq<byte>, oldImg: seq<byte>, expected: nat, v: View, j: nat)
    requires j <= |l.script| && v.pos == ScriptStart(l, patch)
    requires |v.replies| == Preamble(l) && v.output == [] && v.stopped == None
    ensures Before(l, patch, oldImg, expected, j, Steps(Follow(l), patch, oldImg, expected, v, NoFaults(2 * j)))
  {
    hide Step, ScriptStart, Follow;
    if j == 0 {
      assert l.script[..0] == [];
    } else {
      hide Before, Spelled;
      ScriptSteps(l, patch, oldImg, expected, v, j - 1);
      assert NoFaults(2 * j)[..2 * j - 1] == NoFaults(2 * j - 1);
      assert NoFaults(2 * j - 1)[..2 * j - 2] == NoFaults(2 * j - 2);
      EditStep(l, patch, oldImg, expected, j - 1, Steps(Follow(l), patch, oldImg, expected, v, NoFaults(2 * j - 2)));
    }
  }

  /**
   The pure patch under a script: it succeeds if and only if the compression is one the
   device knows, the dictionary fits, and the script spells out exactly as many bytes as
   the START announced; and then these are the output.
   */
  lemma ScriptApplied(l: Library, patch: seq<byte>, oldImg: seq<byte>, expected: nat)
    requires l.limit > 2 * |l.script|
    ensures var s := Spelled(l.script, patch, ScriptStart(l, patch), oldImg);
      var o := Patched(Follow(l), patch, oldImg, expected);
      && (o.ok <==> Opens(l, expected) && s.Some? && |s.value.output| == expected)
      && (o.ok ==> o.output == s.value.output)
  {
    hide Opened, Step, ScriptStart, Spelled, Steps;
    var p := Follow(l);
    var v := OpenedScript(l, patch, expected);
    if Opens(l, expected) {
      var n := |l.script|;
      assert l.script[..n] == l.script;
      ScriptSteps(l, patch, oldImg, expected, v, n);
      LastMove(l, patch, oldImg, expected, v);
      var more := NoFaults(l.limit - (2 * n + 1));
      assert NoFaults(2 * n + 1) + more == NoFaults(l.limit);
      StoppedStays(p, patch, oldImg, expected, v, NoFaults(2 * n + 1), more);
    }
  }

  /** After the last edit the library stops, with the success the script had. */
  lemma LastMove(l: Library, patch: seq<byte>, oldImg: seq<byte>, expected: nat, v: View)
    requires v.pos <= |patch| && |v.output| <= expected
    requires Before(l, patch, oldImg, expected, |l.script|,
                    Steps(Follow(l), patch, oldImg, expected, v, NoFaults(2 * |l.script|)))
    ensures var n := 2 * |l.script|;
      var w := Steps(Follow(l), patch, oldImg, expected, v, NoFaults(n));
      var x := Steps(Follow(l), patch, oldImg, expected, v, NoFaults(n + 1));
      && x.stopped == Some(!Bad(l, patch, oldImg, expected, |l.script|))
      && x.output == w.output
  {
    hide Spelled, ScriptStart, DiffReply, OldReply, PosAfter;
    var j := |l.script|;
    var n := 2 * j;
    var w := Steps(Follow(l), patch, oldImg, expected, v, NoFaults(n));
    assert NoFaults(n + 1)[..n] == NoFaults(n);
    hide Steps, NextMove;
    if w.stopped == None {
      if j > 0 && w.replies[|w.replies| - 1] != Written {
        RefusedStep(l, patch, oldImg, expected, j, w);
      } else {
        StopStep(l, patch, oldImg, expected, w);
      }
    }
  }

  // ----- On flash ----------------------------------------------------------------------------------

  /** The base a delta is made from, by the header in the active slot. */
  predicate BaseFound(active: Slot) {
    && active[..4] == [0xEF, 0xBE, 0xAD, 0xDE] && U32(active[8..12]) > 0
    && (512 + U32(active[8..12])) % 0x1_0000_0000 <= 471_040
  }

  /**
   delta_apply_patch with a flash that does not fail: it succeeds if and only if the sizes
   fit the slot, the active slot holds a base and the script spells out as many bytes as
   announced from the tail of one slot and the image in the other; and then the slot starts
   with these bytes.
   */
  lemma ScriptOnFlash(l: Library, before: Memory, after: Memory, activeBase: u32, inactiveBase: u32,
                      patchTotal: nat, expectedNew: nat, ok: bool, faults: seq<bool>)
    requires SlotBase(activeBase) && SlotBase(inactiveBase) && activeBase != inactiveBase
    requires patchTotal <= SLOT_SIZE && expectedNew <= SLOT_SIZE && l.limit > 2 * |l.script|
    requires Refines(Follow(l), before, after, activeBase, inactiveBase, patchTotal, expectedNew, ok, faults, true)
    ensures var active, patch := SlotAt(before, activeBase), SlotAt(before, inactiveBase)[SLOT_SIZE - patchTotal..];
      && (ok <==> (patchTotal > 0 && expectedNew > 0 && expectedNew + patchTotal <= 471_040 && BaseFound(active)
                   && Opens(l, expectedNew) && BaseSpells(l, active, patch).Some?
                   && |BaseSpells(l, active, patch).value| == expectedNew))
      && (ok ==> SlotAt(after, inactiveBase)[..expectedNew] == BaseSpells(l, active, patch).value)
  {
    hide Spelled, Patched, Applied, Opened, Follow, Opens, ScriptStart;
    hide SlotAt, Stretch, StoredPatch, OldImage, BaseFound;
    var active, patch := SlotAt(before, activeBase), SlotAt(before, inactiveBase)[SLOT_SIZE - patchTotal..];
    BaseByHeader(before, activeBase, active);
    PartsOfSlot(before, inactiveBase, patchTotal);
    var oldImg := OldImage(before, activeBase);
    ScriptApplied(l, patch, oldImg, expectedNew);
    if ok {
      PartsOfSlot(after, inactiveBase, expectedNew);
    }
  }

  /** Head and tail of a slot. */
  lemma PartsOfSlot(m: Memory, addr: u32, n: nat)
    requires SlotBase(addr) && n <= SLOT_SIZE
    ensures Stretch(m, addr, n) == SlotAt(m, addr)[..n] && StoredPatch(m, addr, n) == SlotAt(m, addr)[SLOT_SIZE - n..]
  {
  }

  /** What the script spells out of a patch and the image in the active slot. */
  function BaseSpells(l: Library, active: Slot, patch: seq<byte>): Option<seq<byte>>
    requires BaseFound(active)
  {
    var s := Spelled(l.script, patch, ScriptStart(l, patch), active[..(512 + U32(active[8..12])) % 0x1_0000_0000]);
    if s.None? then None else Some(s.value.output)
  }

  lemma BaseByHeader(m: Memory, addr: u32, active: Slot)
    requires SlotBase(addr) && active == SlotAt(m, addr)
    ensures var hdr := Stretch(m, addr, HEADER_SIZE);
      BaseFound(active) <==> (FirmwareImage.Magic(hdr) == FIRMWARE_MAGIC && FirmwareImage.PayloadSize(hdr) != 0
                              && LogicalTotal(hdr) <= SLOT_SIZE)
    ensures BaseFound(active) ==> OldImage(m, addr) == active[..(512 + U32(active[8..12])) % 0x1_0000_0000]
  {
    hide U32;
    var hdr := Stretch(m, addr, HEADER_SIZE);
    assert hdr == active[..HEADER_SIZE];
    assert hdr[0..4] == active[..4] && hdr[8..12] == active[8..12];
    U32RoundTrip(active[..4]);
    assert Le32(FIRMWARE_MAGIC) == [0xEF, 0xBE, 0xAD, 0xDE];
    Le32RoundTrip(FIRMWARE_MAGIC);
  }
}
