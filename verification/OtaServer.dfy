/**
 The host's sender: stop-and-wait with retries over the lossy link, for whole images and
 for deltas. The far end of the link is the receiver of OtaClient itself.
 */
module OtaServer {
  import opened Bytes
  import opened Frame
  import opened OtaClient
  import opened Channel
  import FirmwareImage
  import Sha256

  const RETRIES_PER_FRAME: nat := 5

  // ----- The link -------------------------------------------------------------------

  /** What the sender does on the line: bytes written, and what a read came to. */
  datatype Line = Sent(data: seq<byte>) | Heard(resp: Option<seq<byte>>)

  class Transport {
    const receiver: Receiver
    var queue: seq<Frame>
    var responses: seq<Response>
    var away: bool
    ghost var done: Option<Device>
    /** Everything the sender wrote and read so far. */
    ghost var trace: seq<Line>

    constructor (receiver: Receiver)
      ensures this.receiver == receiver && queue == [] && responses == [] && !away && done == None && trace == []
    {
      this.receiver := receiver;
      queue, responses, away, done, trace := [], [], false, None, [];
    }

    ghost predicate Valid()
      reads this, receiver
    {
      receiver.nor.Valid() && SessionOk(receiver.V())
    }

    ghost function N(): Net
      requires receiver.nor.Valid()
      reads this, receiver, receiver.nor, receiver.nor.cells, receiver.shared
    {
      Net(receiver.Dev(), queue, responses, away, done)
    }

    /** One event on the link or at the receiver, or none. */
    method Tick()
      requires Valid()
      modifies this, receiver, receiver.nor, receiver.nor.cells, receiver.shared
      ensures Valid() && EnvStep(receiver.W(), old(N()), N()) && trace == old(trace)
    {
      hide Handles;
      ghost var n := N();
      var event: nat := *;
      var i: nat := *;
      if event == 0 && i < |queue| {
        queue := Without(queue, i);
        LoseOne(n, N(), i);
      } else if event == 1 && i < |responses| {
        responses := Without(responses, i);
        LoseOne(n, N(), i);
      } else if event == 2 && queue != [] && !away {
        queue := queue[1..];
        responses := responses + [Response(NAK, 0)];
        assert FrameDamaged(n, N());
      } else if event == 3 && queue != [] && !away {
        Deliver();
      } else if event == 4 {
        Restart();
      }
    }

    /** The receiver reads the frame at the head of the queue. */
    method Deliver()
      requires Valid() && queue != [] && !away
      modifies this, receiver, receiver.nor, receiver.nor.cells, receiver.shared
      ensures Valid() && (Delivered(receiver.W(), old(N()), N()) || Abandoned(old(N()), N())) && trace == old(trace)
    {
      hide Handles;
      var f := queue[0];
      ghost var before := receiver.Dev();
      queue := queue[1..];
      if f.op == OP_ABORT {
        responses := responses + [Answer(f, true)];
        away := true;
        return;
      }
      var ok := receiver.Dispatch(f);
      HandlesKeepsSession(receiver.W(), before, f, receiver.Dev(), ok);
      responses := responses + [Answer(f, ok)];
      if ok && f.op == OP_END {
        away := true;
        done := Some(receiver.Dev());
      }
    }

    /** The device boots, any number of times, and listens again. */
    method Restart()
      requires Valid()
      modifies this, receiver, receiver.nor, receiver.nor.cells, receiver.shared
      ensures Valid() && Restarted(old(N()), N()) && trace == old(trace)
    {
      var nor, shared := receiver.nor, receiver.shared;
      var at := 0;
      while at < nor.cells.Length
        modifies nor.cells
      {
        nor.cells[at] := *;
        at := at + 1;
      }
      shared.magic, shared.confirmed, shared.pending := *, *, *;
      ghost var faulty: bool := *;
      nor.faulty := faulty;
      receiver.Reset();
      away := false;
    }

    /** The bytes of one frame go on the line. */
    method Write(data: seq<byte>)
      requires Valid() && ParseFrame(data).status == FrameOk
      modifies this
      ensures Valid() && N() == old(N()).(queue := old(queue) + [ParseFrame(data).frame.value])
      ensures trace == old(trace) + [Sent(data)]
    {
      queue := queue + [ParseFrame(data).frame.value];
      trace := trace + [Sent(data)];
    }

    /**
     A response, or None on a timeout; the link runs on meanwhile. The response was at
     the head of its queue in a state of the invariant.
     */
    method ReadExact(ghost job: Job, ghost turn: Turn) returns (resp: Option<seq<byte>>)
      requires Valid() && JobOk(job) && Inv(receiver.W(), job, turn, N())
      modifies this, receiver, receiver.nor, receiver.nor.cells, receiver.shared
      ensures Valid() && trace == old(trace) + [Heard(resp)]
      ensures resp.None? ==> Inv(receiver.W(), job, turn, N())
      ensures resp.Some? ==> exists r ::
        resp.value == ResponseBytes(r) && Inv(receiver.W(), job, turn, N().(responses := [r] + N().responses))
    {
      hide Inv, EnvStep, JobOk;
      var ticks: nat := *;
      while ticks > 0
        invariant Valid() && Inv(receiver.W(), job, turn, N()) && trace == old(trace)
      {
        ghost var n := N();
        Tick();
        EnvKeepsInv(receiver.W(), job, turn, n, N());
        ticks := ticks - 1;
      }
      var late: bool := *;
      if late || responses == [] {
        trace := trace + [Heard(None)];
        return None;
      }
      ghost var n := N();
      var r := responses[0];
      responses := responses[1..];
      assert [r] + responses == n.responses;
      resp := Some(ResponseBytes(r));
      trace := trace + [Heard(resp)];
    }
  }

  lemma LoseOne(n: Net, n': Net, i: nat)
    ensures i < |n.queue| && n' == n.(queue := Without(n.queue, i)) ==> FrameLost(n, n')
    ensures i < |n.responses| && n' == n.(responses := Without(n.responses, i)) ==> ResponseLost(n, n')
  {
  }

  // ----- Sending ------------------------------------------------------------------------

  /** Inv just before the acknowledgement of the current frame was read. */
  ghost predicate AckRead(w: Platform, job: Job, turn: Turn, n: Net)
    requires JobOk(job)
  {
    Inv(w, job, turn, n.(responses := [Acked(turn)] + n.responses))
  }

  /** The same bytes written before every read, and what each read came to. */
  function Attempts(frame: seq<byte>, seen: seq<Option<seq<byte>>>): seq<Line>
    decreases |seen|
  {
    if seen == [] then []
    else Attempts(frame, seen[..|seen| - 1]) + [Sent(frame), Heard(seen[|seen| - 1])]
  }

  /** At most five reads, none of them the acknowledgement but, on success, the last. */
  predicate Tried(seen: seq<Option<seq<byte>>>, ack: seq<byte>, ok: bool) {
    var n := |seen|;
    if ok then 0 < n <= 5 && seen[n - 1] == Some(ack) && forall i :: 0 <= i < n - 1 ==> seen[i] != Some(ack)
    else n == 5 && forall i :: 0 <= i < n ==> seen[i] != Some(ack)
  }

  /**
   The frame goes out up to five times, until the acknowledgement with its number has been
   read: `seen` is what the reads came to, and success is exactly that the last one is it.
   */
  method SendWithRetry(t: Transport, frame: seq<byte>, expected: u16, ghost job: Job, ghost turn: Turn)
    returns (ok: bool, ghost seen: seq<Option<seq<byte>>>)
    requires t.Valid() && JobOk(job) && Inv(t.receiver.W(), job, turn, t.N())
    requires |turn.cur.data| <= MAX_DATA && frame == Wire(turn.cur) && expected == turn.cur.seqNo
    modifies t, t.receiver, t.receiver.nor, t.receiver.nor.cells, t.receiver.shared
    ensures t.Valid()
    ensures if ok then AckRead(t.receiver.W(), job, turn, t.N()) else Inv(t.receiver.W(), job, turn, t.N())
    ensures t.trace == old(t.trace) + Attempts(frame, seen)
    ensures Tried(seen, ResponseBytes(Response(ACK, expected)), ok)
  {
    hide Inv, JobOk, Wire, ParseFrame, ParseResponse, ResponseBytes;
    BuiltFrameParses([], turn.cur, []);
    assert [] + Wire(turn.cur) + [] == Wire(turn.cur);
    ghost var ack := ResponseBytes(Response(ACK, expected));
    ResponseRoundTrip(ack, Response(ACK, expected));
    seen := [];
    var attempt := 0;
    while attempt < RETRIES_PER_FRAME
      invariant t.Valid() && Inv(t.receiver.W(), job, turn, t.N())
      invariant |seen| == attempt <= RETRIES_PER_FRAME && t.trace == old(t.trace) + Attempts(frame, seen)
      invariant forall i :: 0 <= i < |seen| ==> seen[i] != Some(ack)
    {
      attempt := attempt + 1;
      SendKeepsInv(t.receiver.W(), job, turn, t.N());
      t.Write(frame);
      var resp := t.ReadExact(job, turn);
      ghost var log := t.trace;
      OneMoreAttempt(old(t.trace), frame, seen, resp, log);
      seen := seen + [resp];
      if resp.None? {
        continue;
      }
      ghost var r :| resp.value == ResponseBytes(r)
        && Inv(t.receiver.W(), job, turn, t.N().(responses := [r] + t.N().responses));
      Discarded(t.receiver.W(), job, turn, t.N(), r);
      var parsed := ParseResponse(resp.value);
      if parsed.None? {
        continue;
      }
      ResponseRoundTrip(resp.value, parsed.value);
      SameResponse(r, parsed.value);
      if parsed.value.seqNo != expected {
        continue;
      }
      if !IsAck(parsed.value.code) {
        continue;
      }
      return true, seen;
    }
    ok := false;
  }

  lemma OneMoreAttempt(before: seq<Line>, frame: seq<byte>, seen: seq<Option<seq<byte>>>, resp: Option<seq<byte>>,
                       trace: seq<Line>)
    requires trace == before + Attempts(frame, seen) + [Sent(frame)] + [Heard(resp)]
    ensures trace == before + Attempts(frame, seen + [resp])
  {
    assert (seen + [resp])[..|seen|] == seen;
  }

  // ----- The frames of a job -----------------------------------------------------------------

  /** The `k`-th frame of a job, START being the first and END the last, with what was acknowledged before it. */
  function TurnAt(job: Job, k: nat): (turn: Turn)
    requires JobOk(job)
    ensures TurnOk(job, turn)
  {
    if k == 0 then FirstTurn(job)
    else
      var turn := TurnAt(job, k - 1);
      if turn.cur.op == OP_END then turn
      else
        NextTurnOk(job, turn);
        NextTurn(job, turn)
  }

  /** The `k`-th frame carries the chunk at `from`, or is END if there is none; frames are numbered from START on. */
  predicate IsFrame(job: Job, k: nat, from: nat)
    requires JobOk(job)
  {
    var turn, to, seqNo := TurnAt(job, k), from + job.chunk, (job.start.seqNo + k) % 0x1_0000;
    if from >= |job.blob| then turn.cur == Frame(0x23, seqNo, [])
    else
      && turn.sent == from
      && turn.cur == Frame(0x22, seqNo, job.blob[from..if to < |job.blob| then to else |job.blob|])
  }

  /** Which frames these are: the start, the chunks in order, and END. */
  lemma {:induction false} FramesOf(job: Job, k: nat)
    requires JobOk(job) && job.chunk > 0 && k > 0 && (k > 1 ==> (k - 2) * job.chunk < |job.blob|)
    ensures TurnAt(job, 0).cur == job.start && IsFrame(job, k, (k - 1) * job.chunk)
    decreases k
  {
    hide IsFrame, JobOk, TurnAt;
    StartGoesOn(job);
    if k == 1 {
      FirstChunk(job);
    } else {
      Multiples(k, job.chunk);
      FramesOf(job, k - 1);
      NextChunk(job, k, (k - 2) * job.chunk);
    }
  }

  lemma FirstChunk(job: Job)
    requires JobOk(job) && job.chunk > 0
    ensures IsFrame(job, 1, 0)
  {
    hide TurnOk, NextSeq, JobOk, TurnAt;
    StartGoesOn(job);
    NextNumber(job.start.seqNo, 1);
    FrameAfter(job, 1, 0);
  }

  lemma NextChunk(job: Job, k: nat, from: nat)
    requires JobOk(job) && job.chunk > 0 && k > 0 && from < |job.blob| && IsFrame(job, k - 1, from)
    ensures IsFrame(job, k, from + job.chunk)
  {
    hide TurnOk, NextSeq, JobOk, TurnAt;
    NextNumber(job.start.seqNo, k);
    FrameAfter(job, k, from + job.chunk);
  }

  /** From one frame to the next. */
  lemma FrameAfter(job: Job, k: nat, from: nat)
    requires JobOk(job) && k > 0 && TurnAt(job, k - 1).cur.op != OP_END
    requires After(TurnAt(job, k - 1)) == if from < |job.blob| then from else |job.blob|
    ensures var turn, seqNo, to := TurnAt(job, k), NextSeq(TurnAt(job, k - 1).cur.seqNo), from + job.chunk;
      if from >= |job.blob| then turn.cur == Frame(OP_END, seqNo, [])
      else
        && turn.sent == from && turn.cur.op == OP_DATA && turn.cur.seqNo == seqNo
        && turn.cur.data == job.blob[from..if to < |job.blob| then to else |job.blob|]
  {
    hide TurnOk, NextSeq, JobOk;
  }

  lemma StartGoesOn(job: Job)
    requires JobOk(job)
    ensures TurnAt(job, 0).cur == job.start && job.start.op != OP_END && After(TurnAt(job, 0)) == 0
  {
  }

  lemma NextNumber(n: u16, k: nat)
    requires k > 0
    ensures NextSeq((n + (k - 1)) % 0x1_0000) == (n + k) % 0x1_0000
    ensures k == 1 ==> (n + (k - 1)) % 0x1_0000 == n
  {
  }

  lemma Multiples(k: nat, chunk: nat)
    requires k > 1
    ensures (k - 1) * chunk == (k - 2) * chunk + chunk
  {
  }

  /** The acknowledgement lets the sender move on. */
  lemma Advanced(w: Platform, job: Job, turn: Turn, n: Net)
    requires JobOk(job) && TurnOk(job, turn) && turn.cur.op != OP_END && AckRead(w, job, turn, n)
    ensures TurnOk(job, NextTurn(job, turn)) && Inv(w, job, NextTurn(job, turn), n)
    ensures turn.cur.op == OP_DATA ==> turn.cur.data != []
  {
    hide Inv, JobOk, TurnOk, NextTurn;
    var m := n.(responses := [Acked(turn)] + n.responses);
    NextTurnOk(job, turn);
    AckAdvances(w, job, turn, m);
    assert m.responses[1..] == n.responses;
    assert m.(responses := m.responses[1..]) == n;
  }

  lemma Discarded(w: Platform, job: Job, turn: Turn, n: Net, r: Response)
    requires JobOk(job) && Inv(w, job, turn, n.(responses := [r] + n.responses))
    ensures Inv(w, job, turn, n)
  {
    hide Inv, JobOk;
    var m := n.(responses := [r] + n.responses);
    DiscardKeepsInv(w, job, turn, m);
    assert m.responses[1..] == n.responses;
    assert m.(responses := m.responses[1..]) == n;
  }

  lemma SameResponse(r: Response, q: Response)
    requires ResponseBytes(r) == ResponseBytes(q)
    ensures r == q
  {
    hide Le16;
    assert ResponseBytes(r)[0] == r.code && ResponseBytes(q)[0] == q.code;
    assert ResponseBytes(r)[1..3] == Le16(r.seqNo) && ResponseBytes(q)[1..3] == Le16(q.seqNo);
    Le16RoundTrip(r.seqNo);
    Le16RoundTrip(q.seqNo);
  }

  // ----- push ----------------------------------------------------------------------------

  function PushJob(image: seq<byte>, chunk: nat): (job: Job)
    requires |image| < 0x1_0000_0000
    ensures JobOk(job) && job.start.op == OP_START && job.blob == image
  {
    Le32RoundTrip(|image|);
    assert Le32(|image|)[0..4] == Le32(|image|);
    Job(Frame(OP_START, 1, Le32(|image|)), image, chunk)
  }

  lemma PushJobIs(image: seq<byte>, chunk: nat)
    requires |image| < 0x1_0000_0000
    ensures PushJob(image, chunk) == Job(Frame(OP_START, 1, Le32(|image|)), image, chunk)
  {
  }

  /** The START_DELTA job: patch and new sizes, and the digest of the old image's logical bytes. */
  function DeltaJob(patch: seq<byte>, newTotal: u32, digest: seq<byte>, chunk: nat): (job: Job)
    requires |patch| < 0x1_0000_0000 && |digest| == 32
    ensures JobOk(job) && job.start.op == OP_START_DELTA && job.blob == patch
    ensures BaseDigest(job) == digest && NewTotal(job) == newTotal
  {
    Le32RoundTrip(|patch|);
    Le32RoundTrip(newTotal);
    var data := Le32(|patch|) + Le32(newTotal) + digest;
    assert data[0..4] == Le32(|patch|) && data[4..8] == Le32(newTotal) && data[8..40] == digest;
    Job(Frame(OP_START_DELTA, 1, data), patch, chunk)
  }

  /**
   The receiver is idle or in any earlier session, and of earlier transfers there is
   nothing in flight that could pass for this one.
   */
  ghost predicate Quiet(t: Transport, start: Frame)
    reads t, t.receiver
  {
    t.Valid() && Stale(Turn(None, start, 0), t.queue, t.responses, t.receiver.active)
  }

  /** The bytes of a frame, as far as it can be built. */
  function FrameBytes(f: Frame): seq<byte> {
    if |f.data| <= MAX_DATA then Wire(f) else []
  }

  /** What went over the line for the first frames of a job. */
  function Spoken(job: Job, seens: seq<seq<Option<seq<byte>>>>): seq<Line>
    requires JobOk(job)
    decreases |seens|
  {
    if seens == [] then []
    else
      var k := |seens| - 1;
      Spoken(job, seens[..k]) + Attempts(FrameBytes(TurnAt(job, k).cur), seens[k])
  }

  /** The acknowledgement of the `k`-th frame. */
  function AckOf(job: Job, k: nat): seq<byte>
    requires JobOk(job)
  {
    ResponseBytes(Response(ACK, TurnAt(job, k).cur.seqNo))
  }

  /** The `k`-th frame is not the last one, and was acknowledged. */
  predicate WentOn(job: Job, k: nat, seen: seq<Option<seq<byte>>>)
    requires JobOk(job)
  {
    Tried(seen, AckOf(job, k), true) && TurnAt(job, k).cur.op != OP_END
  }

  /**
   One frame after the other: each but the last was acknowledged, and the job succeeded if
   and only if the last was END and was acknowledged too. It failed because the last was
   not acknowledged, or because the next one is too large to be built.
   */
  predicate Dialogue(job: Job, seens: seq<seq<Option<seq<byte>>>>, ok: bool)
    requires JobOk(job)
  {
    var k := |seens| - 1;
    && k >= 0 && (forall i :: 0 <= i < k ==> WentOn(job, i, seens[i]))
    && if ok then Tried(seens[k], AckOf(job, k), true) && TurnAt(job, k).cur.op == OP_END
       else Tried(seens[k], AckOf(job, k), false)
            || (WentOn(job, k, seens[k]) && |TurnAt(job, k + 1).cur.data| > MAX_DATA)
  }

  /** One more frame that was tried. */
  lemma SpokenGrows(job: Job, seens: seq<seq<Option<seq<byte>>>>, seen: seq<Option<seq<byte>>>, before: seq<Line>,
                    trace: seq<Line>)
    requires JobOk(job) && |TurnAt(job, |seens|).cur.data| <= MAX_DATA
    requires trace == before + Spoken(job, seens) + Attempts(Wire(TurnAt(job, |seens|).cur), seen)
    ensures trace == before + Spoken(job, seens + [seen])
  {
    hide Wire, TurnAt, Attempts;
    assert (seens + [seen])[..|seens|] == seens;
  }

  /** All frames so far were acknowledged, and `turn` is the next one. */
  predicate Reached(job: Job, seens: seq<seq<Option<seq<byte>>>>, turn: Turn)
    requires JobOk(job)
  {
    turn == TurnAt(job, |seens|) && forall i :: 0 <= i < |seens| ==> WentOn(job, i, seens[i])
  }

  lemma ReachesNext(job: Job, seens: seq<seq<Option<seq<byte>>>>, turn: Turn, seen: seq<Option<seq<byte>>>)
    requires JobOk(job) && TurnOk(job, turn) && Reached(job, seens, turn) && turn.cur.op != OP_END
    requires Tried(seen, ResponseBytes(Response(ACK, turn.cur.seqNo)), true)
    ensures Reached(job, seens + [seen], NextTurn(job, turn))
  {
    hide Tried, ResponseBytes, NextTurn, TurnOk;
  }

  /** Where it ended. */
  lemma Ended(job: Job, seens: seq<seq<Option<seq<byte>>>>, turn: Turn, seen: seq<Option<seq<byte>>>, ok: bool)
    requires JobOk(job) && Reached(job, seens, turn) && (ok ==> turn.cur.op == OP_END)
    requires Tried(seen, ResponseBytes(Response(ACK, turn.cur.seqNo)), ok)
    ensures Dialogue(job, seens + [seen], ok)
  {
    hide Tried, ResponseBytes, TurnAt;
  }

  lemma Begin(job: Job, trace: seq<Line>)
    requires JobOk(job)
    ensures Reached(job, [], FirstTurn(job)) && trace == trace + Spoken(job, [])
  {
  }

  lemma ReachedIs(job: Job, seens: seq<seq<Option<seq<byte>>>>, turn: Turn)
    requires JobOk(job) && Reached(job, seens, turn)
    ensures turn == TurnAt(job, |seens|)
  {
  }

  lemma CannotGoOn(job: Job, seens: seq<seq<Option<seq<byte>>>>, turn: Turn)
    requires JobOk(job) && Reached(job, seens, turn) && seens != [] && |turn.cur.data| > MAX_DATA
    ensures Dialogue(job, seens, false)
  {
    hide Tried, TurnAt, AckOf;
  }

  /**
   The START, all chunks and the END of a job, one after the other. A chunk too large for
   a frame makes the tool raise, which counts as failure. `seens` is what was read back for
   each frame: success is exactly that every frame up to END was acknowledged.
   */
  method SendAll(t: Transport, op: byte, startData: seq<byte>, blob: seq<byte>, chunkSize: nat, ghost job: Job)
    returns (ok: bool, ghost seens: seq<seq<Option<seq<byte>>>>)
    requires JobOk(job) && job == Job(Frame(op, 1, startData), blob, chunkSize) && Quiet(t, job.start)
    modifies t, t.receiver, t.receiver.nor, t.receiver.nor.cells, t.receiver.shared
    ensures ok ==> t.done.Some? && Completed(t.receiver.W(), job, t.done.value)
    ensures Dialogue(job, seens, ok) && t.trace == old(t.trace) + Spoken(job, seens)
  {
    hide Inv, Wire, BuildFrame, Completed, Attempts, Tried, Dialogue, Reached, ResponseBytes, TurnAt, Spoken;
    ghost var turn := FirstTurn(job);
    seens := [];
    Begin(job, t.trace);
    BuildsWire(turn.cur);
    OpeningInv(t.receiver.W(), job, t.N());
    var seqNo: u16 := 1;
    ghost var seen;
    ok, seen := SendWithRetry(t, BuildFrame(op, seqNo, startData).value, seqNo, job, turn);
    ReachedIs(job, seens, turn);
    SpokenGrows(job, seens, seen, old(t.trace), t.trace);
    if !ok {
      Ended(job, seens, turn, seen, false);
      seens := seens + [seen];
      return;
    }
    Advanced(t.receiver.W(), job, turn, t.N());
    ReachesNext(job, seens, turn, seen);
    seens := seens + [seen];
    ghost var last := turn;
    turn := NextTurn(job, last);
    var sent := 0;
    while sent < |blob|
      invariant t.Valid() && Inv(t.receiver.W(), job, turn, t.N())
      invariant TurnOk(job, last) && last.cur.op != OP_END && TurnOk(job, turn) && turn == NextTurn(job, last)
      invariant After(last) == sent <= |blob| && last.cur.seqNo == seqNo
      invariant seens != [] && Reached(job, seens, turn) && t.trace == old(t.trace) + Spoken(job, seens)
    {
      ReachedIs(job, seens, turn);
      seqNo := NextSeq(seqNo);
      var chunk := blob[sent..if sent + chunkSize < |blob| then sent + chunkSize else |blob|];
      assert turn.cur == Frame(OP_DATA, seqNo, chunk);
      BuildsWire(turn.cur);
      var frame := BuildFrame(OP_DATA, seqNo, chunk);
      if frame.None? {
        CannotGoOn(job, seens, turn);
        return false, seens;
      }
      ok, seen := SendWithRetry(t, frame.value, seqNo, job, turn);
      SpokenGrows(job, seens, seen, old(t.trace), t.trace);
      if !ok {
        Ended(job, seens, turn, seen, false);
        seens := seens + [seen];
        return;
      }
      Advanced(t.receiver.W(), job, turn, t.N());
      ReachesNext(job, seens, turn, seen);
      seens := seens + [seen];
      last := turn;
      turn := NextTurn(job, last);
      sent := sent + |chunk|;
    }
    seqNo := NextSeq(seqNo);
    assert turn.cur == Frame(OP_END, seqNo, []);
    BuildsWire(turn.cur);
    ReachedIs(job, seens, turn);
    ok, seen := SendWithRetry(t, BuildFrame(OP_END, seqNo, []).value, seqNo, job, turn);
    SpokenGrows(job, seens, seen, old(t.trace), t.trace);
    Ended(job, seens, turn, seen, ok);
    seens := seens + [seen];
    if ok {
      AckCompletes(t.receiver.W(), job, turn, t.N().(responses := [Acked(turn)] + t.N().responses));
    }
  }

  /**
   push: it returns true if and only if every frame up to END was acknowledged; then the
   receiver accepted END once the whole image lay in the slot, byte for byte and in order,
   and the image verified and was permitted.
   */
  method Push(t: Transport, image: seq<byte>, chunkSize: nat)
    returns (ok: bool, ghost seens: seq<seq<Option<seq<byte>>>>)
    requires t.Valid() && (|image| < 0x1_0000_0000 ==> Quiet(t, PushJob(image, chunkSize).start))
    modifies t, t.receiver, t.receiver.nor, t.receiver.nor.cells, t.receiver.shared
    ensures |image| >= 0x1_0000_0000 ==> !ok && t.N() == old(t.N()) && t.trace == old(t.trace)
    ensures |image| < 0x1_0000_0000 ==>
      var job := PushJob(image, chunkSize);
      Dialogue(job, seens, ok) && t.trace == old(t.trace) + Spoken(job, seens)
    ensures ok ==> |image| < 0x1_0000_0000 && t.done.Some?
    ensures ok ==> Completed(t.receiver.W(), PushJob(image, chunkSize), t.done.value)
  {
    hide Completed, Dialogue, Spoken, Stale, JobOk, PushJob, Le32;
    seens := [];
    if |image| >= 0x1_0000_0000 {
      return false, seens;
    }
    PushJobIs(image, chunkSize);
    ok, seens := SendAll(t, OP_START, Le32(|image|), image, chunkSize, PushJob(image, chunkSize));
  }

  /** The job of push_delta; None where the tool raises. */
  function PushDeltaJob(patch: seq<byte>, oldSigned: seq<byte>, newSigned: seq<byte>, chunk: nat): (job: Option<Job>)
    ensures job.Some? ==> JobOk(job.value) && job.value.start.op == OP_START_DELTA && job.value.blob == patch
    ensures var base, target := FirmwareImage.LogicalSignedBytes(oldSigned), FirmwareImage.LogicalSignedBytes(newSigned);
      if base.None? || target.None? || |target.value| >= 0x1_0000_0000 || |patch| >= 0x1_0000_0000 then job == None
      else
        && job.Some? && BaseDigest(job.value) == Sha256.Hash(base.value)
        && NewTotal(job.value) == |target.value|
  {
    hide Sha256.Hash, FirmwareImage.Magic, FirmwareImage.PayloadSize, JobOk;
    var base, target := FirmwareImage.LogicalSignedBytes(oldSigned), FirmwareImage.LogicalSignedBytes(newSigned);
    if base.None? || target.None? || |target.value| >= 0x1_0000_0000 || |patch| >= 0x1_0000_0000 then None
    else Some(DeltaJob(patch, |target.value|, Sha256.Hash(base.value), chunk))
  }

  /**
   push_delta: the digest of the old image's logical bytes goes ahead of the patch. The
   tool's exceptions are modelled as failure with nothing sent.
   */
  method PushDelta(t: Transport, patch: seq<byte>, oldSigned: seq<byte>, newSigned: seq<byte>, chunkSize: nat)
    returns (ok: bool, ghost seens: seq<seq<Option<seq<byte>>>>)
    requires t.Valid()
    requires var job := PushDeltaJob(patch, oldSigned, newSigned, chunkSize); job.Some? ==> Quiet(t, job.value.start)
    requires 8 * |oldSigned| < 0x1_0000_0000_0000_0000
    modifies t, t.receiver, t.receiver.nor, t.receiver.nor.cells, t.receiver.shared
    ensures var job := PushDeltaJob(patch, oldSigned, newSigned, chunkSize);
      if job.None? then !ok && t.N() == old(t.N()) && t.trace == old(t.trace)
      else
        && Dialogue(job.value, seens, ok) && t.trace == old(t.trace) + Spoken(job.value, seens)
        && (ok ==> t.done.Some? && Completed(t.receiver.W(), job.value, t.done.value))
  {
    hide Dialogue, Spoken, Completed, Sha256.Hash, FirmwareImage.Magic, FirmwareImage.PayloadSize, JobOk, Stale;
    seens := [];
    var base := FirmwareImage.LogicalSignedBytes(oldSigned);
    if base.None? {
      return false, seens;
    }
    var digest := Sha256.Sha256(base.value);
    var target := FirmwareImage.LogicalSignedBytes(newSigned);
    if target.None? || |target.value| >= 0x1_0000_0000 || |patch| >= 0x1_0000_0000 {
      return false, seens;
    }
    var startData := Le32(|patch|) + Le32(|target.value|) + digest;
    ok, seens :=
      SendAll(t, OP_START_DELTA, startData, patch, chunkSize, DeltaJob(patch, |target.value|, digest, chunkSize));
  }
}
