/** A whole run over a lossy channel that keeps order: which frames the tracker reports. */
module LossyRun {
  import opened Bytes
  import opened Fragment
  import opened Publisher
  import opened Folds

  /** What the network and the stack do to one published chunk. On arrival the E2E
      header occupies the hole and the receiver's clock is read. */
  datatype Fate = Lost | Arrives(e2e: seq<Byte>, recvNs: U64)

  datatype Arrival = Arrival(payload: seq<Byte>, recvNs: U64)

  datatype Report = Report(frame: CompletedFrame, recvNs: U64)

  ghost predicate ValidFates(hole: nat, fates: seq<Fate>) {
    forall k :: 0 <= k < |fates| && fates[k].Arrives? ==> |fates[k].e2e| == hole
  }

  predicate AllArrive(fates: seq<Fate>) {
    forall k :: 0 <= k < |fates| ==> fates[k].Arrives?
  }

  /** The surviving payloads, in order, with the hole overwritten. */
  function Deliver(sent: seq<seq<Byte>>, fates: seq<Fate>): seq<Arrival>
    requires |sent| == |fates|
    decreases |sent|
  {
    if sent == [] then [] else
    var k := |sent| - 1;
    var earlier := Deliver(sent[..k], fates[..k]);
    if fates[k].Lost? || |sent[k]| < |fates[k].e2e| then earlier else
    earlier + [Arrival(Overlay(fates[k].e2e, sent[k]), fates[k].recvNs)]
  }

  function Log(frame: Option<CompletedFrame>, recvNs: U64): seq<Report> {
    if frame.None? then [] else [Report(frame.value, recvNs)]
  }

  /** The tracker as a machine over arrivals; a report carries the arrival time of its last chunk. */
  function Tracking(hole: nat): (TrackerState, Arrival) -> (TrackerState, seq<Report>) {
    (s: TrackerState, a: Arrival) =>
      var (t, frame) := TrackerStep(hole, s, a.payload);
      (t, Log(frame, a.recvNs))
  }

  function Reports(hole: nat, arrivals: seq<Arrival>): seq<Report> {
    Run(Tracking(hole), IDLE_TRACKER, arrivals).1
  }

  lemma {:induction false} DeliverAppend(a: seq<seq<Byte>>, b: seq<seq<Byte>>, x: seq<Fate>, y: seq<Fate>)
    requires |a| == |x| && |b| == |y|
    ensures Deliver(a + b, x + y) == Deliver(a, x) + Deliver(b, y)
    decreases |b|
  {
    if b == [] {
      assert a + b == a && x + y == x;
    } else {
      var k := |b| - 1;
      DeliverAppend(a, b[..k], x, y[..k]);
      assert (a + b)[..|a| + k] == a + b[..k];
      assert (x + y)[..|a| + k] == x + y[..k];
    }
  }

  // ------------------------------------------------------------ one frame

  /** The payload carries header (f, i, count), and in chunk 0 the stamp, behind the hole. */
  ghost predicate Carries(hole: nat, payload: seq<Byte>, f: U32, sendNs: U64, i: nat, count: nat) {
    && LongEnough(hole, payload)
    && HeaderOf(payload, hole) == WireHeader(f, i, count)
    && (i == 0 ==> StampIn(payload, hole) == Some(sendNs))
  }

  /** Payloads 0..n-1 of one frame. */
  ghost predicate IsFrame(hole: nat, chunks: seq<seq<Byte>>, f: U32, sendNs: U64, count: nat) {
    forall i :: 0 <= i < |chunks| ==> Carries(hole, chunks[i], f, sendNs, i, count)
  }

  lemma {:induction false} FrameChunksAt(hole: nat, b: seq<Byte>, plan: ChunkPlan, n: nat, i: nat)
    requires Covers(plan, |b|) && i < n <= plan.count
    ensures FrameChunks(hole, b, plan, n)[i] == Payload(hole, b, plan, i)
    decreases n
  {
    if i < n - 1 {
      FrameChunksAt(hole, b, plan, n - 1, i);
    }
  }

  lemma PayloadCarries(hole: nat, size: nat, plan: ChunkPlan, f: U32, sendNs: U64, i: nat)
    requires Sliceable(plan, size) && (plan.count == 1 || plan.len >= MIN_FRAME_BYTES) && i < plan.count
    requires ChunkLen(plan, size, i) >= HEADER_BYTES
    ensures Carries(hole, Payload(hole, FrameBlock(size, plan, f, sendNs), plan, i), f, sendNs, i, plan.count)
  {
    var b := FrameBlock(size, plan, f, sendNs);
    SliceDecodes(Fill(size), plan, f, sendNs, i);
    DecodesAlike(Payload(hole, b, plan, i), hole, Slice(b, plan, i), 0);
  }

  /** What the publish loop sends for a frame is that frame: all of it when the headers fit, and
      all but the last chunk in any case. */
  lemma FrameChunksParse(hole: nat, size: nat, plan: ChunkPlan, f: U32, sendNs: U64)
    requires Sliceable(plan, size) && (plan.count == 1 || plan.len >= MIN_FRAME_BYTES)
    ensures var chunks := FrameChunks(hole, FrameBlock(size, plan, f, sendNs), plan, plan.count);
            IsFrame(hole, chunks[..plan.count - 1], f, sendNs, plan.count)
            && (HeadersFit(plan, size) ==> IsFrame(hole, chunks, f, sendNs, plan.count))
  {
    var b := FrameBlock(size, plan, f, sendNs);
    var chunks := FrameChunks(hole, b, plan, plan.count);
    forall i | 0 <= i < |chunks| && (i < plan.count - 1 || HeadersFit(plan, size))
      ensures Carries(hole, chunks[i], f, sendNs, i, plan.count)
    {
      ChunkHoldsHeader(plan, size, i);
      FrameChunksAt(hole, b, plan, plan.count, i);
      PayloadCarries(hole, size, plan, f, sendNs, i);
    }
  }

  /** The tracker meets chunk i of frame f, whatever now fills the hole. */
  lemma ChunkArrives(hole: nat, s: TrackerState, chunk: seq<Byte>, f: U32, sendNs: U64, i: nat, count: nat, fate: Fate)
      returns (stamp: Option<U64>)
    requires Carries(hole, chunk, f, sendNs, i, count) && fate.Arrives? && |fate.e2e| == hole
    ensures i == 0 ==> stamp == Some(sendNs)
    ensures var (t, frame) := HeaderStep(s, WireHeader(f, i, count), stamp);
            Tracking(hole)(s, Arrival(Overlay(fate.e2e, chunk), fate.recvNs)) == (t, Log(frame, fate.recvNs))
  {
    DecodesAlike(Overlay(fate.e2e, chunk), hole, chunk, hole);
    stamp := StampIn(chunk, hole);
  }

  /** Where the tracker stands after chunks 0..n-1 of frame f met their fates: all arrived,
      or some are missing and nothing later of this frame can be accepted. */
  ghost predicate Following(s: TrackerState, f: U32, sendNs: U64, n: nat) {
    n < TWO16 && s == TrackerState(true, f, n, sendNs)
  }

  ghost predicate Broken(s: TrackerState, f: U32, n: nat) {
    s.active ==> s.seqNo < f || (s.seqNo == f && s.next < n)
  }

  ghost predicate FrameOutcome(s: TrackerState, reports: seq<Report>, f: U32, sendNs: U64, count: nat,
                               fates: seq<Fate>)
  {
    var n := |fates|;
    if !AllArrive(fates) then reports == [] && Broken(s, f, n)
    else if n == 0 then reports == []
    else if n < count then reports == [] && Following(s, f, sendNs, n)
    else !s.active && reports == [Report(CompletedFrame(f, sendNs), fates[n - 1].recvNs)]
  }

  /** One step of FrameOutcome: the header of chunk n meets the tracker. */
  lemma OutcomeStep(s: TrackerState, reports: seq<Report>, f: U32, sendNs: U64, count: nat,
                    fates: seq<Fate>, fate: Fate, stamp: Option<U64>)
    requires |fates| < count < TWO16 && FrameOutcome(s, reports, f, sendNs, count, fates)
    requires |fates| == 0 ==> Broken(s, f, 0) && stamp == Some(sendNs)
    ensures var (t, frame) := HeaderStep(s, WireHeader(f, |fates|, count), stamp);
            var out := reports + Log(frame, if fate.Lost? then 0 else fate.recvNs);
            if fate.Lost? then FrameOutcome(s, reports, f, sendNs, count, fates + [fate])
            else FrameOutcome(t, out, f, sendNs, count, fates + [fate])
  {
    var n := |fates|;
    var more := fates + [fate];
    assert more[n] == fate;
    assert forall k :: 0 <= k < n ==> more[k] == fates[k];
    if fate.Lost? {
      assert !AllArrive(more);
    } else if AllArrive(fates) {
      assert AllArrive(more);
    } else {
      var k :| 0 <= k < n && fates[k].Lost?;
      assert more[k].Lost?;
    }
  }

  /** Sending and delivering one more chunk of the frame. */
  lemma DeliverSnoc(sent: seq<seq<Byte>>, fates: seq<Fate>, chunk: seq<Byte>, fate: Fate)
    requires |sent| == |fates| && (fate.Arrives? ==> |chunk| >= |fate.e2e|)
    ensures Deliver(sent + [chunk], fates + [fate])
         == Deliver(sent, fates)
            + if fate.Lost? then [] else [Arrival(Overlay(fate.e2e, chunk), fate.recvNs)]
  {
    assert (sent + [chunk])[..|sent|] == sent && (fates + [fate])[..|fates|] == fates;
  }

  ghost predicate FrameRuns(hole: nat, s: TrackerState, chunks: seq<seq<Byte>>, f: U32, sendNs: U64, count: nat,
                            fates: seq<Fate>)
    requires |chunks| == |fates|
  {
    var (t, reports) := Run(Tracking(hole), s, Deliver(chunks, fates));
    FrameOutcome(t, reports, f, sendNs, count, fates) && (fates == [] ==> t == s)
  }

  lemma FrameRunStep(hole: nat, s: TrackerState, chunks: seq<seq<Byte>>, f: U32, sendNs: U64, count: nat,
                     fates: seq<Fate>, chunk: seq<Byte>, fate: Fate)
    requires |chunks| == |fates| < count < TWO16 && (fate.Arrives? ==> |fate.e2e| == hole)
    requires Carries(hole, chunk, f, sendNs, |chunks|, count)
    requires Broken(s, f, 0) && FrameRuns(hole, s, chunks, f, sendNs, count, fates)
    ensures FrameRuns(hole, s, chunks + [chunk], f, sendNs, count, fates + [fate])
  {
    var before := Deliver(chunks, fates);
    var (t, reports) := Run(Tracking(hole), s, before);
    DeliverSnoc(chunks, fates, chunk, fate);
    if fate.Lost? {
      OutcomeStep(t, reports, f, sendNs, count, fates, fate, Some(sendNs));
    } else {
      var stamp := ChunkArrives(hole, t, chunk, f, sendNs, |chunks|, count, fate);
      OutcomeStep(t, reports, f, sendNs, count, fates, fate, stamp);
      RunSnoc(Tracking(hole), s, before, Arrival(Overlay(fate.e2e, chunk), fate.recvNs));
    }
  }

  lemma {:induction false} FrameRun(hole: nat, s: TrackerState, chunks: seq<seq<Byte>>, f: U32, sendNs: U64,
                                    count: nat, fates: seq<Fate>)
    requires |chunks| == |fates| <= count < TWO16 && IsFrame(hole, chunks, f, sendNs, count)
    requires ValidFates(hole, fates) && Broken(s, f, 0)
    ensures FrameRuns(hole, s, chunks, f, sendNs, count, fates)
    decreases |fates|
  {
    if fates != [] {
      var k := |fates| - 1;
      var c, x := chunks[..k], fates[..k];
      assert chunks == c + [chunks[k]];
      assert fates == x + [fates[k]];
      FrameRun(hole, s, c, f, sendNs, count, x);
      FrameRunStep(hole, s, c, f, sendNs, count, x, chunks[k], fates[k]);
    }
  }

  // ------------------------------------------------------------ the whole run

  /** The reference: exactly the frames that lost no chunk, in send order, each with the
      stamp the publisher wrote and the arrival time of its last chunk. */
  function Survivors(count: nat, clock: seq<U64>, fates: seq<Fate>): (reports: seq<Report>)
    requires count >= 1 && |fates| == ChunkTotal(|clock|, count) && |clock| < TWO32
    decreases |clock|
  {
    if clock == [] then [] else
    var f := |clock| - 1;
    var start := |fates| - count;
    Survivors(count, clock[..f], fates[..start]) + FrameReport(f, clock[f], Last(fates, count))
  }

  function FrameReport(f: U32, sendNs: U64, fates: seq<Fate>): seq<Report>
    requires fates != []
  {
    if AllArrive(fates) then [Report(CompletedFrame(f, sendNs), fates[|fates| - 1].recvNs)] else []
  }

  /** Seeing these arrivals makes these reports and leaves no frame from f on in progress. */
  ghost predicate Tracks(hole: nat, arrivals: seq<Arrival>, reports: seq<Report>, f: nat) {
    var (t, out) := Run(Tracking(hole), IDLE_TRACKER, arrivals);
    out == reports && (t.active ==> t.seqNo < f)
  }

  /** Splitting the delivered stream before its last frame. */
  lemma SplitLastFrame(hole: nat, size: nat, plan: ChunkPlan, clock: seq<U64>, ns: U64, x: seq<Fate>, y: seq<Fate>)
    requires Sliceable(plan, size) && |clock| + 1 < TWO32
    requires |x| == ChunkTotal(|clock|, plan.count) && |y| == plan.count
    ensures Deliver(Published(hole, size, plan, clock + [ns]), x + y)
         == Deliver(Published(hole, size, plan, clock), x)
            + Deliver(FrameChunks(hole, FrameBlock(size, plan, |clock|, ns), plan, plan.count), y)
  {
    assert (clock + [ns])[..|clock|] == clock;
    DeliverAppend(Published(hole, size, plan, clock),
                  FrameChunks(hole, FrameBlock(size, plan, |clock|, ns), plan, plan.count), x, y);
  }

  lemma SurvivorsSnoc(count: nat, clock: seq<U64>, ns: U64, x: seq<Fate>, y: seq<Fate>)
    requires count >= 1 && |clock| + 1 < TWO32 && |x| == ChunkTotal(|clock|, count) && |y| == count
    ensures Survivors(count, clock + [ns], x + y)
         == Survivors(count, clock, x) + FrameReport(|clock|, ns, y)
  {
    assert (clock + [ns])[..|clock|] == clock;
    assert (x + y)[..|x|] == x && Last(x + y, count) == y;
  }

  /** One more frame after any arrivals that the tracker has seen so far. */
  lemma FrameAfter(hole: nat, earlier: seq<Arrival>, reports: seq<Report>,
                   chunks: seq<seq<Byte>>, f: U32, sendNs: U64, fates: seq<Fate>)
    requires 1 <= |chunks| == |fates| < TWO16 && IsFrame(hole, chunks, f, sendNs, |chunks|)
    requires ValidFates(hole, fates) && Tracks(hole, earlier, reports, f)
    ensures Tracks(hole, earlier + Deliver(chunks, fates), reports + FrameReport(f, sendNs, fates), f + 1)
  {
    RunAppend(Tracking(hole), IDLE_TRACKER, earlier, Deliver(chunks, fates));
    FrameRun(hole, Run(Tracking(hole), IDLE_TRACKER, earlier).0, chunks, f, sendNs, |chunks|, fates);
  }

  lemma RunFrame(hole: nat, size: nat, plan: ChunkPlan, c: seq<U64>, ns: U64, x: seq<Fate>, y: seq<Fate>)
    requires Usable(plan, size) && |c| + 1 < TWO32
    requires |x| == ChunkTotal(|c|, plan.count) && |y| == plan.count && ValidFates(hole, y)
    requires Tracks(hole, Deliver(Published(hole, size, plan, c), x), Survivors(plan.count, c, x), |c|)
    ensures Tracks(hole, Deliver(Published(hole, size, plan, c + [ns]), x + y),
                   Survivors(plan.count, c + [ns], x + y), |c| + 1)
  {
    SplitLastFrame(hole, size, plan, c, ns, x, y);
    SurvivorsSnoc(plan.count, c, ns, x, y);
    FrameChunksParse(hole, size, plan, |c|, ns);
    FrameAfter(hole, Deliver(Published(hole, size, plan, c), x), Survivors(plan.count, c, x),
               FrameChunks(hole, FrameBlock(size, plan, |c|, ns), plan, plan.count), |c|, ns, y);
  }

  lemma {:induction false} WholeRun(hole: nat, size: nat, plan: ChunkPlan, clock: seq<U64>, fates: seq<Fate>)
    requires Usable(plan, size) && |clock| < TWO32
    requires |fates| == ChunkTotal(|clock|, plan.count) && ValidFates(hole, fates)
    ensures Tracks(hole, Deliver(Published(hole, size, plan, clock), fates),
                   Survivors(plan.count, clock, fates), |clock|)
    decreases |clock|
  {
    if clock != [] {
      var f := |clock| - 1;
      var start := |fates| - plan.count;
      var c, x, y := clock[..f], fates[..start], Last(fates, plan.count);
      assert clock == c + [clock[f]];
      assert fates == x + y;
      WholeRun(hole, size, plan, c, x);
      RunFrame(hole, size, plan, c, clock[f], x, y);
    }
  }

  /** The tracker reports the surviving frames of this run. */
  ghost predicate SurvivorsReported(hole: nat, size: nat, plan: ChunkPlan, clock: seq<U64>, fates: seq<Fate>)
    requires Sliceable(plan, size) && |clock| < TWO32 && |fates| == ChunkTotal(|clock|, plan.count)
  {
    Reports(hole, Deliver(Published(hole, size, plan, clock), fates)) == Survivors(plan.count, clock, fates)
  }

  /** For every loss pattern, the tracker reports exactly the frames all of whose chunks
      survived, once each and in send order. */
  lemma LossyRunExact(hole: nat, size: nat, plan: ChunkPlan, clock: seq<U64>, fates: seq<Fate>)
    requires Usable(plan, size) && |clock| < TWO32
    requires |fates| == ChunkTotal(|clock|, plan.count) && ValidFates(hole, fates)
    ensures SurvivorsReported(hole, size, plan, clock, fates)
  {
    WholeRun(hole, size, plan, clock, fates);
  }
}
