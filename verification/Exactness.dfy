/** Exactly which plans deliver what they promise. */
module Exactness {
  import opened Bytes
  import opened Folds
  import opened Fragment
  import opened Publisher
  import opened LossyRun

  /** Under every loss pattern the tracker reports the frames that lost no chunk, and only those. */
  ghost predicate ReportsSurvivors(hole: nat, size: nat, plan: ChunkPlan, clock: seq<U64>)
    requires Sliceable(plan, size) && |clock| < TWO32
  {
    forall fates :: |fates| == ChunkTotal(|clock|, plan.count) && ValidFates(hole, fates) ==>
      SurvivorsReported(hole, size, plan, clock, fates)
  }

  function AllLost(n: nat): (fates: seq<Fate>)
    ensures |fates| == n && forall k :: 0 <= k < n ==> fates[k] == Lost
  {
    seq(n, k => Lost)
  }

  function AllThere(hole: nat, n: nat): (fates: seq<Fate>)
    ensures |fates| == n && forall k :: 0 <= k < n ==> fates[k] == Arrives(Zeros(hole), 0)
  {
    seq(n, k => Arrives(Zeros(hole), 0))
  }

  lemma {:induction false} NothingDelivered(sent: seq<seq<Byte>>, fates: seq<Fate>)
    requires |sent| == |fates| && forall k :: 0 <= k < |fates| ==> fates[k].Lost?
    ensures Deliver(sent, fates) == []
    decreases |sent|
  {
    if sent != [] {
      NothingDelivered(sent[..|sent| - 1], fates[..|fates| - 1]);
    }
  }

  lemma {:induction false} NothingSurvives(count: nat, clock: seq<U64>, fates: seq<Fate>)
    requires count >= 1 && |clock| < TWO32 && |fates| == ChunkTotal(|clock|, count)
    requires forall k :: 0 <= k < |fates| ==> fates[k].Lost?
    ensures Survivors(count, clock, fates) == []
    decreases |clock|
  {
    if clock != [] {
      var f, start := |clock| - 1, |fates| - count;
      var c, x, y := clock[..f], fates[..start], Last(fates, count);
      assert clock == c + [clock[f]];
      assert fates == x + y;
      NothingSurvives(count, c, x);
      SurvivorsSnoc(count, c, clock[f], x, y);
      assert y[0].Lost?;
    }
  }

  /** Fates of the last frame's chunks under which the reports of that frame come out wrong. */
  ghost predicate Defeats(hole: nat, chunks: seq<seq<Byte>>, f: U32, ns: U64, y: seq<Fate>)
    requires 1 <= |chunks| == |y|
  {
    ValidFates(hole, y) && Reports(hole, Deliver(chunks, y)) != FrameReport(f, ns, y)
  }

  /** A run that loses everything but its last frame comes down to that frame. */
  lemma OnlyLastFrame(hole: nat, size: nat, plan: ChunkPlan, c: seq<U64>, ns: U64, y: seq<Fate>)
    requires Sliceable(plan, size) && |c| + 1 < TWO32 && |y| == plan.count
    ensures var x := AllLost(ChunkTotal(|c|, plan.count));
            && Deliver(Published(hole, size, plan, c + [ns]), x + y)
               == Deliver(FrameChunks(hole, FrameBlock(size, plan, |c|, ns), plan, plan.count), y)
            && Survivors(plan.count, c + [ns], x + y) == FrameReport(|c|, ns, y)
  {
    var x := AllLost(ChunkTotal(|c|, plan.count));
    SplitLastFrame(hole, size, plan, c, ns, x, y);
    SurvivorsSnoc(plan.count, c, ns, x, y);
    NothingDelivered(Published(hole, size, plan, c), x);
    NothingSurvives(plan.count, c, x);
  }

  lemma DefeatedFates(hole: nat, size: nat, plan: ChunkPlan, c: seq<U64>, ns: U64, y: seq<Fate>)
    requires Sliceable(plan, size) && |c| + 1 < TWO32 && |y| == plan.count
    requires Defeats(hole, FrameChunks(hole, FrameBlock(size, plan, |c|, ns), plan, plan.count), |c|, ns, y)
    ensures !SurvivorsReported(hole, size, plan, c + [ns], AllLost(ChunkTotal(|c|, plan.count)) + y)
  {
    OnlyLastFrame(hole, size, plan, c, ns, y);
  }

  lemma DefeatedRun(hole: nat, size: nat, plan: ChunkPlan, clock: seq<U64>, fates: seq<Fate>)
    requires Sliceable(plan, size) && |clock| < TWO32 && |fates| == ChunkTotal(|clock|, plan.count)
    requires ValidFates(hole, fates) && !SurvivorsReported(hole, size, plan, clock, fates)
    ensures !ReportsSurvivors(hole, size, plan, clock)
  {
  }

  lemma LastFrameFates(hole: nat, n: nat, chunks: seq<seq<Byte>>, f: U32, ns: U64, y: seq<Fate>)
    requires 1 <= |chunks| == |y| && Defeats(hole, chunks, f, ns, y)
    ensures ValidFates(hole, AllLost(n) + y)
  {
  }

  lemma DefeatedBy(hole: nat, size: nat, plan: ChunkPlan, c: seq<U64>, ns: U64, y: seq<Fate>)
    requires Sliceable(plan, size) && |c| + 1 < TWO32 && |y| == plan.count
    requires Defeats(hole, FrameChunks(hole, FrameBlock(size, plan, |c|, ns), plan, plan.count), |c|, ns, y)
    ensures !ReportsSurvivors(hole, size, plan, c + [ns])
  {
    hide SurvivorsReported, Defeats, FrameBlock, Published, ValidFates;
    DefeatedFates(hole, size, plan, c, ns, y);
    assert ValidFates(hole, AllLost(ChunkTotal(|c|, plan.count)) + y) by {
      LastFrameFates(hole, ChunkTotal(|c|, plan.count),
                     FrameChunks(hole, FrameBlock(size, plan, |c|, ns), plan, plan.count), |c|, ns, y);
    }
    DefeatedRun(hole, size, plan, c + [ns], AllLost(ChunkTotal(|c|, plan.count)) + y);
  }

  // --------------------------------------------- first chunk too short for its stamp

  ghost predicate Silent(hole: nat, arrivals: seq<Arrival>) {
    var (t, reports) := Run(Tracking(hole), IDLE_TRACKER, arrivals);
    !t.active && reports == []
  }

  lemma ShortStep(hole: nat, s: TrackerState, a: Arrival)
    requires !s.active && |a.payload| < hole + MIN_FRAME_BYTES
    ensures !Tracking(hole)(s, a).0.active && Tracking(hole)(s, a).1 == []
  {
  }

  lemma {:induction false} ShortChunks(hole: nat, arrivals: seq<Arrival>)
    requires forall i :: 0 <= i < |arrivals| ==> |arrivals[i].payload| < hole + MIN_FRAME_BYTES
    ensures Silent(hole, arrivals)
    decreases |arrivals|
  {
    if arrivals != [] {
      var a, last := arrivals[..|arrivals| - 1], arrivals[|arrivals| - 1];
      assert arrivals == a + [last];
      ShortChunks(hole, a);
      ShortStep(hole, Run(Tracking(hole), IDLE_TRACKER, a).0, last);
      RunSnoc(Tracking(hole), IDLE_TRACKER, a, last);
    }
  }

  lemma {:induction false} DeliveredLengths(hole: nat, chunks: seq<seq<Byte>>, fates: seq<Fate>, bound: nat)
    requires |chunks| == |fates| && ValidFates(hole, fates)
    requires forall i :: 0 <= i < |chunks| ==> hole <= |chunks[i]| < bound
    ensures forall i :: 0 <= i < |Deliver(chunks, fates)| ==> |Deliver(chunks, fates)[i].payload| < bound
    decreases |chunks|
  {
    if chunks != [] {
      DeliveredLengths(hole, chunks[..|chunks| - 1], fates[..|chunks| - 1], bound);
    }
  }

  lemma ShortFirstChunk(hole: nat, size: nat, plan: ChunkPlan, f: U32, ns: U64)
    requires Sliceable(plan, size) && plan.count > 1 && plan.len < MIN_FRAME_BYTES
    ensures Defeats(hole, FrameChunks(hole, FrameBlock(size, plan, f, ns), plan, plan.count), f, ns,
                    AllThere(hole, plan.count))
  {
    var b := FrameBlock(size, plan, f, ns);
    var chunks := FrameChunks(hole, b, plan, plan.count);
    forall i | 0 <= i < |chunks| ensures hole <= |chunks[i]| < hole + MIN_FRAME_BYTES {
      FrameChunksAt(hole, b, plan, plan.count, i);
      OffsetInside(plan, size, i);
    }
    DeliveredLengths(hole, chunks, AllThere(hole, plan.count), hole + MIN_FRAME_BYTES);
    ShortChunks(hole, Deliver(chunks, AllThere(hole, plan.count)));
  }

  // -------------------------------------------------- more chunks than uint16 counts

  /** The tracker after chunks 0..n-1 of a frame whose header count is `count` wrapped. */
  ghost predicate EarlyOutcome(s: TrackerState, reports: seq<Report>, f: U32, ns: U64, count: nat, n: nat) {
    if n == 0 then reports == []
    else if n < Wrap16(count) then Following(s, f, ns, n) && reports == []
    else reports == [Report(CompletedFrame(f, ns), 0)]
  }

  lemma EarlyStep(s: TrackerState, reports: seq<Report>, f: U32, ns: U64, count: nat, n: nat, stamp: Option<U64>)
    requires EarlyOutcome(s, reports, f, ns, count, n) && (n == 0 || n < Wrap16(count))
    requires n == 0 ==> stamp == Some(ns)
    ensures var (t, frame) := HeaderStep(s, WireHeader(f, n, count), stamp);
            EarlyOutcome(t, reports + Log(frame, 0), f, ns, count, n + 1)
  {
  }

  lemma {:induction false} EarlyReport(hole: nat, chunks: seq<seq<Byte>>, f: U32, ns: U64, count: nat)
    requires IsFrame(hole, chunks, f, ns, count)
    requires |chunks| <= 1 || |chunks| <= Wrap16(count)
    ensures var (t, reports) := Run(Tracking(hole), IDLE_TRACKER, Deliver(chunks, AllThere(hole, |chunks|)));
            EarlyOutcome(t, reports, f, ns, count, |chunks|)
    decreases |chunks|
  {
    if chunks != [] {
      var k := |chunks| - 1;
      var c, x, fate := chunks[..k], AllThere(hole, k), Arrives(Zeros(hole), 0);
      assert chunks == c + [chunks[k]];
      assert AllThere(hole, |chunks|) == x + [fate];
      EarlyReport(hole, c, f, ns, count);
      var before := Deliver(c, x);
      var (s, reports) := Run(Tracking(hole), IDLE_TRACKER, before);
      DeliverSnoc(c, x, chunks[k], fate);
      var stamp := ChunkArrives(hole, s, chunks[k], f, ns, k, count, fate);
      EarlyStep(s, reports, f, ns, count, k, stamp);
      RunSnoc(Tracking(hole), IDLE_TRACKER, before, Arrival(Overlay(fate.e2e, chunks[k]), 0));
    }
  }

  lemma FrontOnly(hole: nat, front: seq<seq<Byte>>, back: seq<seq<Byte>>)
    ensures Deliver(front + back, AllThere(hole, |front|) + AllLost(|back|))
         == Deliver(front, AllThere(hole, |front|))
  {
    DeliverAppend(front, back, AllThere(hole, |front|), AllLost(|back|));
    NothingDelivered(back, AllLost(|back|));
  }

  lemma FrontLosesFrame(hole: nat, m: nat, n: nat)
    requires n >= 1
    ensures ValidFates(hole, AllThere(hole, m) + AllLost(n)) && !AllArrive(AllThere(hole, m) + AllLost(n))
  {
    assert (AllThere(hole, m) + AllLost(n))[m].Lost?;
  }

  /** When the count wraps to m, the first m chunks already make a report. */
  lemma TooManyChunks(hole: nat, chunks: seq<seq<Byte>>, f: U32, ns: U64) returns (y: seq<Fate>)
    requires |chunks| >= TWO16 && IsFrame(hole, chunks[..|chunks| - 1], f, ns, |chunks|)
    ensures |y| == |chunks| && Defeats(hole, chunks, f, ns, y)
  {
    var m := if Wrap16(|chunks|) == 0 then 1 else Wrap16(|chunks|);
    var front, back := chunks[..m], chunks[m..];
    assert chunks == front + back;
    assert forall i :: 0 <= i < m ==> front[i] == chunks[..|chunks| - 1][i];
    y := AllThere(hole, m) + AllLost(|back|);
    FrontLosesFrame(hole, m, |back|);
    EarlyReport(hole, front, f, ns, |chunks|);
    FrontOnly(hole, front, back);
  }

  // ------------------------------------------------ last chunk too short for its header

  lemma ShortTailSilent(hole: nat, front: seq<seq<Byte>>, tail: seq<Byte>, f: U32, ns: U64, n: nat)
    requires 1 <= |front| == n < TWO16 - 1 && IsFrame(hole, front, f, ns, n + 1)
    requires hole <= |tail| < hole + HEADER_BYTES
    ensures Reports(hole, Deliver(front + [tail], AllThere(hole, n + 1))) == []
  {
    var x, fate := AllThere(hole, n), Arrives(Zeros(hole), 0);
    assert AllThere(hole, n + 1) == x + [fate];
    FrameRun(hole, IDLE_TRACKER, front, f, ns, n + 1, x);
    DeliverSnoc(front, x, tail, fate);
    RunSnoc(Tracking(hole), IDLE_TRACKER, Deliver(front, x), Arrival(Overlay(fate.e2e, tail), fate.recvNs));
  }

  /** A frame whose last payload cannot hold a header is never reported, even without loss. */
  lemma ShortTailNeverReported(hole: nat, chunks: seq<seq<Byte>>, f: U32, ns: U64)
    requires 2 <= |chunks| < TWO16 && IsFrame(hole, chunks[..|chunks| - 1], f, ns, |chunks|)
    requires hole <= |chunks[|chunks| - 1]| < hole + HEADER_BYTES
    ensures Defeats(hole, chunks, f, ns, AllThere(hole, |chunks|))
  {
    var n := |chunks| - 1;
    assert chunks == chunks[..n] + [chunks[n]];
    ShortTailSilent(hole, chunks[..n], chunks[n], f, ns, n);
  }

  lemma ShortTail(hole: nat, size: nat, plan: ChunkPlan, f: U32, ns: U64)
    requires Sliceable(plan, size) && !HeadersFit(plan, size) && plan.len >= MIN_FRAME_BYTES && plan.count < TWO16
    ensures Defeats(hole, FrameChunks(hole, FrameBlock(size, plan, f, ns), plan, plan.count), f, ns,
                    AllThere(hole, plan.count))
  {
    var n := plan.count - 1;
    var b := FrameBlock(size, plan, f, ns);
    FrameChunksParse(hole, size, plan, f, ns);
    FrameChunksAt(hole, b, plan, plan.count, n);
    OffsetInside(plan, size, n);
    ShortTailNeverReported(hole, FrameChunks(hole, b, plan, plan.count), f, ns);
  }

  /** The planner does make such plans: 751 bytes over datagrams of 43 never get through. */
  lemma PlannedShortTail(hole: nat, clock: seq<U64>)
    requires 1 <= |clock| < TWO32
    ensures PlanChunks(751, 43) == Some(ChunkPlan(25, 31)) && Sliceable(ChunkPlan(25, 31), 751)
    ensures !ReportsSurvivors(hole, 751, ChunkPlan(25, 31), clock)
  {
    ShortTailPlan();
    ExactIffUsable(hole, 751, ChunkPlan(25, 31), clock);
  }

  /** Whatever the plan, the protocol delivers exactly the surviving frames if and only if the
      chunk count fits the header's uint16, the first chunk of a split frame is long enough for
      the stamp, and the last chunk is long enough for a header. */
  lemma ExactIffUsable(hole: nat, size: nat, plan: ChunkPlan, clock: seq<U64>)
    requires Sliceable(plan, size) && 1 <= |clock| < TWO32
    ensures ReportsSurvivors(hole, size, plan, clock)
       <==> plan.count < TWO16 && (plan.count == 1 || plan.len >= MIN_FRAME_BYTES)
            && LastChunk(plan, size) >= HEADER_BYTES
  {
    var c, ns := clock[..|clock| - 1], clock[|clock| - 1];
    assert clock == c + [ns];
    if Usable(plan, size) {
      forall fates | |fates| == ChunkTotal(|clock|, plan.count) && ValidFates(hole, fates)
        ensures SurvivorsReported(hole, size, plan, clock, fates)
      {
        LossyRunExact(hole, size, plan, clock, fates);
      }
    } else if plan.count > 1 && plan.len < MIN_FRAME_BYTES {
      ShortFirstChunk(hole, size, plan, |c|, ns);
      DefeatedBy(hole, size, plan, c, ns, AllThere(hole, plan.count));
    } else if plan.count >= TWO16 {
      FrameChunksParse(hole, size, plan, |c|, ns);
      var y := TooManyChunks(hole, FrameChunks(hole, FrameBlock(size, plan, |c|, ns), plan, plan.count), |c|, ns);
      DefeatedBy(hole, size, plan, c, ns, y);
    } else {
      ShortTail(hole, size, plan, |c|, ns);
      DefeatedBy(hole, size, plan, c, ns, AllThere(hole, plan.count));
    }
  }
}
