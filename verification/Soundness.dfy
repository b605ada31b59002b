/** Exactly which plans make every report sound. */
module Soundness {
  import opened Bytes
  import opened Folds
  import opened Fragment
  import opened Publisher
  import opened LossyRun
  import opened Exactness
  import opened Reassembly

  /** On any chunks of the run, in any order, repeated or missing, every report is sound. */
  ghost predicate ReportsAreSound(hole: nat, size: nat, plan: ChunkPlan, clock: seq<U64>)
    requires Sliceable(plan, size) && |clock| < TWO32
  {
    forall earlier, last | Honest(hole, size, plan, clock, earlier + [last]) ::
      SoundStep(hole, size, plan, clock, earlier, last)
  }

  ghost predicate SoundStep(hole: nat, size: nat, plan: ChunkPlan, clock: seq<U64>,
                            earlier: seq<Arrival>, last: Arrival)
    requires Sliceable(plan, size) && |clock| < TWO32
  {
    var report := TrackerStep(hole, Run(Tracking(hole), IDLE_TRACKER, earlier).0, last.payload).1;
    report.Some? ==> Sound(hole, size, plan, clock, earlier + [last], report.value)
  }

  // ------------------------------------------------ the front of a frame with too many chunks

  /** The first n chunks of frame 0, none of them lost. */
  function Front(hole: nat, size: nat, plan: ChunkPlan, ns: U64, n: nat): seq<Arrival>
    requires Sliceable(plan, size) && n <= plan.count
  {
    Deliver(FrameChunks(hole, FrameBlock(size, plan, 0, ns), plan, n), AllThere(hole, n))
  }

  function Next(hole: nat, size: nat, plan: ChunkPlan, ns: U64, n: nat): Arrival
    requires Sliceable(plan, size) && n < plan.count
  {
    Arrival(Overlay(Zeros(hole), Payload(hole, FrameBlock(size, plan, 0, ns), plan, n)), 0)
  }

  lemma FrontGrows(hole: nat, size: nat, plan: ChunkPlan, ns: U64, n: nat)
    requires Sliceable(plan, size) && n < plan.count
    ensures Front(hole, size, plan, ns, n + 1) == Front(hole, size, plan, ns, n) + [Next(hole, size, plan, ns, n)]
  {
    var b := FrameBlock(size, plan, 0, ns);
    assert AllThere(hole, n + 1) == AllThere(hole, n) + [Arrives(Zeros(hole), 0)];
    DeliverSnoc(FrameChunks(hole, b, plan, n), AllThere(hole, n), Payload(hole, b, plan, n), Arrives(Zeros(hole), 0));
  }

  lemma NextIsChunk(hole: nat, size: nat, plan: ChunkPlan, clock: seq<U64>, n: nat)
    requires Sliceable(plan, size) && n < plan.count && 1 <= |clock| < TWO32
    ensures var a := Next(hole, size, plan, clock[0], n);
            |a.payload| >= hole && IsChunk(size, plan, clock, Body(hole, a.payload), 0, n)
  {
    var b := FrameBlock(size, plan, 0, clock[0]);
    assert Body(hole, Next(hole, size, plan, clock[0], n).payload) == Slice(b, plan, n);
  }

  lemma HonestSnoc(hole: nat, size: nat, plan: ChunkPlan, clock: seq<U64>, arrivals: seq<Arrival>,
                   a: Arrival, f: nat, i: nat)
    requires Sliceable(plan, size) && |clock| < TWO32 && Honest(hole, size, plan, clock, arrivals)
    requires |a.payload| >= hole && IsChunk(size, plan, clock, Body(hole, a.payload), f, i)
    ensures Honest(hole, size, plan, clock, arrivals + [a])
    ensures |Bodies(hole, arrivals + [a])| <= |Bodies(hole, arrivals)| + 1
  {
    hide IsChunk;
    BodiesSnoc(hole, arrivals, a);
  }

  lemma {:induction false} FrontHonest(hole: nat, size: nat, plan: ChunkPlan, clock: seq<U64>, n: nat)
    requires Sliceable(plan, size) && n <= plan.count && 1 <= |clock| < TWO32
    ensures Honest(hole, size, plan, clock, Front(hole, size, plan, clock[0], n))
    ensures |Bodies(hole, Front(hole, size, plan, clock[0], n))| <= n
    decreases n
  {
    if n > 0 {
      hide Honest, IsChunk, Front, Next, Bodies;
      FrontHonest(hole, size, plan, clock, n - 1);
      FrontGrows(hole, size, plan, clock[0], n - 1);
      NextIsChunk(hole, size, plan, clock, n - 1);
      HonestSnoc(hole, size, plan, clock, Front(hole, size, plan, clock[0], n - 1),
                 Next(hole, size, plan, clock[0], n - 1), 0, n - 1);
    }
  }

  lemma FrontParses(hole: nat, size: nat, plan: ChunkPlan, ns: U64, n: nat)
    requires Sliceable(plan, size) && plan.len >= MIN_FRAME_BYTES && n < plan.count
    ensures IsFrame(hole, FrameChunks(hole, FrameBlock(size, plan, 0, ns), plan, n), 0, ns, plan.count)
  {
    var b := FrameBlock(size, plan, 0, ns);
    forall i | 0 <= i < n ensures Carries(hole, FrameChunks(hole, b, plan, n)[i], 0, ns, i, plan.count) {
      ChunkHoldsHeader(plan, size, i);
      FrameChunksAt(hole, b, plan, n, i);
      PayloadCarries(hole, size, plan, 0, ns, i);
    }
  }

  /** A report made from fewer arrivals than the frame has chunks is not sound. */
  lemma TooFewBodies(hole: nat, size: nat, plan: ChunkPlan, clock: seq<U64>, earlier: seq<Arrival>, last: Arrival)
    requires Sliceable(plan, size) && |clock| < TWO32 && |Bodies(hole, earlier + [last])| < plan.count
    requires TrackerStep(hole, Run(Tracking(hole), IDLE_TRACKER, earlier).0, last.payload).1.Some?
    ensures !SoundStep(hole, size, plan, clock, earlier, last)
  {
    hide Bodies, TrackerStep, Run, IsChunk;
  }

  lemma UnsoundStep(hole: nat, size: nat, plan: ChunkPlan, clock: seq<U64>, earlier: seq<Arrival>, last: Arrival)
    requires Sliceable(plan, size) && |clock| < TWO32
    requires Honest(hole, size, plan, clock, earlier + [last]) && !SoundStep(hole, size, plan, clock, earlier, last)
    ensures !ReportsAreSound(hole, size, plan, clock)
  {
    hide Honest, SoundStep;
  }

  /** When the count wraps to m, chunk m - 1 completes a frame of which the rest is missing. */
  lemma EarlyReportUnsound(hole: nat, size: nat, plan: ChunkPlan, clock: seq<U64>)
    requires Sliceable(plan, size) && plan.count >= TWO16 && plan.len >= MIN_FRAME_BYTES && 1 <= |clock| < TWO32
    ensures !ReportsAreSound(hole, size, plan, clock)
  {
    hide Honest, SoundStep, ReportsAreSound, Front, Next, Bodies, TrackerStep, Run;
    var ns := clock[0];
    var m := if Wrap16(plan.count) == 0 then 1 else Wrap16(plan.count);
    var earlier, last := Front(hole, size, plan, ns, m - 1), Next(hole, size, plan, ns, m - 1);
    FrontGrows(hole, size, plan, ns, m - 1);
    FrontHonest(hole, size, plan, clock, m);
    EarlyFront(hole, size, plan, ns, m);
    TooFewBodies(hole, size, plan, clock, earlier, last);
    UnsoundStep(hole, size, plan, clock, earlier, last);
  }

  lemma FrontRun(hole: nat, size: nat, plan: ChunkPlan, ns: U64, n: nat)
    requires Sliceable(plan, size) && plan.len >= MIN_FRAME_BYTES && n < plan.count
    requires n <= 1 || n <= Wrap16(plan.count)
    ensures var (t, reports) := Run(Tracking(hole), IDLE_TRACKER, Front(hole, size, plan, ns, n));
            EarlyOutcome(t, reports, 0, ns, plan.count, n)
  {
    hide EarlyOutcome, IsFrame, FrameBlock;
    FrontParses(hole, size, plan, ns, n);
    EarlyReport(hole, FrameChunks(hole, FrameBlock(size, plan, 0, ns), plan, n), 0, ns, plan.count);
  }

  lemma EarlyFront(hole: nat, size: nat, plan: ChunkPlan, ns: U64, m: nat)
    requires Sliceable(plan, size) && plan.count >= TWO16 && plan.len >= MIN_FRAME_BYTES
    requires m == if Wrap16(plan.count) == 0 then 1 else Wrap16(plan.count)
    ensures TrackerStep(hole, Run(Tracking(hole), IDLE_TRACKER, Front(hole, size, plan, ns, m - 1)).0,
                        Next(hole, size, plan, ns, m - 1).payload).1.Some?
  {
    hide Front, Next, TrackerStep, Run, Wrap16;
    FrontRun(hole, size, plan, ns, m - 1);
    FrontRun(hole, size, plan, ns, m);
    FrontGrows(hole, size, plan, ns, m - 1);
    RunSnoc(Tracking(hole), IDLE_TRACKER, Front(hole, size, plan, ns, m - 1), Next(hole, size, plan, ns, m - 1));
  }

  /** Whatever the plan: all reports are sound if and only if the chunk count fits the header's
      uint16, or no chunk is long enough to begin a frame. */
  lemma SoundIff(hole: nat, size: nat, plan: ChunkPlan, clock: seq<U64>)
    requires Sliceable(plan, size) && 1 <= |clock| < TWO32
    ensures ReportsAreSound(hole, size, plan, clock) <==> plan.count < TWO16 || plan.len < MIN_FRAME_BYTES
  {
    if plan.count < TWO16 || plan.len < MIN_FRAME_BYTES {
      forall earlier, last | Honest(hole, size, plan, clock, earlier + [last])
        ensures SoundStep(hole, size, plan, clock, earlier, last)
      {
        ReportSound(hole, size, plan, clock, earlier, last);
      }
    } else {
      EarlyReportUnsound(hole, size, plan, clock);
    }
  }
}
