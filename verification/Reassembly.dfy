/** The tracker keeps no chunk, yet agrees with a receiver that keeps them all. */
module Reassembly {
  import opened Bytes
  import opened Folds
  import opened Fragment
  import opened Publisher
  import opened LossyRun
  import opened Exactness

  /** A full reassembler: the parts of the frame in progress. */
  datatype Assembly = Waiting | Building(seqNo: U32, sendNs: U64, parts: seq<seq<Byte>>)

  datatype Whole = Whole(report: Report, parts: seq<seq<Byte>>)

  /** A payload without the hole. */
  function Body(hole: nat, payload: seq<Byte>): seq<Byte>
    requires |payload| >= hole
  {
    Sub(payload, hole, |payload| - hole)
  }

  /** What is in progress once this header has been seen, before its own part is added. */
  function Opened(r: Assembly, hdr: ChunkHeader, stamp: Option<U64>): Assembly {
    if hdr.index != 0 then r
    else if stamp.None? then Waiting
    else Building(hdr.seqNo, stamp.value, [])
  }

  /** Adds the part if it is the next one, and hands out the frame when it was the last. */
  function Extended(r: Assembly, hdr: ChunkHeader, body: seq<Byte>, recvNs: U64): (Assembly, seq<Whole>) {
    if r.Waiting? || hdr.seqNo != r.seqNo || hdr.index != |r.parts| then (Waiting, []) else
    var parts := r.parts + [body];
    if |parts| < hdr.count then (r.(parts := parts), []) else
    (Waiting, [Whole(Report(CompletedFrame(r.seqNo, r.sendNs), recvNs), parts)])
  }

  function AssembleStep(hole: nat, r: Assembly, a: Arrival): (Assembly, seq<Whole>) {
    if !LongEnough(hole, a.payload) then (r, []) else
    var hdr := HeaderOf(a.payload, hole);
    Extended(Opened(r, hdr, StampIn(a.payload, hole)), hdr, Body(hole, a.payload), a.recvNs)
  }

  function Assembling(hole: nat): (Assembly, Arrival) -> (Assembly, seq<Whole>) {
    (r: Assembly, a: Arrival) => AssembleStep(hole, r, a)
  }

  // ------------------------------------------------------------- refinement

  /** The tracker's four fields are a summary of the reassembler. */
  predicate Summary(s: TrackerState, r: Assembly) {
    match r
    case Waiting => !s.active
    case Building(seqNo, sendNs, parts) =>
      s == TrackerState(true, seqNo, s.next, sendNs) && s.next == |parts| && |parts| + 1 < TWO16
  }

  function ReportsOf(frames: seq<Whole>): (reports: seq<Report>)
    ensures |reports| == |frames|
  {
    seq(|frames|, k requires 0 <= k < |frames| => frames[k].report)
  }

  lemma RefinementStep(hole: nat, s: TrackerState, r: Assembly, a: Arrival)
    requires Summary(s, r)
    ensures var (t, reports) := Tracking(hole)(s, a);
            var (q, frames) := AssembleStep(hole, r, a);
            Summary(t, q) && reports == ReportsOf(frames)
  {
  }

  /** On any arrivals at all, the constant-space tracker makes the very reports of the
      reassembler that stores every part. */
  lemma {:induction false} TrackerRefinesReassembler(hole: nat, arrivals: seq<Arrival>)
    ensures var (t, reports) := Run(Tracking(hole), IDLE_TRACKER, arrivals);
            var (r, frames) := Run(Assembling(hole), Waiting, arrivals);
            Summary(t, r) && reports == ReportsOf(frames)
    decreases |arrivals|
  {
    if arrivals != [] {
      var a, last := arrivals[..|arrivals| - 1], arrivals[|arrivals| - 1];
      assert arrivals == a + [last];
      TrackerRefinesReassembler(hole, a);
      RunSnoc(Tracking(hole), IDLE_TRACKER, a, last);
      RunSnoc(Assembling(hole), Waiting, a, last);
      RefinementStep(hole, Run(Tracking(hole), IDLE_TRACKER, a).0, Run(Assembling(hole), Waiting, a).0, last);
    }
  }

  // ------------------------------------------- what the stored parts always are

  /** The bodies of the arrivals that are long enough to hold a header. */
  function Bodies(hole: nat, arrivals: seq<Arrival>): seq<seq<Byte>>
    decreases |arrivals|
  {
    if arrivals == [] then [] else
    var last := arrivals[|arrivals| - 1];
    Bodies(hole, arrivals[..|arrivals| - 1]) + if LongEnough(hole, last.payload) then [Body(hole, last.payload)] else []
  }

  lemma BodiesSnoc(hole: nat, arrivals: seq<Arrival>, last: Arrival)
    ensures Bodies(hole, arrivals + [last])
         == Bodies(hole, arrivals) + if LongEnough(hole, last.payload) then [Body(hole, last.payload)] else []
  {
    assert (arrivals + [last])[..|arrivals|] == arrivals;
  }

  /** Part i says (seqNo, i); part 0 is stamped. */
  ghost predicate InOrder(seqNo: U32, sendNs: U64, parts: seq<seq<Byte>>) {
    forall i :: 0 <= i < |parts| ==> PartOf(seqNo, sendNs, i, parts[i])
  }

  ghost predicate PartOf(seqNo: U32, sendNs: U64, i: nat, part: seq<Byte>) {
    && |part| >= HEADER_BYTES
    && HeaderOf(part, 0).seqNo == seqNo && HeaderOf(part, 0).index == i
    && (i == 0 ==> StampIn(part, 0) == Some(sendNs))
  }

  /** The parts are the latest bodies, in order. */
  ghost predicate Latest(bodies: seq<seq<Byte>>, seqNo: U32, sendNs: U64, parts: seq<seq<Byte>>) {
    |parts| <= |bodies| && parts == Last(bodies, |parts|) && InOrder(seqNo, sendNs, parts)
  }

  lemma LatestGrows(bodies: seq<seq<Byte>>, seqNo: U32, sendNs: U64, parts: seq<seq<Byte>>, body: seq<Byte>)
    requires Latest(bodies, seqNo, sendNs, parts) && PartOf(seqNo, sendNs, |parts|, body)
    ensures Latest(bodies + [body], seqNo, sendNs, parts + [body])
  {
    var n := |parts| + 1;
    assert parts + [body] == Last(bodies + [body], n);
  }

  ghost predicate Keeps(bodies: seq<seq<Byte>>, r: Assembly) {
    r.Building? ==> Latest(bodies, r.seqNo, r.sendNs, r.parts)
  }

  /** The frame consists of the latest bodies, and its last chunk counts no more than there are. */
  ghost predicate MadeOf(bodies: seq<seq<Byte>>, w: Whole) {
    && Latest(bodies, w.report.frame.seqNo, w.report.frame.sendNs, w.parts)
    && |w.parts| >= 1
    && HeaderOf(w.parts[|w.parts| - 1], 0).count <= |w.parts|
    && (forall i :: 0 <= i < |w.parts| - 1 ==> i + 1 < HeaderOf(w.parts[i], 0).count)
  }

  /** All parts but the last announced more to come. */
  ghost predicate Unfinished(r: Assembly) {
    r.Building? ==>
      forall i :: 0 <= i < |r.parts| ==> |r.parts[i]| >= HEADER_BYTES && i + 1 < HeaderOf(r.parts[i], 0).count
  }

  lemma ExtendKeeps(bodies: seq<seq<Byte>>, r: Assembly, body: seq<Byte>, hdr: ChunkHeader, recvNs: U64)
    requires Keeps(bodies, r) && Unfinished(r)
    requires |body| >= HEADER_BYTES && HeaderOf(body, 0) == hdr
    requires r.Building? && hdr.index == 0 && r.parts == [] ==> StampIn(body, 0) == Some(r.sendNs)
    ensures var (q, frames) := Extended(r, hdr, body, recvNs);
            && Keeps(bodies + [body], q) && Unfinished(q)
            && |frames| <= 1 && (frames != [] ==> MadeOf(bodies + [body], frames[0]))
  {
    if r.Building? && hdr.seqNo == r.seqNo && hdr.index == |r.parts| {
      LatestGrows(bodies, r.seqNo, r.sendNs, r.parts, body);
      var parts := r.parts + [body];
      assert forall i :: 0 <= i < |r.parts| ==> parts[i] == r.parts[i];
    }
  }

  lemma AssembleKeeps(hole: nat, bodies: seq<seq<Byte>>, r: Assembly, a: Arrival)
    requires Keeps(bodies, r) && Unfinished(r) && LongEnough(hole, a.payload)
    ensures var (q, frames) := AssembleStep(hole, r, a);
            var more := bodies + [Body(hole, a.payload)];
            && Keeps(more, q) && Unfinished(q)
            && |frames| <= 1 && (frames != [] ==> MadeOf(more, frames[0]))
  {
    var hdr, stamp, body := HeaderOf(a.payload, hole), StampIn(a.payload, hole), Body(hole, a.payload);
    DecodesAlike(a.payload, hole, body, 0);
    var r' := Opened(r, hdr, stamp);
    ExtendKeeps(bodies, r', body, hdr, a.recvNs);
  }

  lemma {:induction false} AssemblyInvariant(hole: nat, arrivals: seq<Arrival>)
    ensures var r := Run(Assembling(hole), Waiting, arrivals).0;
            Keeps(Bodies(hole, arrivals), r) && Unfinished(r)
    decreases |arrivals|
  {
    if arrivals != [] {
      var a, last := arrivals[..|arrivals| - 1], arrivals[|arrivals| - 1];
      assert arrivals == a + [last];
      AssemblyInvariant(hole, a);
      RunSnoc(Assembling(hole), Waiting, a, last);
      BodiesSnoc(hole, a, last);
      if LongEnough(hole, last.payload) {
        AssembleKeeps(hole, Bodies(hole, a), Run(Assembling(hole), Waiting, a).0, last);
      }
    }
  }

  // ------------------------------------------------------------ honest arrivals

  /** The body is chunk i of frame f of this run. */
  ghost predicate IsChunk(size: nat, plan: ChunkPlan, clock: seq<U64>, body: seq<Byte>, f: nat, i: nat)
    requires Sliceable(plan, size) && |clock| < TWO32
  {
    f < |clock| && i < plan.count && body == Slice(FrameBlock(size, plan, f, clock[f]), plan, i)
  }

  /** Chunks of this run, in any order, repeated or missing, with anything in the hole,
      and payloads too short for a header in between. */
  ghost predicate Honest(hole: nat, size: nat, plan: ChunkPlan, clock: seq<U64>, arrivals: seq<Arrival>)
    requires Sliceable(plan, size) && |clock| < TWO32
  {
    forall body :: body in Bodies(hole, arrivals) ==> exists f, i :: IsChunk(size, plan, clock, body, f, i)
  }

  /** The header's uint16 fields hold the plan, and a first chunk can carry its stamp. */
  predicate Readable(plan: ChunkPlan) {
    plan.count < TWO16 && plan.len >= MIN_FRAME_BYTES
  }

  lemma ChunkSays(size: nat, plan: ChunkPlan, clock: seq<U64>, body: seq<Byte>, f: nat, i: nat)
    requires Sliceable(plan, size) && Readable(plan) && |clock| < TWO32
    requires IsChunk(size, plan, clock, body, f, i) && |body| >= HEADER_BYTES
    ensures HeaderOf(body, 0) == ChunkHeader(f, i, plan.count)
    ensures i == 0 ==> StampIn(body, 0) == Some(clock[f])
  {
    SliceDecodes(Fill(size), plan, f, clock[f], i);
  }

  /** A part that is some chunk of the run is the chunk its header names. */
  lemma PartIsChunk(size: nat, plan: ChunkPlan, clock: seq<U64>, seqNo: U32, sendNs: U64, i: nat, part: seq<Byte>)
    requires Sliceable(plan, size) && Readable(plan) && |clock| < TWO32 && PartOf(seqNo, sendNs, i, part)
    requires exists f, j :: IsChunk(size, plan, clock, part, f, j)
    ensures IsChunk(size, plan, clock, part, seqNo, i) && HeaderOf(part, 0).count == plan.count
    ensures i == 0 ==> sendNs == clock[seqNo]
  {
    var f, j :| IsChunk(size, plan, clock, part, f, j);
    ChunkSays(size, plan, clock, part, f, j);
  }

  lemma PartsAreChunks(hole: nat, size: nat, plan: ChunkPlan, clock: seq<U64>, arrivals: seq<Arrival>, w: Whole)
    requires Sliceable(plan, size) && Readable(plan) && |clock| < TWO32
    requires Honest(hole, size, plan, clock, arrivals)
    requires MadeOf(Bodies(hole, arrivals), w)
    ensures var frame := w.report.frame;
            && |w.parts| == plan.count && frame.seqNo < |clock| && frame.sendNs == clock[frame.seqNo]
            && (forall i :: 0 <= i < plan.count ==> IsChunk(size, plan, clock, w.parts[i], frame.seqNo, i))
  {
    var frame, bodies, n := w.report.frame, Bodies(hole, arrivals), |w.parts|;
    forall i | 0 <= i < n
      ensures IsChunk(size, plan, clock, w.parts[i], frame.seqNo, i) && HeaderOf(w.parts[i], 0).count == plan.count
    {
      assert w.parts[i] == bodies[|bodies| - n + i];
      assert w.parts[i] in bodies;
      PartIsChunk(size, plan, clock, frame.seqNo, frame.sendNs, i, w.parts[i]);
    }
    PartIsChunk(size, plan, clock, frame.seqNo, frame.sendNs, 0, w.parts[0]);
  }

  /** What a report means on any bytes whatever: the latest well-formed arrivals carry
      the indices 0..n-1 of one seq, the first of them holds the reported time, and the
      last of them is the first to announce no more than has arrived. */
  lemma ReportMadeOf(hole: nat, earlier: seq<Arrival>, last: Arrival) returns (w: Whole)
    requires TrackerStep(hole, Run(Tracking(hole), IDLE_TRACKER, earlier).0, last.payload).1.Some?
    ensures Some(w.report.frame) == TrackerStep(hole, Run(Tracking(hole), IDLE_TRACKER, earlier).0, last.payload).1
    ensures MadeOf(Bodies(hole, earlier + [last]), w)
  {
    TrackerRefinesReassembler(hole, earlier);
    AssemblyInvariant(hole, earlier);
    var s, r := Run(Tracking(hole), IDLE_TRACKER, earlier).0, Run(Assembling(hole), Waiting, earlier).0;
    RefinementStep(hole, s, r, last);
    BodiesSnoc(hole, earlier, last);
    AssembleKeeps(hole, Bodies(hole, earlier), r, last);
    w := AssembleStep(hole, r, last).1[0];
  }

  /** The arrivals end with the chunks 0..count-1 of the reported frame in order; joined
      they are the publisher's block byte for byte, and the time is that frame's stamp. */
  ghost predicate Sound(hole: nat, size: nat, plan: ChunkPlan, clock: seq<U64>, arrivals: seq<Arrival>,
                        frame: CompletedFrame)
    requires Sliceable(plan, size) && |clock| < TWO32
  {
    var bodies := Bodies(hole, arrivals);
    && frame.seqNo < |clock| && frame.sendNs == clock[frame.seqNo]
    && plan.count <= |bodies|
    && (forall i :: 0 <= i < plan.count ==> IsChunk(size, plan, clock, Last(bodies, plan.count)[i], frame.seqNo, i))
    && Concat(Last(bodies, plan.count)) == FrameBlock(size, plan, frame.seqNo, clock[frame.seqNo])
  }

  lemma {:induction false} BodyListed(hole: nat, arrivals: seq<Arrival>, i: nat)
    requires i < |arrivals| && LongEnough(hole, arrivals[i].payload)
    ensures Body(hole, arrivals[i].payload) in Bodies(hole, arrivals)
    decreases |arrivals|
  {
    if i < |arrivals| - 1 {
      BodyListed(hole, arrivals[..|arrivals| - 1], i);
    }
  }

  lemma HonestLength(hole: nat, size: nat, plan: ChunkPlan, clock: seq<U64>, arrivals: seq<Arrival>, i: nat)
    requires Sliceable(plan, size) && plan.len < MIN_FRAME_BYTES && |clock| < TWO32
    requires Honest(hole, size, plan, clock, arrivals) && i < |arrivals|
    ensures |arrivals[i].payload| < hole + MIN_FRAME_BYTES
  {
    if LongEnough(hole, arrivals[i].payload) {
      BodyListed(hole, arrivals, i);
      var f, j :| IsChunk(size, plan, clock, Body(hole, arrivals[i].payload), f, j);
      OffsetInside(plan, size, j);
    }
  }

  /** With chunks too short for a stamp no frame is ever begun, so none is reported. */
  lemma ShortNeverReport(hole: nat, size: nat, plan: ChunkPlan, clock: seq<U64>, earlier: seq<Arrival>, last: Arrival)
    requires Sliceable(plan, size) && plan.len < MIN_FRAME_BYTES && |clock| < TWO32
    requires Honest(hole, size, plan, clock, earlier + [last])
    ensures TrackerStep(hole, Run(Tracking(hole), IDLE_TRACKER, earlier).0, last.payload).1 == None
  {
    var all := earlier + [last];
    forall i | 0 <= i < |all| ensures |all[i].payload| < hole + MIN_FRAME_BYTES {
      HonestLength(hole, size, plan, clock, all, i);
    }
    assert forall i :: 0 <= i < |earlier| ==> earlier[i] == all[i];
    assert all[|earlier|] == last;
    ShortChunks(hole, earlier);
    ShortStep(hole, Run(Tracking(hole), IDLE_TRACKER, earlier).0, last);
  }

  /** Every report is sound under reordering, duplication and loss of chunks, whatever the plan,
      as long as the chunk count fits the header's uint16. */
  lemma ReportSound(hole: nat, size: nat, plan: ChunkPlan, clock: seq<U64>, earlier: seq<Arrival>, last: Arrival)
    requires Sliceable(plan, size) && (plan.count < TWO16 || plan.len < MIN_FRAME_BYTES) && |clock| < TWO32
    requires Honest(hole, size, plan, clock, earlier + [last])
    ensures var report := TrackerStep(hole, Run(Tracking(hole), IDLE_TRACKER, earlier).0, last.payload).1;
            report.Some? ==> Sound(hole, size, plan, clock, earlier + [last], report.value)
  {
    if plan.len < MIN_FRAME_BYTES {
      ShortNeverReport(hole, size, plan, clock, earlier, last);
    } else if TrackerStep(hole, Run(Tracking(hole), IDLE_TRACKER, earlier).0, last.payload).1.Some? {
      var w := ReportMadeOf(hole, earlier, last);
      PartsAreChunks(hole, size, plan, clock, earlier + [last], w);
      ChunksPartition(FrameBlock(size, plan, w.report.frame.seqNo, clock[w.report.frame.seqNo]), plan, w.parts);
    }
  }
}
