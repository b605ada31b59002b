/** The publish loop: one shared block, re-stamped for every frame and sent slice by
    slice (vsomeip/bench/event_service.cc). */
module Publisher {
  import opened Bytes
  import opened Fragment

  datatype Options = Options(tcp: bool, size: U64, maxDatagram: U64, warmup: int, count: int)

  function ChoosePlan(opt: Options): Option<ChunkPlan> {
    if opt.tcp then Some(ChunkPlan(1, opt.size)) else PlanChunks(opt.size, opt.maxDatagram)
  }

  /** The loop runs `warmup + count` times, or not at all when that is negative. */
  function FrameCount(opt: Options): nat {
    if opt.warmup + opt.count > 0 then opt.warmup + opt.count else 0
  }

  /** The run stays inside C++'s defined arithmetic: `int` holds the frame count and planning
      does not divide by zero. */
  predicate Publishable(opt: Options) {
    && opt.warmup + opt.count < 0x8000_0000
    && ChoosePlan(opt).Some?
    && Sliceable(ChoosePlan(opt).value, opt.size)
  }

  /** Beyond that nothing is asked of a frame that fits in memory and that the service accepts. */
  lemma PublishableIff(opt: Options)
    requires opt.size < 0x8000_0000_0000_0000
    ensures Publishable(opt)
       <==> opt.size >= MIN_FRAME_BYTES && ChoosePlan(opt).Some? && opt.warmup + opt.count < 0x8000_0000
  {
    if opt.size >= MIN_FRAME_BYTES && ChoosePlan(opt).Some? {
      if opt.tcp {
        assert Offset(ChunkPlan(1, opt.size), 1) == Offset(ChunkPlan(1, opt.size), 0) + opt.size;
      } else {
        PlanShape(opt.size, opt.maxDatagram, ChoosePlan(opt).value);
      }
    }
  }

  function FillByte(j: nat): Byte {
    Wrap8(j * 131)
  }

  function Fill(size: nat): (b: seq<Byte>)
    ensures |b| == size
  {
    seq(size, j requires 0 <= j < size => FillByte(j))
  }

  /** The block while frame seqNo is on its way. */
  function FrameBlock(size: nat, plan: ChunkPlan, seqNo: U32, sendNs: U64): (b: seq<Byte>)
    requires Sliceable(plan, size)
    ensures |b| == size
  {
    Stamped(Fill(size), plan, seqNo, sendNs)
  }

  function Zeros(n: nat): (z: seq<Byte>)
    ensures |z| == n
  {
    seq(n, i => 0)
  }

  /** The payload of one notify: room for the in-place E2E header, then the slice. */
  function Payload(hole: nat, b: seq<Byte>, plan: ChunkPlan, i: nat): (p: seq<Byte>)
    requires Covers(plan, |b|) && i < plan.count
    ensures |p| == hole + ChunkLen(plan, |b|, i)
  {
    Zeros(hole) + Slice(b, plan, i)
  }

  /** The first n payloads of a frame. */
  function FrameChunks(hole: nat, b: seq<Byte>, plan: ChunkPlan, n: nat): (sent: seq<seq<Byte>>)
    requires Covers(plan, |b|) && n <= plan.count
    ensures |sent| == n
    decreases n
  {
    if n == 0 then [] else FrameChunks(hole, b, plan, n - 1) + [Payload(hole, b, plan, n - 1)]
  }

  /** frames * count, by repeated addition. */
  function ChunkTotal(frames: nat, count: nat): nat {
    if frames == 0 then 0 else ChunkTotal(frames - 1, count) + count
  }

  /** Everything handed to notify in a run whose frame f was stamped clock[f]. */
  function Published(hole: nat, size: nat, plan: ChunkPlan, clock: seq<U64>): (sent: seq<seq<Byte>>)
    requires Sliceable(plan, size) && |clock| < TWO32
    ensures |sent| == ChunkTotal(|clock|, plan.count)
    decreases |clock|
  {
    if clock == [] then [] else
    var f := |clock| - 1;
    Published(hole, size, plan, clock[..f])
    + FrameChunks(hole, FrameBlock(size, plan, f, clock[f]), plan, plan.count)
  }

  // ------------------------------------------------------------- what is sent, in plain terms

  lemma FillIs(size: nat, j: nat)
    requires j < size
    ensures Fill(size)[j] == (j * 131) % 256
  {
    ByteSplit(j * 131);
  }

  /** Every byte of a published block that is neither header nor stamp still holds the fill. */
  lemma FrameBlockFill(size: nat, plan: ChunkPlan, seqNo: U32, sendNs: U64, j: nat)
    requires Sliceable(plan, size) && j < size && IsPayload(plan, j)
    ensures FrameBlock(size, plan, seqNo, sendNs)[j] == (j * 131) % 256
  {
    PayloadKept(Fill(size), plan, seqNo, sendNs, j);
    FillIs(size, j);
  }

  lemma {:induction false} ChunkTotalIsProduct(frames: nat, count: nat)
    ensures ChunkTotal(frames, count) == frames * count
    decreases frames
  {
    if frames > 0 {
      ChunkTotalIsProduct(frames - 1, count);
      assert frames * count == (frames - 1) * count + count;
    }
  }

  lemma {:induction false} FrameLengths(hole: nat, b: seq<Byte>, plan: ChunkPlan, n: nat)
    requires Covers(plan, |b|) && n <= plan.count
    ensures forall i :: 0 <= i < n ==>
              |FrameChunks(hole, b, plan, n)[i]| == hole + ChunkLen(plan, |b|, i) <= hole + plan.len
    decreases n
  {
    if n > 0 {
      FrameLengths(hole, b, plan, n - 1);
    }
  }

  ghost predicate NoneLonger(sent: seq<seq<Byte>>, bound: int) {
    forall k :: 0 <= k < |sent| ==> |sent[k]| <= bound
  }

  ghost predicate AllOf(sent: seq<seq<Byte>>, length: nat) {
    forall k :: 0 <= k < |sent| ==> |sent[k]| == length
  }

  lemma {:induction false} SentLengths(hole: nat, size: nat, plan: ChunkPlan, clock: seq<U64>)
    requires Sliceable(plan, size) && |clock| < TWO32
    ensures NoneLonger(Published(hole, size, plan, clock), hole + plan.len)
    ensures plan == ChunkPlan(1, size) ==> AllOf(Published(hole, size, plan, clock), hole + size)
    decreases |clock|
  {
    if clock != [] {
      var f := |clock| - 1;
      SentLengths(hole, size, plan, clock[..f]);
      FrameLengths(hole, FrameBlock(size, plan, f, clock[f]), plan, plan.count);
      assert Offset(plan, 0) == 0;
    }
  }

  /** Payload i of frame f stands at position f * count + i and carries slice i of that frame's block. */
  lemma {:induction false} PublishedAt(hole: nat, size: nat, plan: ChunkPlan, clock: seq<U64>, f: nat, i: nat)
    requires Sliceable(plan, size) && f < |clock| < TWO32 && i < plan.count
    ensures ChunkTotal(f, plan.count) + i < ChunkTotal(|clock|, plan.count)
    ensures Published(hole, size, plan, clock)[ChunkTotal(f, plan.count) + i]
         == Zeros(hole) + Slice(FrameBlock(size, plan, f, clock[f]), plan, i)
    decreases |clock|
  {
    var n := |clock| - 1;
    if f < n {
      PublishedAt(hole, size, plan, clock[..n], f, i);
    } else {
      FramePayloadAt(hole, FrameBlock(size, plan, f, clock[f]), plan, plan.count, i);
    }
  }

  lemma {:induction false} FramePayloadAt(hole: nat, b: seq<Byte>, plan: ChunkPlan, n: nat, i: nat)
    requires Covers(plan, |b|) && i < n <= plan.count
    ensures FrameChunks(hole, b, plan, n)[i] == Zeros(hole) + Slice(b, plan, i)
    decreases n
  {
    if i < n - 1 {
      FramePayloadAt(hole, b, plan, n - 1, i);
    }
  }

  /** A way to cut a frame into parts that fit the datagram beside the E2E header. */
  ghost predicate IsSplit(parts: seq<nat>, size: nat, maxDatagram: nat) {
    Sum(parts) == size && forall k :: 0 <= k < |parts| ==> parts[k] + E2E_HEADER_BYTES <= maxDatagram
  }

  /** TCP: one notify a frame, whole. */
  ghost predicate SentWhole(sent: seq<seq<Byte>>, frames: nat, hole: nat, size: nat) {
    |sent| == frames && AllOf(sent, hole + size)
  }

  /** UDP: every notify leaves its datagram room for the E2E header, and no way of cutting the
      frames into parts that do so needs fewer. */
  ghost predicate SentInFewest(sent: seq<seq<Byte>>, frames: nat, hole: nat, size: nat, maxDatagram: nat) {
    && NoneLonger(sent, hole + maxDatagram - E2E_HEADER_BYTES)
    && forall parts :: IsSplit(parts, size, maxDatagram) ==> |sent| <= frames * |parts|
  }

  lemma PublishedWhole(opt: Options, hole: nat, clock: seq<U64>)
    requires Publishable(opt) && opt.tcp && |clock| < TWO32
    ensures SentWhole(Published(hole, opt.size, ChoosePlan(opt).value, clock), |clock|, hole, opt.size)
  {
    SentLengths(hole, opt.size, ChoosePlan(opt).value, clock);
    ChunkTotalIsProduct(|clock|, 1);
  }

  lemma PublishedInFewest(opt: Options, hole: nat, clock: seq<U64>)
    requires Publishable(opt) && !opt.tcp && opt.size < 0x8000_0000_0000_0000 && |clock| < TWO32
    ensures opt.maxDatagram > E2E_HEADER_BYTES
    ensures SentInFewest(Published(hole, opt.size, ChoosePlan(opt).value, clock), |clock|,
                         hole, opt.size, opt.maxDatagram)
  {
    var plan := ChoosePlan(opt).value;
    var sent := Published(hole, opt.size, plan, clock);
    PlanShape(opt.size, opt.maxDatagram, plan);
    SentLengths(hole, opt.size, plan, clock);
    ChunkTotalIsProduct(|clock|, plan.count);
    forall parts | IsSplit(parts, opt.size, opt.maxDatagram) ensures |sent| <= |clock| * |parts| {
      PlanFewest(opt.size, opt.maxDatagram, plan, parts);
      MulLe(plan.count, |parts|, |clock|);
    }
  }

  method FillBlock(size: nat) returns (block: array<Byte>)
    ensures fresh(block) && block.Length == size && block[..] == Fill(size)
    ensures forall j :: 0 <= j < size ==> block[j] == (j * 131) % 256
  {
    block := new Byte[size];
    for j := 0 to block.Length
      invariant forall k :: 0 <= k < j ==> block[k] == FillByte(k)
    {
      block[j] := Wrap8(j * 131);
    }
    assert block[..] == Fill(size);
    forall j | 0 <= j < size ensures block[j] == (j * 131) % 256 {
      FillIs(size, j);
    }
  }

  /** The inner loop: slices the block and notifies chunk by chunk. */
  method SendFrame(hole: nat, block: array<Byte>, plan: ChunkPlan) returns (sent: seq<seq<Byte>>)
    requires Sliceable(plan, block.Length)
    ensures sent == FrameChunks(hole, block[..], plan, plan.count)
  {
    sent := [];
    for c := 0 to plan.count
      invariant sent == FrameChunks(hole, block[..], plan, c)
    {
      OffsetInside(plan, block.Length, c);
      OffsetIsProduct(plan, c);
      var off := c * plan.len;
      var n := if plan.len < block.Length - off then plan.len else block.Length - off;
      var buf := Zeros(hole) + block[off..off + n];
      assert block[off..off + n] == Slice(block[..], plan, c);
      sent := sent + [buf];
    }
  }

  /** What the block holds after the loop published `last`: the fill under that frame's headers. */
  ghost function BlockAfter(fill: seq<Byte>, plan: ChunkPlan, last: Option<CompletedFrame>): (b: seq<Byte>)
    requires Sliceable(plan, |fill|)
    ensures |b| == |fill|
  {
    if last.None? then fill else Stamped(fill, plan, last.value.seqNo, last.value.sendNs)
  }

  /** Headers and stamp of the next frame, over whatever the previous frame left. */
  method StampFrame(block: array<Byte>, plan: ChunkPlan, seqNo: U32, sendNs: U64,
                    ghost fill: seq<Byte>, ghost last: Option<CompletedFrame>)
    requires Sliceable(plan, block.Length) && |fill| == block.Length
    requires block[..] == BlockAfter(fill, plan, last)
    modifies block
    ensures block[..] == BlockAfter(fill, plan, Some(CompletedFrame(seqNo, sendNs)))
  {
    WriteChunkHeaders(block, seqNo, plan);
    StampSendNs(block, sendNs);
    if last.Some? {
      NoResidue(fill, plan, last.value.seqNo, last.value.sendNs, seqNo, sendNs);
    }
  }

  /** The publish loop. `clock` holds the reading of the steady clock taken for each frame. */
  method Worker(opt: Options, hole: nat, clock: seq<U64>) returns (sent: seq<seq<Byte>>)
    requires Publishable(opt) && |clock| == FrameCount(opt)
    ensures sent == Published(hole, opt.size, ChoosePlan(opt).value, clock)
    ensures var frames := if opt.warmup + opt.count > 0 then opt.warmup + opt.count else 0;
            && |clock| == frames
            && (opt.tcp ==> SentWhole(sent, frames, hole, opt.size))
            && (!opt.tcp && opt.size < 0x8000_0000_0000_0000 ==>
                  opt.maxDatagram > E2E_HEADER_BYTES && SentInFewest(sent, frames, hole, opt.size, opt.maxDatagram))
  {
    var seqNo: U32 := 0;
    var plan := ChoosePlan(opt).value;
    var block := FillBlock(opt.size);
    sent := [];
    ghost var last: Option<CompletedFrame> := None;
    for i := 0 to FrameCount(opt)
      invariant seqNo == i
      invariant block[..] == BlockAfter(Fill(opt.size), plan, last)
      invariant sent == Published(hole, opt.size, plan, clock[..i])
    {
      StampFrame(block, plan, seqNo, clock[i], Fill(opt.size), last);
      last := Some(CompletedFrame(seqNo, clock[i]));
      var chunks := SendFrame(hole, block, plan);
      sent := sent + chunks;
      assert clock[..i + 1][..i] == clock[..i];
      seqNo := seqNo + 1;
    }
    assert clock[..FrameCount(opt)] == clock;
    if opt.tcp {
      PublishedWhole(opt, hole, clock);
    } else if opt.size < 0x8000_0000_0000_0000 {
      PublishedInFewest(opt, hole, clock);
    }
  }
}
