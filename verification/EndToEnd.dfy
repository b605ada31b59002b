/** From the publish loop through a lossy channel to the subscriber's printed numbers. */
module EndToEnd {
  import opened Bytes
  import opened Folds
  import opened Fragment
  import opened Publisher
  import opened LossyRun
  import opened Client
  import opened Exactness

  /** The fates of frame f's chunks in a run of n frames. */
  function FrameFates(count: nat, n: nat, fates: seq<Fate>, f: nat): (row: seq<Fate>)
    requires |fates| == ChunkTotal(n, count) && f < n
    ensures |row| == count
    decreases n
  {
    if f == n - 1 then Last(fates, count) else FrameFates(count, n - 1, fates[..|fates| - count], f)
  }

  /** Frame f lost no chunk. */
  predicate Survived(count: nat, n: nat, fates: seq<Fate>, f: nat)
    requires |fates| == ChunkTotal(n, count)
  {
    f < n && AllArrive(FrameFates(count, n, fates, f))
  }

  lemma {:induction false} SurvivorsIncreasing(count: nat, clock: seq<U64>, fates: seq<Fate>)
    requires count >= 1 && |clock| < 0x8000_0000 && |fates| == ChunkTotal(|clock|, count)
    ensures Increasing(Survivors(count, clock, fates))
    ensures forall i :: 0 <= i < |Survivors(count, clock, fates)| ==>
              Survivors(count, clock, fates)[i].frame.seqNo < |clock|
    decreases |clock|
  {
    if clock != [] {
      SurvivorsIncreasing(count, clock[..|clock| - 1], fates[..|fates| - count]);
    }
  }

  /** A report is among the survivors exactly when its frame survived, and says when that
      frame was stamped and when its last chunk came in. */
  lemma {:induction false} SurvivorsAreReports(count: nat, clock: seq<U64>, fates: seq<Fate>, r: Report)
    requires count >= 1 && |clock| < 0x8000_0000 && |fates| == ChunkTotal(|clock|, count)
    ensures r in Survivors(count, clock, fates)
       <==> var f := r.frame.seqNo;
            && Survived(count, |clock|, fates, f)
            && r == Report(CompletedFrame(f, clock[f]), FrameFates(count, |clock|, fates, f)[count - 1].recvNs)
    decreases |clock|
  {
    if clock != [] {
      var f := |clock| - 1;
      var x := fates[..|fates| - count];
      SurvivorsAreReports(count, clock[..f], x, r);
      SurvivorsIncreasing(count, clock[..f], x);
      assert r in Survivors(count, clock, fates)
        <==> r in Survivors(count, clock[..f], x) || r in FrameReport(f, clock[f], Last(fates, count));
    }
  }

  lemma ReportedIffSurvived(count: nat, clock: seq<U64>, fates: seq<Fate>, f: nat)
    requires count >= 1 && |clock| < 0x8000_0000 && |fates| == ChunkTotal(|clock|, count)
    ensures Reported(Survivors(count, clock, fates), f) <==> Survived(count, |clock|, fates, f)
  {
    var reports := Survivors(count, clock, fates);
    if Reported(reports, f) {
      var i :| 0 <= i < |reports| && reports[i].frame.seqNo == f;
      assert reports[i] in reports;
      SurvivorsAreReports(count, clock, fates, reports[i]);
    }
    if Survived(count, |clock|, fates, f) {
      var r := Report(CompletedFrame(f, clock[f]), FrameFates(count, |clock|, fates, f)[count - 1].recvNs);
      SurvivorsAreReports(count, clock, fates, r);
      var i :| 0 <= i < |reports| && reports[i] == r;
    }
  }

  /** How many of the frames lo..hi-1 lost a chunk. */
  function LostFrames(count: nat, n: nat, fates: seq<Fate>, lo: nat, hi: nat): (lost: nat)
    requires |fates| == ChunkTotal(n, count)
    decreases hi
  {
    if hi <= lo then 0 else
    LostFrames(count, n, fates, lo, hi - 1) + if Survived(count, n, fates, hi - 1) then 0 else 1
  }

  lemma {:induction false} MissingAreLost(count: nat, clock: seq<U64>, fates: seq<Fate>, lo: nat, hi: nat)
    requires count >= 1 && |clock| < 0x8000_0000 && |fates| == ChunkTotal(|clock|, count)
    ensures Missing(Survivors(count, clock, fates), lo, hi) == LostFrames(count, |clock|, fates, lo, hi)
    decreases hi
  {
    if lo < hi {
      MissingAreLost(count, clock, fates, lo, hi - 1);
      ReportedIffSurvived(count, clock, fates, hi - 1);
    }
  }

  lemma {:induction false} NoneLost(count: nat, n: nat, fates: seq<Fate>, lo: nat, hi: nat)
    requires |fates| == ChunkTotal(n, count)
    ensures LostFrames(count, n, fates, lo, hi) == 0 <==> forall f :: lo <= f < hi ==> Survived(count, n, fates, f)
    decreases hi
  {
    if lo < hi {
      NoneLost(count, n, fates, lo, hi - 1);
    }
  }

  // ----------------------------------------------------------- at any moment of the run

  /** The same losses up to chunk k, and nothing after it: what has got through by then. */
  function CutOff(fates: seq<Fate>, k: nat): (cut: seq<Fate>)
    requires k <= |fates|
    ensures |cut| == |fates|
  {
    fates[..k] + AllLost(|fates| - k)
  }

  lemma CutOffDelivers(sent: seq<seq<Byte>>, fates: seq<Fate>, k: nat)
    requires |sent| == |fates| && k <= |fates|
    ensures Deliver(sent, CutOff(fates, k)) == Deliver(sent[..k], fates[..k])
  {
    assert sent == sent[..k] + sent[k..];
    DeliverAppend(sent[..k], sent[k..], fates[..k], AllLost(|fates| - k));
    NothingDelivered(sent[k..], AllLost(|fates| - k));
  }

  lemma CutOffValid(hole: nat, fates: seq<Fate>, k: nat)
    requires ValidFates(hole, fates) && k <= |fates|
    ensures ValidFates(hole, CutOff(fates, k))
  {
  }

  lemma CutOffLast(count: nat, fates: seq<Fate>, k: nat)
    requires 1 <= count <= |fates| && k <= |fates|
    ensures AllArrive(Last(CutOff(fates, k), count)) <==> k == |fates| && AllArrive(Last(fates, count))
  {
    if k == |fates| {
      assert CutOff(fates, k) == fates;
    } else {
      assert Last(CutOff(fates, k), count)[count - 1].Lost?;
    }
  }

  lemma {:induction false} TotalMonotone(m: nat, n: nat, count: nat)
    requires m <= n
    ensures ChunkTotal(m, count) <= ChunkTotal(n, count)
    decreases n
  {
    if m < n {
      TotalMonotone(m, n - 1, count);
    }
  }

  /** A frame has got through by chunk k exactly when it loses no chunk and its last one is out. */
  lemma {:induction false} SurvivedByThen(count: nat, n: nat, fates: seq<Fate>, k: nat, f: nat)
    requires count >= 1 && |fates| == ChunkTotal(n, count) && k <= |fates|
    ensures Survived(count, n, CutOff(fates, k), f) <==> Survived(count, n, fates, f) && ChunkTotal(f + 1, count) <= k
    decreases n
  {
    if f == n - 1 {
      CutOffLast(count, fates, k);
    } else if f < n - 1 {
      var start := |fates| - count;
      var j := if k < start then k else start;
      assert CutOff(fates, k)[..start] == CutOff(fates[..start], j);
      SurvivedByThen(count, n - 1, fates[..start], j, f);
      TotalMonotone(f + 1, n - 1, count);
    }
  }

  function ChunkCount(pub: Options): nat
    requires Publishable(pub)
  {
    ChoosePlan(pub).value.count
  }

  /** Two programs with their own options: `pub` plans and publishes, `sub` counts. Frame f is
      stamped clock[f], and the chunks meet these fates. */
  ghost predicate Session(pub: Options, sub: Options, hole: nat, clock: seq<U64>, fates: seq<Fate>) {
    && IntOptions(sub) && Publishable(pub) && Usable(ChoosePlan(pub).value, pub.size)
    && |clock| == FrameCount(pub) && |fates| == ChunkTotal(|clock|, ChunkCount(pub)) && ValidFates(hole, fates)
  }

  /** The subscriber's books when the first k chunks were sent and what survived of them arrived. */
  function BooksAt(pub: Options, sub: Options, hole: nat, clock: seq<U64>, fates: seq<Fate>, k: nat): Account
    requires IntOptions(sub) && Publishable(pub) && |clock| == FrameCount(pub)
    requires |fates| == ChunkTotal(|clock|, ChunkCount(pub)) && k <= |fates|
  {
    Receive(sub, hole, Deliver(Published(hole, pub.size, ChoosePlan(pub).value, clock)[..k], fates[..k])).1
  }

  lemma BooksOfSurvivors(pub: Options, sub: Options, hole: nat, clock: seq<U64>, fates: seq<Fate>, k: nat)
    requires Session(pub, sub, hole, clock, fates) && k <= |fates|
    ensures BooksAt(pub, sub, hole, clock, fates, k)
         == Accounts(sub, Survivors(ChunkCount(pub), clock, CutOff(fates, k)))
  {
    var plan := ChoosePlan(pub).value;
    CutOffDelivers(Published(hole, pub.size, plan, clock), fates, k);
    CutOffValid(hole, fates, k);
    LossyRunExact(hole, pub.size, plan, clock, CutOff(fates, k));
    ReceiveIsAccounts(sub, hole, Deliver(Published(hole, pub.size, plan, clock), CutOff(fates, k)));
  }

  /** first..last spans the surviving frames other than frame 0. */
  ghost predicate Spans(count: nat, n: nat, fates: seq<Fate>, first: nat, last: nat)
    requires |fates| == ChunkTotal(n, count)
  {
    && 1 <= first <= last && Survived(count, n, fates, first) && Survived(count, n, fates, last)
    && (forall f :: 1 <= f < first || last < f < n ==> !Survived(count, n, fates, f))
  }

  /** The first and the last surviving frame are where the reports begin and end. */
  lemma EndsAre(count: nat, clock: seq<U64>, fates: seq<Fate>, first: nat, last: nat)
    requires count >= 1 && |clock| < 0x8000_0000 && |fates| == ChunkTotal(|clock|, count)
    requires Spans(count, |clock|, fates, first, last)
    ensures var reports := Survivors(count, clock, fates);
            var z := FirstNonzero(reports);
            z < |reports| && reports[z].frame.seqNo == first && reports[|reports| - 1].frame.seqNo == last
  {
    var reports := Survivors(count, clock, fates);
    var z := FirstNonzero(reports);
    SurvivorsIncreasing(count, clock, fates);
    ReportedAt(reports);
    ReportedIffSurvived(count, clock, fates, first);
    ReportedIffSurvived(count, clock, fates, last);
    var i :| 0 <= i < |reports| && reports[i].frame.seqNo == first;
    var j :| 0 <= j < |reports| && reports[j].frame.seqNo == last;
    ReportedIffSurvived(count, clock, fates, reports[z].frame.seqNo);
    ReportedIffSurvived(count, clock, fates, reports[|reports| - 1].frame.seqNo);
  }

  lemma GapsOfSurvivors(opt: Options, count: nat, clock: seq<U64>, fates: seq<Fate>, first: nat, last: nat)
    requires IntOptions(opt) && count >= 1 && |clock| < 0x8000_0000 && |fates| == ChunkTotal(|clock|, count)
    requires Spans(count, |clock|, fates, first, last)
    ensures Accounts(opt, Survivors(count, clock, fates)).gapCount == LostFrames(count, |clock|, fates, first, last + 1)
  {
    SurvivorsIncreasing(count, clock, fates);
    GapsCountMissing(opt, Survivors(count, clock, fates));
    EndsAre(count, clock, fates, first, last);
    MissingAreLost(count, clock, fates, first, last + 1);
  }

  /** Nothing but, at most, frame 0 came through. */
  ghost predicate NoneSpanned(count: nat, n: nat, fates: seq<Fate>)
    requires |fates| == ChunkTotal(n, count)
  {
    forall f :: 1 <= f < n ==> !Survived(count, n, fates, f)
  }

  lemma NoGapsBeforeFirst(opt: Options, count: nat, clock: seq<U64>, fates: seq<Fate>)
    requires IntOptions(opt) && count >= 1 && |clock| < 0x8000_0000 && |fates| == ChunkTotal(|clock|, count)
    requires NoneSpanned(count, |clock|, fates)
    ensures Accounts(opt, Survivors(count, clock, fates)).gapCount == 0
  {
    var reports := Survivors(count, clock, fates);
    SurvivorsIncreasing(count, clock, fates);
    GapsCountMissing(opt, reports);
    ReportedAt(reports);
    var z := FirstNonzero(reports);
    if z < |reports| {
      ReportedIffSurvived(count, clock, fates, reports[z].frame.seqNo);
    }
  }

  lemma {:induction false} LastSurvivor(count: nat, n: nat, fates: seq<Fate>, f: nat, hi: nat) returns (last: nat)
    requires |fates| == ChunkTotal(n, count) && Survived(count, n, fates, f) && f < hi <= n
    requires forall g :: hi <= g < n ==> !Survived(count, n, fates, g)
    ensures f <= last && Survived(count, n, fates, last) && forall g :: last < g < n ==> !Survived(count, n, fates, g)
    decreases hi
  {
    if Survived(count, n, fates, hi - 1) {
      last := hi - 1;
    } else {
      last := LastSurvivor(count, n, fates, f, hi - 1);
    }
  }

  lemma {:induction false} FirstSurvivor(count: nat, n: nat, fates: seq<Fate>, f: nat, lo: nat) returns (first: nat)
    requires |fates| == ChunkTotal(n, count) && Survived(count, n, fates, f) && 1 <= lo <= f
    requires forall g :: 1 <= g < lo ==> !Survived(count, n, fates, g)
    ensures 1 <= first <= f && Survived(count, n, fates, first)
    ensures forall g :: 1 <= g < first ==> !Survived(count, n, fates, g)
    decreases f - lo
  {
    if Survived(count, n, fates, lo) {
      first := lo;
    } else {
      first := FirstSurvivor(count, n, fates, f, lo + 1);
    }
  }

  /** Gaps end to end, for every loss pattern and whenever the count is printed: it is the number
      of frames that had not got through between the first frame, other than frame 0, and the last
      frame that had; and 0 when there was no such frame. */
  lemma GapsEndToEnd(pub: Options, sub: Options, hole: nat, clock: seq<U64>, fates: seq<Fate>, k: nat)
      returns (first: nat, last: nat)
    requires Session(pub, sub, hole, clock, fates) && k <= |fates|
    ensures var count, n, cut := ChunkCount(pub), |clock|, CutOff(fates, k);
            var gaps := BooksAt(pub, sub, hole, clock, fates, k).gapCount;
            if NoneSpanned(count, n, cut) then gaps == 0
            else Spans(count, n, cut, first, last) && gaps == LostFrames(count, n, cut, first, last + 1)
  {
    hide Session, BooksAt, Accounts, Survivors;
    assert IntOptions(sub) && Publishable(pub) && |clock| == FrameCount(pub) && ChunkCount(pub) >= 1
        && |fates| == ChunkTotal(|clock|, ChunkCount(pub)) by {
      SessionShape(pub, sub, hole, clock, fates);
    }
    var count, n, cut := ChunkCount(pub), |clock|, CutOff(fates, k);
    BooksOfSurvivors(pub, sub, hole, clock, fates, k);
    first, last := 0, 0;
    if f: nat :| 1 <= f < n && Survived(count, n, cut, f) {
      first := FirstSurvivor(count, n, cut, f, 1);
      last := LastSurvivor(count, n, cut, f, n);
      GapsOfSurvivors(sub, count, clock, cut, first, last);
    } else {
      NoGapsBeforeFirst(sub, count, clock, cut);
    }
  }

  lemma SessionShape(pub: Options, sub: Options, hole: nat, clock: seq<U64>, fates: seq<Fate>)
    requires Session(pub, sub, hole, clock, fates)
    ensures IntOptions(sub) && Publishable(pub) && |clock| == FrameCount(pub) < 0x8000_0000
    ensures ChunkCount(pub) >= 1 && |fates| == ChunkTotal(|clock|, ChunkCount(pub))
  {
  }

  // ------------------------------------------------------------------ the sample values

  /** The time from a frame's stamp to the arrival of its last chunk, in microseconds; the code's
      unsigned difference wraps if the arrival is read before the stamp. */
  function FrameUs(sendNs: U64, recvNs: U64): real {
    if recvNs >= sendNs then (recvNs - sendNs) as real / 1000.0 else (recvNs - sendNs + TWO64) as real / 1000.0
  }

  /** One sample per surviving frame of lo..hi-1, in frame order. */
  function FrameSamples(count: nat, clock: seq<U64>, fates: seq<Fate>, lo: nat, hi: nat): seq<real>
    requires count >= 1 && |fates| == ChunkTotal(|clock|, count)
    decreases hi
  {
    if hi <= lo then [] else
    FrameSamples(count, clock, fates, lo, hi - 1)
    + if Survived(count, |clock|, fates, hi - 1)
      then [FrameUs(clock[hi - 1], FrameFates(count, |clock|, fates, hi - 1)[count - 1].recvNs)] else []
  }

  lemma SurvivedPrefix(count: nat, clock: seq<U64>, fates: seq<Fate>, f: nat)
    requires count >= 1 && |fates| == ChunkTotal(|clock|, count) && f + 1 < |clock|
    ensures var n, x := |clock| - 1, fates[..|fates| - count];
            && |x| == ChunkTotal(n, count)
            && FrameFates(count, |clock|, fates, f) == FrameFates(count, n, x, f)
            && (Survived(count, |clock|, fates, f) <==> Survived(count, n, x, f))
  {
  }

  lemma {:induction false} SamplesOfPrefix(count: nat, clock: seq<U64>, fates: seq<Fate>, lo: nat, hi: nat)
    requires count >= 1 && |fates| == ChunkTotal(|clock|, count) && hi < |clock|
    ensures FrameSamples(count, clock, fates, lo, hi)
         == FrameSamples(count, clock[..|clock| - 1], fates[..|fates| - count], lo, hi)
    decreases hi
  {
    hide Survived, FrameFates, FrameUs;
    if lo < hi {
      SamplesOfPrefix(count, clock, fates, lo, hi - 1);
      SurvivedPrefix(count, clock, fates, hi - 1);
    }
  }

  lemma MeasuredReport(warmup: nat, reports: seq<Report>, f: U32, ns: U64, fates: seq<Fate>)
    requires fates != []
    ensures Measured(warmup, reports + FrameReport(f, ns, fates))
         == Measured(warmup, reports)
            + if AllArrive(fates) && f >= warmup then [FrameUs(ns, fates[|fates| - 1].recvNs)] else []
  {
    if AllArrive(fates) {
      MeasuredSnoc(warmup, reports, Report(CompletedFrame(f, ns), fates[|fates| - 1].recvNs));
    } else {
      assert reports + [] == reports;
    }
  }

  /** The measured latencies are exactly those. */
  lemma {:induction false} MeasuredSamples(warmup: nat, count: nat, clock: seq<U64>, fates: seq<Fate>)
    requires count >= 1 && |clock| < 0x8000_0000 && |fates| == ChunkTotal(|clock|, count)
    ensures Measured(warmup, Survivors(count, clock, fates)) == FrameSamples(count, clock, fates, warmup, |clock|)
    decreases |clock|
  {
    if clock != [] {
      var f := |clock| - 1;
      var x := fates[..|fates| - count];
      MeasuredSamples(warmup, count, clock[..f], x);
      MeasuredReport(warmup, Survivors(count, clock[..f], x), f, clock[f], Last(fates, count));
      SamplesOfPrefix(count, clock, fates, warmup, f);
    }
  }

  function Max(a: nat, b: nat): nat {
    if a < b then b else a
  }

  lemma SamplesOfSurvivors(sub: Options, count: nat, clock: seq<U64>, fates: seq<Fate>)
    requires IntOptions(sub) && sub.warmup >= 0 && sub.count >= 1
    requires count >= 1 && |clock| < 0x8000_0000 && |fates| == ChunkTotal(|clock|, count)
    ensures var books, hi := Accounts(sub, Survivors(count, clock, fates)), Max(sub.warmup, |clock|);
            && books.latencies == Measured(sub.warmup, Survivors(count, clock, fates))
            && |books.latencies| + LostFrames(count, |clock|, fates, sub.warmup, hi) == hi - sub.warmup
            && (books.done <==> |books.latencies| >= sub.count)
  {
    hide Measured, Accounts;
    var reports, hi := Survivors(count, clock, fates), Max(sub.warmup, |clock|);
    SurvivorsIncreasing(count, clock, fates);
    BooksMeasure(sub, reports);
    SamplesConserved(sub.warmup, reports, hi);
    MissingAreLost(count, clock, fates, sub.warmup, hi);
  }

  /** Samples end to end, for every loss pattern and at any moment: one per frame from the
      subscriber's `warmup` on that has got through, in frame order, each from that frame's stamp to
      the arrival of its last chunk; so samples and the other frames add up; and done means that
      there are `count` of them. */
  lemma SamplesEndToEnd(pub: Options, sub: Options, hole: nat, clock: seq<U64>, fates: seq<Fate>, k: nat)
    requires Session(pub, sub, hole, clock, fates) && k <= |fates| && sub.warmup >= 0 && sub.count >= 1
    ensures var count, n, cut := ChunkCount(pub), |clock|, CutOff(fates, k);
            var books, hi := BooksAt(pub, sub, hole, clock, fates, k), Max(sub.warmup, n);
            && books.latencies == FrameSamples(count, clock, cut, sub.warmup, n)
            && |books.latencies| + LostFrames(count, n, cut, sub.warmup, hi) == hi - sub.warmup
            && (books.done <==> |books.latencies| >= sub.count)
  {
    BooksOfSurvivors(pub, sub, hole, clock, fates, k);
    SamplesOfSurvivors(sub, ChunkCount(pub), clock, CutOff(fates, k));
    MeasuredSamples(sub.warmup, ChunkCount(pub), clock, CutOff(fates, k));
  }

  /** Both programs were given the same frame counts. */
  predicate SameCounts(pub: Options, sub: Options) {
    pub.warmup == sub.warmup >= 0 && pub.count == sub.count >= 1
  }

  /** Then samples and frames not got through add up to `count`, and the subscriber is done if and
      only if every frame from `warmup` on has got through. */
  lemma DoneEndToEnd(pub: Options, sub: Options, hole: nat, clock: seq<U64>, fates: seq<Fate>, k: nat)
    requires Session(pub, sub, hole, clock, fates) && k <= |fates| && SameCounts(pub, sub)
    ensures var count, n, cut := ChunkCount(pub), |clock|, CutOff(fates, k);
            var books := BooksAt(pub, sub, hole, clock, fates, k);
            && |books.latencies| + LostFrames(count, n, cut, sub.warmup, n) == sub.count
            && (books.done <==> forall f :: sub.warmup <= f < n ==> Survived(count, n, cut, f))
  {
    SamplesEndToEnd(pub, sub, hole, clock, fates, k);
    NoneLost(ChunkCount(pub), |clock|, CutOff(fates, k), sub.warmup, |clock|);
  }

  /** So it becomes done with the final frame's last chunk and no earlier. */
  lemma DoneNoEarlier(pub: Options, sub: Options, hole: nat, clock: seq<U64>, fates: seq<Fate>, k: nat)
    requires Session(pub, sub, hole, clock, fates) && k < |fates| && SameCounts(pub, sub)
    ensures !BooksAt(pub, sub, hole, clock, fates, k).done
  {
    DoneEndToEnd(pub, sub, hole, clock, fates, k);
    SurvivedByThen(ChunkCount(pub), |clock|, fates, k, |clock| - 1);
  }
}
