/** The subscriber: gaps, measured samples and the done flag (vsomeip/bench/event_client.cc). */
module Client {
  import opened Bytes
  import opened Folds
  import opened Fragment
  import opened Publisher
  import opened LossyRun

  datatype Account = Account(lastSeq: U32, gapCount: nat, latencies: seq<real>, done: bool)

  const NEW_ACCOUNT := Account(0, 0, [], false)

  /** One unsigned 32-bit addition or subtraction wraps. */
  function Wrap32(x: int): U32
    requires -TWO32 <= x < 2 * TWO32
  {
    if x < 0 then x + TWO32 else if x < TWO32 then x else x - TWO32
  }

  lemma Wrap32IsRemainder(x: int)
    requires -TWO32 <= x < 2 * TWO32
    ensures Wrap32(x) == x % TWO32
  {
  }

  function LatencyUs(r: Report): real {
    Wrap64(r.recvNs - r.frame.sendNs) as real / 1000.0
  }

  /** `int` options. */
  predicate IntOptions(opt: Options) {
    -0x8000_0000 <= opt.warmup < 0x8000_0000 && -0x8000_0000 <= opt.count < 0x8000_0000
  }

  /** The critical section of OnMessage for one reported frame. */
  function Accept(opt: Options, s: Account, r: Report): Account
    requires IntOptions(opt)
  {
    var seqNo := r.frame.seqNo;
    var gaps := if s.lastSeq != 0 && seqNo > Wrap32(s.lastSeq + 1)
                then s.gapCount + Wrap32(Wrap32(seqNo - s.lastSeq) - 1) else s.gapCount;
    if seqNo < Wrap32(opt.warmup) then Account(seqNo, gaps, s.latencies, s.done) else
    var latencies := s.latencies + [LatencyUs(r)];
    Account(seqNo, gaps, latencies, s.done || |latencies| >= opt.count)
  }

  function Accounts(opt: Options, reports: seq<Report>): Account
    requires IntOptions(opt)
    decreases |reports|
  {
    if reports == [] then NEW_ACCOUNT else
    Accept(opt, Accounts(opt, reports[..|reports| - 1]), reports[|reports| - 1])
  }

  lemma AccountsSnoc(opt: Options, reports: seq<Report>, last: Report)
    requires IntOptions(opt)
    ensures Accounts(opt, reports + [last]) == Accept(opt, Accounts(opt, reports), last)
  {
    assert (reports + [last])[..|reports|] == reports;
  }

  /** The subscriber object; its tracker is private to it. */
  class EventClient {
    const opt: Options
    const tracker: FrameTracker
    var lastSeq: U32
    var gapCount: nat
    var latencies: seq<real>
    var done: bool

    function Books(): Account
      reads this
    {
      Account(lastSeq, gapCount, latencies, done)
    }

    constructor (opt: Options, hole: nat)
      requires IntOptions(opt)
      ensures this.opt == opt && tracker.hole == hole && fresh(tracker)
      ensures tracker.State() == IDLE_TRACKER && Books() == NEW_ACCOUNT
    {
      this.opt := opt;
      var t := new FrameTracker(hole);
      tracker := t;
      lastSeq, gapCount, latencies, done := 0, 0, [], false;
    }

    /** A notification arrived at time recvNs. */
    method OnMessage(payload: seq<Byte>, recvNs: U64)
      requires IntOptions(opt)
      modifies this, tracker
      ensures var (t, frame) := TrackerStep(tracker.hole, old(tracker.State()), payload);
              && tracker.State() == t
              && Books() == if frame.None? then old(Books()) else Accept(opt, old(Books()), Report(frame.value, recvNs))
      ensures var frame := TrackerStep(tracker.hole, old(tracker.State()), payload).1;
              if frame.None? || frame.value.seqNo < opt.warmup % TWO32 then latencies == old(latencies)
              else latencies == old(latencies) + [((recvNs - frame.value.sendNs) % TWO64) as real / 1000.0]
    {
      Wrap32IsRemainder(opt.warmup);
      var frame := tracker.Ingest(payload);
      if frame.None? {
        return;
      }
      Wrap64IsRemainder(recvNs - frame.value.sendNs);
      var seqNo := frame.value.seqNo;
      var us := Wrap64(recvNs - frame.value.sendNs) as real / 1000.0;
      if lastSeq != 0 && seqNo > Wrap32(lastSeq + 1) {
        gapCount := gapCount + Wrap32(Wrap32(seqNo - lastSeq) - 1);
      }
      lastSeq := seqNo;
      if seqNo < Wrap32(opt.warmup) {
        return;
      }
      latencies := latencies + [us];
      if |latencies| >= opt.count {
        done := true;
      }
    }
  }

  // ------------------------------------------------ tracker and books together

  /** OnMessage over a sequence of arrivals. */
  function Receive(opt: Options, hole: nat, arrivals: seq<Arrival>): (TrackerState, Account)
    requires IntOptions(opt)
    decreases |arrivals|
  {
    if arrivals == [] then (IDLE_TRACKER, NEW_ACCOUNT) else
    var last := arrivals[|arrivals| - 1];
    var (s, books) := Receive(opt, hole, arrivals[..|arrivals| - 1]);
    var (t, frame) := TrackerStep(hole, s, last.payload);
    (t, if frame.None? then books else Accept(opt, books, Report(frame.value, last.recvNs)))
  }

  /** The subscriber object run over the arrivals. */
  method Subscribe(opt: Options, hole: nat, arrivals: seq<Arrival>) returns (client: EventClient)
    requires IntOptions(opt)
    ensures (client.tracker.State(), client.Books()) == Receive(opt, hole, arrivals)
  {
    client := new EventClient(opt, hole);
    for i := 0 to |arrivals|
      invariant client.opt == opt && client.tracker.hole == hole && fresh(client) && fresh(client.tracker)
      invariant (client.tracker.State(), client.Books()) == Receive(opt, hole, arrivals[..i])
    {
      assert arrivals[..i + 1][..i] == arrivals[..i];
      client.OnMessage(arrivals[i].payload, arrivals[i].recvNs);
    }
    assert arrivals[..|arrivals|] == arrivals;
  }

  lemma {:induction false} ReceiveIsAccounts(opt: Options, hole: nat, arrivals: seq<Arrival>)
    requires IntOptions(opt)
    ensures Receive(opt, hole, arrivals)
         == (Run(Tracking(hole), IDLE_TRACKER, arrivals).0, Accounts(opt, Reports(hole, arrivals)))
    decreases |arrivals|
  {
    if arrivals != [] {
      var a, last := arrivals[..|arrivals| - 1], arrivals[|arrivals| - 1];
      assert arrivals == a + [last];
      ReceiveIsAccounts(opt, hole, a);
      RunSnoc(Tracking(hole), IDLE_TRACKER, a, last);
      var (t, frame) := TrackerStep(hole, Run(Tracking(hole), IDLE_TRACKER, a).0, last.payload);
      if frame.Some? {
        AccountsSnoc(opt, Reports(hole, a), Report(frame.value, last.recvNs));
      } else {
        assert Reports(hole, a) + [] == Reports(hole, a);
      }
    }
  }

  // ----------------------------------------------------------------- accounting

  predicate Increasing(reports: seq<Report>) {
    && (forall i :: 0 <= i < |reports| ==> reports[i].frame.seqNo < 0x8000_0000)
    && (forall i, j :: 0 <= i < j < |reports| ==> reports[i].frame.seqNo < reports[j].frame.seqNo)
  }

  predicate Reported(reports: seq<Report>, f: nat) {
    exists i :: 0 <= i < |reports| && reports[i].frame.seqNo == f
  }

  /** How many frames of lo..hi-1 were not reported. */
  function Missing(reports: seq<Report>, lo: nat, hi: nat): (n: nat)
    decreases hi
  {
    if hi <= lo then 0 else Missing(reports, lo, hi - 1) + if Reported(reports, hi - 1) then 0 else 1
  }

  lemma {:induction false} MissingSame(a: seq<Report>, b: seq<Report>, lo: nat, hi: nat)
    requires forall f :: lo <= f < hi ==> Reported(a, f) == Reported(b, f)
    ensures Missing(a, lo, hi) == Missing(b, lo, hi)
    decreases hi
  {
    if lo < hi {
      MissingSame(a, b, lo, hi - 1);
    }
  }

  lemma {:induction false} MissingAll(reports: seq<Report>, lo: nat, mid: nat, hi: nat)
    requires lo <= mid <= hi && forall f :: mid <= f < hi ==> !Reported(reports, f)
    ensures Missing(reports, lo, hi) == Missing(reports, lo, mid) + hi - mid
    decreases hi
  {
    if mid < hi {
      MissingAll(reports, lo, mid, hi - 1);
    }
  }

  /** A report beyond everything so far settles all frames up to its own. */
  lemma MissingSnoc(reports: seq<Report>, last: Report, lo: nat, mid: nat)
    requires Increasing(reports + [last]) && lo <= mid <= last.frame.seqNo
    requires forall i :: 0 <= i < |reports| ==> reports[i].frame.seqNo < mid
    ensures Missing(reports + [last], lo, last.frame.seqNo + 1)
         == Missing(reports, lo, mid) + last.frame.seqNo - mid
  {
    var all, s := reports + [last], last.frame.seqNo;
    assert all[|reports|] == last;
    forall f | lo <= f < s ensures Reported(all, f) == Reported(reports, f) {
      if Reported(reports, f) {
        var i :| 0 <= i < |reports| && reports[i].frame.seqNo == f;
        assert all[i].frame.seqNo == f;
      }
    }
    MissingSame(all, reports, lo, s);
    MissingAll(reports, lo, mid, s);
  }

  /** Index of the first report other than frame 0's. */
  function FirstNonzero(reports: seq<Report>): nat {
    if reports != [] && reports[0].frame.seqNo == 0 then 1 else 0
  }

  lemma IncreasingPrefix(reports: seq<Report>, last: Report)
    requires Increasing(reports + [last])
    ensures Increasing(reports)
    ensures forall i :: 0 <= i < |reports| ==> reports[i].frame.seqNo < last.frame.seqNo
  {
    var all := reports + [last];
    assert forall i :: 0 <= i < |reports| ==> reports[i] == all[i];
    assert all[|reports|] == last;
  }

  /** What the books say about gaps: the frames missing between the first reported frame
      other than frame 0 and the last one; equivalently that range's length less the
      reports in it. */
  ghost predicate GapBooks(books: Account, reports: seq<Report>) {
    var z := FirstNonzero(reports);
    && z <= |reports|
    && books.lastSeq == (if reports == [] then 0 else reports[|reports| - 1].frame.seqNo)
    && (z == |reports| ==> books.gapCount == 0)
    && (z < |reports| ==>
          var first := reports[z].frame.seqNo;
          && first <= books.lastSeq
          && books.gapCount == Missing(reports, first, books.lastSeq + 1)
          && books.gapCount == books.lastSeq - first + 1 - (|reports| - z))
  }

  lemma GapStep(opt: Options, books: Account, reports: seq<Report>, last: Report)
    requires IntOptions(opt) && Increasing(reports + [last]) && GapBooks(books, reports)
    ensures GapBooks(Accept(opt, books, last), reports + [last])
  {
    IncreasingPrefix(reports, last);
    var all, z, s := reports + [last], FirstNonzero(reports), last.frame.seqNo;
    if z < |reports| {
      assert all[z] == reports[z] && all[0] == reports[0];
      MissingSnoc(reports, last, reports[z].frame.seqNo, books.lastSeq + 1);
    } else {
      MissingSnoc(reports, last, s, s);
    }
  }

  /** Gap conservation, for every increasing sequence of reports. */
  lemma {:induction false} GapsCountMissing(opt: Options, reports: seq<Report>)
    requires IntOptions(opt) && Increasing(reports)
    ensures GapBooks(Accounts(opt, reports), reports)
    decreases |reports|
  {
    if reports != [] {
      var a, last := reports[..|reports| - 1], reports[|reports| - 1];
      assert reports == a + [last];
      IncreasingPrefix(a, last);
      GapsCountMissing(opt, a);
      AccountsSnoc(opt, a, last);
      GapStep(opt, Accounts(opt, a), a, last);
    }
  }

  /** The counter equals the number of frames the whole run lost if and only if frames
      0, 1 and the final one were all reported (a run of one frame: if it was reported). */
  lemma GapsCompleteIff(opt: Options, reports: seq<Report>, total: nat)
    requires IntOptions(opt) && Increasing(reports) && total >= 1
    requires forall i :: 0 <= i < |reports| ==> reports[i].frame.seqNo < total
    ensures Accounts(opt, reports).gapCount == total - |reports|
       <==> Reported(reports, 0) && (total >= 2 ==> Reported(reports, 1) && Reported(reports, total - 1))
  {
    GapsCountMissing(opt, reports);
    var z := FirstNonzero(reports);
    ReportedAt(reports);
    if z < |reports| {
      assert reports[z].frame.seqNo >= 1;
      if Reported(reports, 1) {
        var i :| 0 <= i < |reports| && reports[i].frame.seqNo == 1;
        assert i == z;
      }
      if Reported(reports, total - 1) {
        var i :| 0 <= i < |reports| && reports[i].frame.seqNo == total - 1;
        assert i == |reports| - 1;
      }
    } else if Reported(reports, 1) {
      assert false;
    }
  }

  lemma ReportedAt(reports: seq<Report>)
    requires Increasing(reports)
    ensures Reported(reports, 0) <==> FirstNonzero(reports) == 1
    ensures forall i :: 0 <= i < |reports| ==> Reported(reports, reports[i].frame.seqNo)
    ensures FirstNonzero(reports) == |reports| ==> |reports| <= 1 && !Reported(reports, 1)
  {
    if Reported(reports, 0) {
      var i :| 0 <= i < |reports| && reports[i].frame.seqNo == 0;
      assert reports[0].frame.seqNo <= reports[i].frame.seqNo;
    }
  }

  /** The samples of the reports from `warmup` on. */
  function Measured(warmup: int, reports: seq<Report>): seq<real>
    decreases |reports|
  {
    if reports == [] then [] else
    var last := reports[|reports| - 1];
    Measured(warmup, reports[..|reports| - 1]) + if last.frame.seqNo >= warmup then [LatencyUs(last)] else []
  }

  lemma MeasuredSnoc(warmup: int, reports: seq<Report>, last: Report)
    ensures Measured(warmup, reports + [last])
         == Measured(warmup, reports) + if last.frame.seqNo >= warmup then [LatencyUs(last)] else []
  {
    assert (reports + [last])[..|reports|] == reports;
  }

  /** Samples taken and measured frames missed add up, whatever was lost. */
  lemma {:induction false} SamplesConserved(warmup: nat, reports: seq<Report>, hi: nat)
    requires Increasing(reports) && warmup <= hi
    requires forall i :: 0 <= i < |reports| ==> reports[i].frame.seqNo < hi
    ensures |Measured(warmup, reports)| + Missing(reports, warmup, hi) == hi - warmup
    decreases |reports|
  {
    if reports == [] {
      MissingAll(reports, warmup, warmup, hi);
    } else {
      var a, last := reports[..|reports| - 1], reports[|reports| - 1];
      assert reports == a + [last];
      IncreasingPrefix(a, last);
      MeasuredSnoc(warmup, a, last);
      var s := last.frame.seqNo;
      if s < warmup {
        SamplesConserved(warmup, a, hi);
        ReportedBeyond(a, last, warmup, hi);
        MissingSame(reports, a, warmup, hi);
      } else {
        SamplesConserved(warmup, a, s);
        MissingSnoc(a, last, warmup, s);
        ReportedBeyond(a, last, s + 1, hi);
        MissingAll(reports, warmup, s + 1, hi);
      }
    }
  }

  lemma ReportedBeyond(reports: seq<Report>, last: Report, lo: nat, hi: nat)
    requires Increasing(reports + [last]) && last.frame.seqNo < lo
    ensures forall f :: lo <= f < hi ==> !Reported(reports + [last], f) && !Reported(reports, f)
  {
    IncreasingPrefix(reports, last);
  }

  lemma {:induction false} BooksMeasure(opt: Options, reports: seq<Report>)
    requires IntOptions(opt) && opt.warmup >= 0 && opt.count >= 1
    ensures var books := Accounts(opt, reports);
            books.latencies == Measured(opt.warmup, reports) && (books.done <==> |books.latencies| >= opt.count)
    decreases |reports|
  {
    if reports != [] {
      var a, last := reports[..|reports| - 1], reports[|reports| - 1];
      assert reports == a + [last];
      BooksMeasure(opt, a);
      AccountsSnoc(opt, a, last);
      MeasuredSnoc(opt.warmup, a, last);
    }
  }

  /** The run is done if and only if no frame from `warmup` on is missing. */
  lemma DoneIffNothingMissing(opt: Options, reports: seq<Report>)
    requires IntOptions(opt) && opt.warmup >= 0 && opt.count >= 1 && Increasing(reports)
    requires forall i :: 0 <= i < |reports| ==> reports[i].frame.seqNo < opt.warmup + opt.count
    ensures var books := Accounts(opt, reports);
            && |books.latencies| + Missing(reports, opt.warmup, opt.warmup + opt.count) == opt.count
            && (books.done <==> Missing(reports, opt.warmup, opt.warmup + opt.count) == 0)
  {
    SamplesConserved(opt.warmup, reports, opt.warmup + opt.count);
    BooksMeasure(opt, reports);
  }

  /** And it becomes so on the final frame, no earlier. */
  lemma DoneOnFinalFrame(opt: Options, reports: seq<Report>, last: Report)
    requires IntOptions(opt) && opt.warmup >= 0 && opt.count >= 1 && Increasing(reports + [last])
    requires last.frame.seqNo < opt.warmup + opt.count
    ensures !Accounts(opt, reports).done
    ensures Accounts(opt, reports + [last]).done ==> last.frame.seqNo == opt.warmup + opt.count - 1
  {
    IncreasingPrefix(reports, last);
    var final := opt.warmup + opt.count - 1;
    assert !Reported(reports, final);
    DoneIffNothingMissing(opt, reports);
    assert Missing(reports, opt.warmup, final + 1) >= 1;
    if last.frame.seqNo < final {
      DoneIffNothingMissing(opt, reports + [last]);
      assert !Reported(reports + [last], final);
    }
  }

  /** A negative warm-up count is cast to a huge unsigned one: nothing is ever measured. */
  lemma {:induction false} NegativeWarmupNeverMeasures(opt: Options, reports: seq<Report>)
    requires IntOptions(opt) && opt.warmup < 0 && Increasing(reports)
    ensures Accounts(opt, reports).latencies == [] && !Accounts(opt, reports).done
    decreases |reports|
  {
    if reports != [] {
      var a, last := reports[..|reports| - 1], reports[|reports| - 1];
      assert reports == a + [last];
      IncreasingPrefix(a, last);
      NegativeWarmupNeverMeasures(opt, a);
      AccountsSnoc(opt, a, last);
      assert reports[|a|] == last;
    }
  }
}
