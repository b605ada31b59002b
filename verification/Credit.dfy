/** Credit-limited publishing between two threads (RunMtOneWay, the same in the
    Cyclone, Subspace and Zenoh benchmarks): every atomic access is one step, and the
    steps of the two threads interleave freely. */
module Credit {

  const MAX_IN_FLIGHT := 2
  const HISTORY_DEPTH := 4
  const MT_SLOTS := 8
  const FIFO_DEPTH := 8

  /** Where the publisher thread stands. */
  datatype PublisherPlace =
    | TestStop      // about to read `stop`
    | TestCredit    // about to compare in_flight with the limit
    | TakeSeq       // about to draw a sequence number
    | Write         // about to hand the sample to the middleware
    | Count         // the sample is out; about to increment in_flight
    | Exited

  /** Where the subscriber thread stands. */
  datatype SubscriberPlace =
    | Poll          // draining or waiting: about to take a sample
    | Load          // holds a sample; about to read in_flight into `cur`
    | Cas(cur: int) // in the compare-and-swap loop
    | Left          // out of the loop; has set `stop`

  /** `queued` counts samples written and not yet consumed. The last three fields are
      bookkeeping for the statements: credits that were never returned, how many of
      those were skipped by the loop at cur == 0, and writes after `stop` was set. */
  datatype State = State(
    stop: bool, inFlight: int, seqNo: nat, queued: int,
    pub: PublisherPlace, sub: SubscriberPlace,
    lost: int, skipped: int, late: int)

  const INITIAL := State(false, 0, 0, 0, TestStop, Poll, 0, 0, 0)

  datatype Step =
    | PubTestStop
    | PubTestCredit
    | PubTakeSeq
    | PubWriteOk
    | PubWriteRetry   // failed or no buffer, and the loop continues
    | PubWriteAbort   // failed, and the thread leaves
    | PubCount
    | SubTake         // a sample that returns a credit
    | SubTakeInvalid  // a sample whose metadata is unreadable: no credit comes back
    | SubEmpty
    | SubLoad
    | SubCasOk
    | SubCasFail      // lost a race or failed spuriously; `cur` is reloaded
    | SubCasExit      // cur <= 0 ends the loop without a decrement
    | SubLeave
    | NetDrop         // the middleware loses a written sample

  predicate Enabled(s: State, st: Step) {
    match st
    case PubTestStop => s.pub.TestStop?
    case PubTestCredit => s.pub.TestCredit?
    case PubTakeSeq => s.pub.TakeSeq?
    case PubWriteOk => s.pub.Write?
    case PubWriteRetry => s.pub.Write?
    case PubWriteAbort => s.pub.Write?
    case PubCount => s.pub.Count?
    case SubTake => s.sub.Poll? && s.queued > 0
    case SubTakeInvalid => s.sub.Poll? && s.queued > 0
    case SubEmpty => s.sub.Poll? && s.queued == 0
    case SubLoad => s.sub.Load?
    case SubCasOk => s.sub.Cas? && s.sub.cur > 0 && s.sub.cur == s.inFlight
    case SubCasFail => s.sub.Cas? && s.sub.cur > 0
    case SubCasExit => s.sub.Cas? && s.sub.cur <= 0
    case SubLeave => s.sub.Poll?
    case NetDrop => s.queued > 0
  }

  function Next(s: State, st: Step): State
    requires Enabled(s, st)
  {
    match st
    case PubTestStop => s.(pub := if s.stop then Exited else TestCredit)
    case PubTestCredit => s.(pub := if s.inFlight >= MAX_IN_FLIGHT then TestStop else TakeSeq)
    case PubTakeSeq => s.(seqNo := s.seqNo + 1, pub := Write)
    case PubWriteOk => s.(queued := s.queued + 1, pub := Count, late := s.late + if s.stop then 1 else 0)
    case PubWriteRetry => s.(pub := TestStop)
    case PubWriteAbort => s.(pub := Exited)
    case PubCount => s.(inFlight := s.inFlight + 1, pub := TestStop)
    case SubTake => s.(queued := s.queued - 1, sub := Load)
    case SubTakeInvalid => s.(queued := s.queued - 1, lost := s.lost + 1)
    case SubEmpty => s
    case SubLoad => s.(sub := Cas(s.inFlight))
    case SubCasOk => s.(inFlight := s.inFlight - 1, sub := Poll)
    case SubCasFail => s.(sub := Cas(s.inFlight))
    case SubCasExit => s.(sub := Poll, lost := s.lost + 1, skipped := s.skipped + 1)
    case SubLeave => s.(sub := Left, stop := true)
    case NetDrop => s.(queued := s.queued - 1, lost := s.lost + 1)
  }

  /** One run: the steps are enabled one after the other from s and end in t. */
  ghost predicate Runs(s: State, trace: seq<Step>, t: State)
    decreases |trace|
  {
    if trace == [] then s == t else
    Enabled(s, trace[0]) && Runs(Next(s, trace[0]), trace[1..], t)
  }

  ghost predicate Reachable(s: State) {
    exists trace :: Runs(INITIAL, trace, s)
  }

  // --------------------------------------------------------------- invariants

  /** Written, but not yet counted in in_flight. */
  function Uncounted(s: State): int {
    if s.pub.Count? then 1 else 0
  }

  /** Taken, but the credit not yet returned. */
  function Unreturned(s: State): int {
    if s.sub.Load? || s.sub.Cas? then 1 else 0
  }

  /** Credits are neither made nor destroyed, except those counted as lost. */
  ghost predicate Conserved(s: State) {
    s.inFlight + Uncounted(s) == s.queued + Unreturned(s) + s.lost
  }

  ghost predicate CreditInvariant(s: State) {
    && Conserved(s)
    && s.inFlight >= 0 && s.queued >= 0 && 0 <= s.skipped <= s.lost
    && s.inFlight <= MAX_IN_FLIGHT
    && (s.pub.TakeSeq? || s.pub.Write? || s.pub.Count? ==> s.inFlight < MAX_IN_FLIGHT)
    // cur is a past value of in_flight, which only this thread decrements
    && (s.sub.Cas? ==> 0 <= s.sub.cur <= s.inFlight)
    // a skip is due only while no credit has been skipped before
    && s.skipped <= 1 && (s.sub.Cas? && s.sub.cur == 0 ==> s.skipped == 0)
  }

  /** After `stop` the publisher finishes the round it is in and no other. */
  ghost predicate StopInvariant(s: State) {
    && (s.stop <==> s.sub.Left?)
    && 0 <= s.late <= 1 && (!s.stop ==> s.late == 0)
    && (s.late == 1 ==> s.pub.Count? || s.pub.TestStop? || s.pub.Exited?)
  }

  ghost predicate Invariant(s: State) {
    CreditInvariant(s) && StopInvariant(s)
  }

  lemma StepKeepsCredit(s: State, st: Step)
    requires CreditInvariant(s) && Enabled(s, st)
    ensures CreditInvariant(Next(s, st))
  {
  }

  lemma StepKeepsStop(s: State, st: Step)
    requires StopInvariant(s) && Enabled(s, st)
    ensures StopInvariant(Next(s, st))
  {
  }

  lemma StepKeepsInvariant(s: State, st: Step)
    requires Invariant(s) && Enabled(s, st)
    ensures Invariant(Next(s, st))
  {
    StepKeepsCredit(s, st);
    StepKeepsStop(s, st);
  }

  lemma {:induction false} RunKeepsInvariant(s: State, trace: seq<Step>, t: State)
    requires Invariant(s) && Runs(s, trace, t)
    ensures Invariant(t)
    decreases |trace|
  {
    if trace != [] {
      StepKeepsInvariant(s, trace[0]);
      RunKeepsInvariant(Next(s, trace[0]), trace[1..], t);
    }
  }

  /** Credit conservation in every reachable state of every interleaving, and what follows:
      in_flight stays within 0..2, at most two samples are ever unconsumed, so no history,
      slot ring or FIFO overflows; and the race loses at most one credit in a whole run, because
      a take that finds the counter at 0 only exists while no credit is lost. */
  lemma CreditSafety(s: State)
    requires Reachable(s)
    ensures Conserved(s)
    ensures 0 <= s.inFlight <= MAX_IN_FLIGHT && 0 <= s.queued <= MAX_IN_FLIGHT
    ensures s.queued <= HISTORY_DEPTH && s.queued <= MT_SLOTS && s.queued <= FIFO_DEPTH
    ensures s.skipped <= 1 && 0 <= s.lost <= MAX_IN_FLIGHT
    ensures s.sub.Load? && s.inFlight == 0 ==> s.lost == 0 && s.queued == 0 && s.pub.Count?
    ensures s.sub.Cas? ==> 0 <= s.sub.cur <= s.inFlight
    ensures s.late <= 1
  {
    var trace :| Runs(INITIAL, trace, s);
    RunKeepsInvariant(INITIAL, trace, s);
  }

  /** Without drops and unreadable samples the only way to lose a credit is the race. */
  predicate Lossless(trace: seq<Step>) {
    NetDrop !in trace && SubTakeInvalid !in trace
  }

  lemma {:induction false} LosslessLosesByRaceOnly(s: State, trace: seq<Step>, t: State)
    requires Runs(s, trace, t) && Lossless(trace)
    ensures t.lost - s.lost == t.skipped - s.skipped
    decreases |trace|
  {
    if trace != [] {
      assert trace[0] in trace;
      LosslessLosesByRaceOnly(Next(s, trace[0]), trace[1..], t);
    }
  }

  lemma {:induction false} RunsFurther(s: State, trace: seq<Step>, t: State, st: Step)
    requires Runs(s, trace, t) && Enabled(t, st)
    ensures Runs(s, trace + [st], Next(t, st))
    decreases |trace|
  {
    if trace == [] {
      assert [st][1..] == [];
      assert Runs(Next(t, st), [], Next(t, st));
      assert [] + [st] == [st];
    } else {
      RunsFurther(Next(s, trace[0]), trace[1..], t, st);
      assert (trace + [st])[1..] == trace[1..] + [st];
    }
  }

  lemma ReachNext(s: State, st: Step)
    requires Reachable(s) && Enabled(s, st)
    ensures Reachable(Next(s, st))
  {
    var trace :| Runs(INITIAL, trace, s);
    RunsFurther(INITIAL, trace, s, st);
  }

  /** The race is real: a take that overtakes the increment leaves a credit behind, with
      nothing dropped and nothing queued. */
  lemma RaceLosesACredit()
    ensures Reachable(State(false, 1, 1, 0, TestStop, Poll, 1, 1, 0))
  {
    assert Runs(INITIAL, [], INITIAL);
    ReachNext(INITIAL, PubTestStop);
    ReachNext(State(false, 0, 0, 0, TestCredit, Poll, 0, 0, 0), PubTestCredit);
    ReachNext(State(false, 0, 0, 0, TakeSeq, Poll, 0, 0, 0), PubTakeSeq);
    ReachNext(State(false, 0, 1, 0, Write, Poll, 0, 0, 0), PubWriteOk);
    ReachNext(State(false, 0, 1, 1, Count, Poll, 0, 0, 0), SubTake);
    ReachNext(State(false, 0, 1, 0, Count, Load, 0, 0, 0), SubLoad);
    ReachNext(State(false, 0, 1, 0, Count, Cas(0), 0, 0, 0), SubCasExit);
    ReachNext(State(false, 0, 1, 0, Count, Poll, 1, 1, 0), PubCount);
  }

  lemma RunsBackwards(s: State, st: Step, trace: seq<Step>, t: State)
    requires Enabled(s, st) && Runs(Next(s, st), trace, t)
    ensures Runs(s, [st] + trace, t)
  {
    assert ([st] + trace)[1..] == trace;
  }

  // ----------------------------------------------------- progress and its limit

  /** A skip the subscriber can no longer avoid: it has read 0. */
  function PendingSkip(s: State): int {
    if s.sub == Cas(0) then 1 else 0
  }

  function Gone(s: State): int {
    s.lost + PendingSkip(s)
  }

  /** Some continuation writes another sample. */
  ghost predicate CanWrite(s: State) {
    exists trace, t :: Runs(s, trace + [PubWriteOk], t)
  }

  lemma CanWriteNow(s: State)
    requires Enabled(s, PubWriteOk)
    ensures CanWrite(s)
  {
    var t := Next(s, PubWriteOk);
    assert Runs(t, [], t);
    assert ([] + [PubWriteOk])[1..] == [];
    assert Runs(s, [] + [PubWriteOk], t);
  }

  lemma CanWriteAfter(s: State, st: Step)
    requires Enabled(s, st) && CanWrite(Next(s, st))
    ensures CanWrite(s)
  {
    var trace, t :| Runs(Next(s, st), trace + [PubWriteOk], t);
    var longer := [st] + trace;
    RunsBackwards(s, st, trace + [PubWriteOk], t);
    assert longer + [PubWriteOk] == [st] + (trace + [PubWriteOk]);
  }

  /** The step that brings the next write nearer. */
  function Helpful(s: State): Step {
    match s.pub
    case TakeSeq => PubTakeSeq
    case Write => PubWriteOk
    case Count => PubCount
    case Exited => SubEmpty
    case _ =>
      if s.inFlight < MAX_IN_FLIGHT then (if s.pub.TestStop? then PubTestStop else PubTestCredit)
      else match s.sub
           case Poll => SubTake
           case Load => SubLoad
           case Cas(cur) => if cur == 0 then SubCasExit else if cur == s.inFlight then SubCasOk else SubCasFail
           case Left => SubEmpty
  }

  /** What the subscriber still has to do for the samples out there. */
  function Work(s: State): int {
    5 * s.queued
    + match s.sub
      case Load => 4
      case Cas(cur) => if 0 < cur < s.inFlight then 3 else 2
      case _ => 0
  }

  function Distance(p: PublisherPlace): nat {
    match p
    case TestStop => 3
    case TestCredit => 2
    case TakeSeq => 1
    case _ => 0
  }

  /** The publisher runs and a credit is left. */
  ghost predicate Live(s: State) {
    Invariant(s) && !s.stop && !s.pub.Exited? && Gone(s) < MAX_IN_FLIGHT
  }

  lemma HelpfulStep(s: State)
    requires Live(s) && !s.pub.Write?
    ensures Enabled(s, Helpful(s)) && Live(Next(s, Helpful(s)))
    ensures var t := Next(s, Helpful(s));
            || Uncounted(t) < Uncounted(s)
            || (Uncounted(t) == Uncounted(s) && 0 <= Work(t) < Work(s))
            || (Uncounted(t) == Uncounted(s) && Work(t) == Work(s) && Distance(t.pub) < Distance(s.pub))
  {
    StepKeepsInvariant(s, Helpful(s));
  }

  /** While fewer than two credits are gone, the next write is always within reach. */
  lemma WriteWithinReach(s: State)
    requires Live(s)
    ensures CanWrite(s)
    decreases Uncounted(s), Work(s), Distance(s.pub)
  {
    if s.pub.Write? {
      CanWriteNow(s);
    } else {
      HelpfulStep(s);
      WriteWithinReach(Next(s, Helpful(s)));
      CanWriteAfter(s, Helpful(s));
    }
  }

  lemma TwoGoneStay(s: State, st: Step)
    requires Invariant(s) && Enabled(s, st) && Gone(s) == MAX_IN_FLIGHT
    ensures st != PubWriteOk && Gone(Next(s, st)) == MAX_IN_FLIGHT
  {
  }

  /** Two credits gone close the guard for good. */
  lemma {:induction false} WedgedForever(s: State, trace: seq<Step>, t: State)
    requires Invariant(s) && Gone(s) == MAX_IN_FLIGHT && Runs(s, trace, t)
    ensures PubWriteOk !in trace && Gone(t) == MAX_IN_FLIGHT
    decreases |trace|
  {
    if trace != [] {
      TwoGoneStay(s, trace[0]);
      StepKeepsInvariant(s, trace[0]);
      WedgedForever(Next(s, trace[0]), trace[1..], t);
    }
  }

  /** A running publisher can still write if and only if fewer than two credits are gone,
      a credit counting as gone from the moment its loop has read 0. */
  lemma WritesIffCreditLeft(s: State)
    requires Reachable(s) && !s.stop && !s.pub.Exited?
    ensures CanWrite(s) <==> Gone(s) < MAX_IN_FLIGHT
  {
    var path :| Runs(INITIAL, path, s);
    RunKeepsInvariant(INITIAL, path, s);
    if Gone(s) < MAX_IN_FLIGHT {
      WriteWithinReach(s);
    } else {
      forall trace, t | Runs(s, trace + [PubWriteOk], t) ensures false {
        assert (trace + [PubWriteOk])[|trace|] == PubWriteOk;
        WedgedForever(s, trace + [PubWriteOk], t);
      }
    }
  }

  /** With lossless delivery the two-credit limit never wedges the publisher. */
  lemma LosslessNeverWedges(trace: seq<Step>, s: State)
    requires Runs(INITIAL, trace, s) && Lossless(trace) && !s.stop && !s.pub.Exited?
    ensures s.lost == s.skipped <= 1 && CanWrite(s)
  {
    RunKeepsInvariant(INITIAL, trace, s);
    LosslessLosesByRaceOnly(INITIAL, trace, s);
    WriteWithinReach(s);
  }

  /** Steps that move the subscriber through the samples it owes credits for: the takes, the
      loads, the ends of the loop, and the retries that another thread's write made necessary.
      What is left are polls of an empty queue and spurious failures of the exchange. */
  predicate Useful(s: State, st: Step) {
    || st in {SubTake, SubTakeInvalid, SubLoad, SubCasOk, SubCasExit}
    || (st == SubCasFail && s.sub.Cas? && s.sub.cur != s.inFlight)
  }

  function UsefulSteps(s: State, trace: seq<Step>): nat
    decreases |trace|
  {
    if trace == [] || !Enabled(s, trace[0]) then 0
    else UsefulSteps(Next(s, trace[0]), trace[1..]) + if Useful(s, trace[0]) then 1 else 0
  }

  /** Samples and credits still owed, in subscriber steps. */
  function Owed(s: State): int {
    3 * s.queued + match s.sub case Load => 2 case Cas(_) => 1 case _ => 0
  }

  /** Retries the publisher can still cause before its next write. */
  function Retries(s: State): int {
    Uncounted(s) + if s.sub.Cas? && s.sub.cur != s.inFlight then 1 else 0
  }

  lemma OwedStep(s: State, st: Step)
    requires Enabled(s, st) && st != PubWriteOk
    ensures Owed(Next(s, st)) + Retries(Next(s, st)) + (if Useful(s, st) then 1 else 0) <= Owed(s) + Retries(s)
  {
  }

  /** Between two writes the subscriber has a bounded amount of work under every schedule,
      retries included; when it is done, DrainedGuardOpens applies. */
  lemma {:induction false} BoundedWorkBetweenWrites(s: State, trace: seq<Step>, t: State)
    requires Runs(s, trace, t) && PubWriteOk !in trace
    ensures UsefulSteps(s, trace) + Owed(t) + Retries(t) <= Owed(s) + Retries(s)
    decreases |trace|
  {
    if trace != [] {
      assert trace[0] in trace;
      OwedStep(s, trace[0]);
      BoundedWorkBetweenWrites(Next(s, trace[0]), trace[1..], t);
    }
  }

  /** In numbers: at most seven such steps. */
  lemma WorkBetweenWrites(s: State, trace: seq<Step>, t: State)
    requires Reachable(s) && Runs(s, trace, t) && PubWriteOk !in trace
    ensures UsefulSteps(s, trace) <= 7
  {
    CreditSafety(s);
    var path :| Runs(INITIAL, path, s);
    RunKeepsInvariant(INITIAL, path, s);
    RunKeepsInvariant(s, trace, t);
    BoundedWorkBetweenWrites(s, trace, t);
  }

  /** Once the subscriber owes nothing and the publisher has counted its write, the guard
      is open, unless two credits are lost. */
  lemma DrainedGuardOpens(s: State)
    requires Reachable(s) && Owed(s) == 0 && Uncounted(s) == 0
    ensures s.inFlight < MAX_IN_FLIGHT <==> s.lost < MAX_IN_FLIGHT
  {
    CreditSafety(s);
  }

  // ------------------------------------------------------------ the books, and the way out

  function Times(trace: seq<Step>, st: Step): nat {
    if trace == [] then 0 else Times(trace[1..], st) + if trace[0] == st then 1 else 0
  }

  ghost predicate SampleLedger(s: State, trace: seq<Step>, t: State) {
    && t.seqNo == s.seqNo + Times(trace, PubTakeSeq)
    && t.queued == s.queued + Times(trace, PubWriteOk)
                   - Times(trace, SubTake) - Times(trace, SubTakeInvalid) - Times(trace, NetDrop)
  }

  ghost predicate CreditLedger(s: State, trace: seq<Step>, t: State) {
    && t.inFlight == s.inFlight + Times(trace, PubCount) - Times(trace, SubCasOk)
    && t.skipped == s.skipped + Times(trace, SubCasExit)
  }

  ghost predicate LossLedger(s: State, trace: seq<Step>, t: State) {
    t.lost == s.lost + Times(trace, SubCasExit) + Times(trace, SubTakeInvalid) + Times(trace, NetDrop)
  }

  lemma {:induction false} SamplesBalance(s: State, trace: seq<Step>, t: State)
    requires Runs(s, trace, t)
    ensures SampleLedger(s, trace, t)
    decreases |trace|
  {
    if trace != [] {
      SamplesBalance(Next(s, trace[0]), trace[1..], t);
    }
  }

  lemma {:induction false} CreditsBalance(s: State, trace: seq<Step>, t: State)
    requires Runs(s, trace, t)
    ensures CreditLedger(s, trace, t)
    decreases |trace|
  {
    if trace != [] {
      CreditsBalance(Next(s, trace[0]), trace[1..], t);
    }
  }

  lemma {:induction false} LossesBalance(s: State, trace: seq<Step>, t: State)
    requires Runs(s, trace, t)
    ensures LossLedger(s, trace, t)
    decreases |trace|
  {
    if trace != [] {
      LossesBalance(Next(s, trace[0]), trace[1..], t);
    }
  }

  /** Every counter is what the steps of the run add up to. */
  lemma LedgerBalances(s: State, trace: seq<Step>, t: State)
    requires Runs(s, trace, t)
    ensures SampleLedger(s, trace, t) && CreditLedger(s, trace, t) && LossLedger(s, trace, t)
  {
    SamplesBalance(s, trace, t);
    CreditsBalance(s, trace, t);
    LossesBalance(s, trace, t);
  }

  /** In counts of steps alone: credits handed out and not returned, and samples written and not
      consumed, never exceed two in a run. */
  lemma TwoInAnyRun(trace: seq<Step>, s: State)
    requires Runs(INITIAL, trace, s)
    ensures 0 <= Times(trace, PubCount) - Times(trace, SubCasOk) <= 2
    ensures 0 <= Times(trace, PubWriteOk) - Times(trace, SubTake) - Times(trace, SubTakeInvalid)
                 - Times(trace, NetDrop) <= 2
    ensures Times(trace, SubCasExit) <= 1
    ensures Times(trace, PubTakeSeq) >= Times(trace, PubWriteOk)
  {
    LedgerBalances(INITIAL, trace, s);
    CreditSafety(s);
    DrawsBeforeWrites(INITIAL, trace, s);
  }

  /** A sequence number was drawn for every write. */
  lemma {:induction false} DrawsBeforeWrites(s: State, trace: seq<Step>, t: State)
    requires Runs(s, trace, t)
    ensures Times(trace, PubTakeSeq) + (if s.pub.Write? then 1 else 0)
         >= Times(trace, PubWriteOk) + (if t.pub.Write? then 1 else 0)
    decreases |trace|
  {
    if trace != [] {
      DrawsBeforeWrites(Next(s, trace[0]), trace[1..], t);
    }
  }

  /** Publisher steps that remain once `stop` is set. */
  function ToExit(p: PublisherPlace): nat {
    match p
    case Exited => 0
    case TestStop => 1
    case Count => 2
    case Write => 3
    case TakeSeq => 4
    case TestCredit => 5
  }

  predicate IsPublishers(st: Step) {
    st in {PubTestStop, PubTestCredit, PubTakeSeq, PubWriteOk, PubWriteRetry, PubWriteAbort, PubCount}
  }

  function PublisherSteps(trace: seq<Step>): nat {
    if trace == [] then 0 else PublisherSteps(trace[1..]) + if IsPublishers(trace[0]) then 1 else 0
  }

  lemma ExitStep(s: State, st: Step)
    requires s.stop && Enabled(s, st)
    ensures Next(s, st).stop
    ensures ToExit(Next(s, st).pub) + (if IsPublishers(st) then 1 else 0) <= ToExit(s.pub)
  {
  }

  /** Once `stop` is set the publisher makes at most five more steps, whatever else happens, and
      until it has left one of them is always possible; so its thread can be joined. */
  lemma {:induction false} PublisherExits(s: State, trace: seq<Step>, t: State)
    requires s.stop && Runs(s, trace, t)
    ensures t.stop && PublisherSteps(trace) + ToExit(t.pub) <= ToExit(s.pub) <= 5
    ensures !t.pub.Exited? ==> exists st :: IsPublishers(st) && Enabled(t, st)
    decreases |trace|
  {
    if trace != [] {
      ExitStep(s, trace[0]);
      PublisherExits(Next(s, trace[0]), trace[1..], t);
    } else {
      CanMove(t);
    }
  }

  lemma CanMove(s: State)
    ensures !s.pub.Exited? ==> exists st :: IsPublishers(st) && Enabled(s, st)
  {
    match s.pub
    case TestStop => assert IsPublishers(PubTestStop) && Enabled(s, PubTestStop);
    case TestCredit => assert IsPublishers(PubTestCredit) && Enabled(s, PubTestCredit);
    case TakeSeq => assert IsPublishers(PubTakeSeq) && Enabled(s, PubTakeSeq);
    case Write => assert IsPublishers(PubWriteOk) && Enabled(s, PubWriteOk);
    case Count => assert IsPublishers(PubCount) && Enabled(s, PubCount);
    case Exited =>
  }

  /** After `stop` at most one further sample is written. */
  lemma {:induction false} OneWriteAfterStop(s: State, trace: seq<Step>, t: State)
    requires s.stop && Runs(s, trace, t)
    ensures Times(trace, PubWriteOk) <= if ToExit(s.pub) >= 3 then 1 else 0
    decreases |trace|
  {
    if trace != [] {
      ExitStep(s, trace[0]);
      OneWriteAfterStop(Next(s, trace[0]), trace[1..], t);
    }
  }
}
