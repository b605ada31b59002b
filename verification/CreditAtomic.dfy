/** The compare-and-swap loop at single-step grain refines one atomic
    "decrement if positive", inside the whole two-thread protocol. */
module CreditAtomic {
  import opened Credit

  datatype Taker = Idle | Holding | Finished

  /** The protocol with an atomic credit return. */
  datatype Coarse = Coarse(
    stop: bool, inFlight: int, seqNo: nat, queued: int,
    pub: PublisherPlace, taker: Taker, lost: int, late: int)

  const COARSE_INITIAL := Coarse(false, 0, 0, 0, TestStop, Idle, 0, 0)

  datatype CoarseStep =
    | CTestStop | CTestCredit | CTakeSeq | CWriteOk | CWriteRetry | CWriteAbort | CCount
    | CTake | CTakeInvalid | CDecrementIfPositive | CLeave | CDrop

  predicate CoarseEnabled(c: Coarse, st: CoarseStep) {
    match st
    case CTestStop => c.pub.TestStop?
    case CTestCredit => c.pub.TestCredit?
    case CTakeSeq => c.pub.TakeSeq?
    case CWriteOk => c.pub.Write?
    case CWriteRetry => c.pub.Write?
    case CWriteAbort => c.pub.Write?
    case CCount => c.pub.Count?
    case CTake => c.taker.Idle? && c.queued > 0
    case CTakeInvalid => c.taker.Idle? && c.queued > 0
    case CDecrementIfPositive => c.taker.Holding?
    case CLeave => c.taker.Idle?
    case CDrop => c.queued > 0
  }

  function CoarseNext(c: Coarse, st: CoarseStep): Coarse
    requires CoarseEnabled(c, st)
  {
    match st
    case CTestStop => c.(pub := if c.stop then Exited else TestCredit)
    case CTestCredit => c.(pub := if c.inFlight >= MAX_IN_FLIGHT then TestStop else TakeSeq)
    case CTakeSeq => c.(seqNo := c.seqNo + 1, pub := Write)
    case CWriteOk => c.(queued := c.queued + 1, pub := Count, late := c.late + if c.stop then 1 else 0)
    case CWriteRetry => c.(pub := TestStop)
    case CWriteAbort => c.(pub := Exited)
    case CCount => c.(inFlight := c.inFlight + 1, pub := TestStop)
    case CTake => c.(queued := c.queued - 1, taker := Holding)
    case CTakeInvalid => c.(queued := c.queued - 1, lost := c.lost + 1)
    case CDecrementIfPositive =>
      if c.inFlight > 0 then c.(inFlight := c.inFlight - 1, taker := Idle)
      else c.(lost := c.lost + 1, taker := Idle)
    case CLeave => c.(taker := Finished, stop := true)
    case CDrop => c.(queued := c.queued - 1, lost := c.lost + 1)
  }

  ghost predicate CoarseRuns(c: Coarse, trace: seq<CoarseStep>, d: Coarse)
    decreases |trace|
  {
    if trace == [] then c == d else
    CoarseEnabled(c, trace[0]) && CoarseRuns(CoarseNext(c, trace[0]), trace[1..], d)
  }

  /** A loop that has read 0 has already taken effect: it will not decrement any more. */
  function Abstraction(s: State): Coarse {
    Coarse(s.stop, s.inFlight, s.seqNo, s.queued, s.pub,
           (match s.sub
            case Poll => Idle
            case Load => Holding
            case Cas(cur) => if cur == 0 then Idle else Holding
            case Left => Finished),
           s.lost + PendingSkip(s), s.late)
  }

  /** The coarse step that a fine step takes effect as; none for the loop's inner steps. */
  function Effect(s: State, st: Step): seq<CoarseStep> {
    match st
    case PubTestStop => [CTestStop]
    case PubTestCredit => [CTestCredit]
    case PubTakeSeq => [CTakeSeq]
    case PubWriteOk => [CWriteOk]
    case PubWriteRetry => [CWriteRetry]
    case PubWriteAbort => [CWriteAbort]
    case PubCount => [CCount]
    case SubTake => [CTake]
    case SubTakeInvalid => [CTakeInvalid]
    case SubEmpty => []
    case SubLoad => if s.inFlight == 0 then [CDecrementIfPositive] else []
    case SubCasOk => [CDecrementIfPositive]
    case SubCasFail => []
    case SubCasExit => []
    case SubLeave => [CLeave]
    case NetDrop => [CDrop]
  }

  lemma StepRefines(s: State, st: Step)
    requires Invariant(s) && Enabled(s, st)
    ensures var effect := Effect(s, st);
            if effect == [] then Abstraction(Next(s, st)) == Abstraction(s)
            else CoarseEnabled(Abstraction(s), effect[0])
                 && CoarseNext(Abstraction(s), effect[0]) == Abstraction(Next(s, st))
  {
  }

  function Effects(s: State, trace: seq<Step>): seq<CoarseStep>
    decreases |trace|
  {
    if trace == [] || !Enabled(s, trace[0]) then [] else
    Effect(s, trace[0]) + Effects(Next(s, trace[0]), trace[1..])
  }

  /** Every interleaving of the fine-grained threads, spurious failures included, is an
      interleaving of threads that return their credit in one atomic step. */
  lemma {:induction false} LoopRefinesAtomicDecrement(s: State, trace: seq<Step>, t: State)
    requires Invariant(s) && Runs(s, trace, t)
    ensures CoarseRuns(Abstraction(s), Effects(s, trace), Abstraction(t))
    decreases |trace|
  {
    if trace != [] {
      var effect := Effect(s, trace[0]);
      StepRefines(s, trace[0]);
      StepKeepsInvariant(s, trace[0]);
      LoopRefinesAtomicDecrement(Next(s, trace[0]), trace[1..], t);
      if effect != [] {
        assert Effects(s, trace)[1..] == Effects(Next(s, trace[0]), trace[1..]);
      } else {
        assert Effects(s, trace) == Effects(Next(s, trace[0]), trace[1..]);
      }
    }
  }

  lemma InitialRefines()
    ensures Invariant(INITIAL) && Abstraction(INITIAL) == COARSE_INITIAL
  {
  }

  /** Whole runs: what the two threads reach from the start, the coarse protocol reaches too. */
  lemma RunRefines(trace: seq<Step>, s: State)
    requires Runs(INITIAL, trace, s)
    ensures CoarseRuns(COARSE_INITIAL, Effects(INITIAL, trace), Abstraction(s))
  {
    InitialRefines();
    LoopRefinesAtomicDecrement(INITIAL, trace, s);
  }

  function Decrements(effects: seq<CoarseStep>): nat {
    if effects == [] then 0
    else Decrements(effects[1..]) + if effects[0].CDecrementIfPositive? then 1 else 0
  }

  function Takes(effects: seq<CoarseStep>): nat {
    if effects == [] then 0 else Takes(effects[1..]) + if effects[0].CTake? then 1 else 0
  }

  /** Each credit-returning take is followed by exactly one decrement, or is still holding. */
  lemma {:induction false} OneDecrementPerTake(c: Coarse, trace: seq<CoarseStep>, d: Coarse)
    requires CoarseRuns(c, trace, d)
    ensures Takes(trace) + (if c.taker.Holding? then 1 else 0)
         == Decrements(trace) + (if d.taker.Holding? then 1 else 0)
    decreases |trace|
  {
    if trace != [] {
      OneDecrementPerTake(CoarseNext(c, trace[0]), trace[1..], d);
    }
  }
}
