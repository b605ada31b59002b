/** Echo calls, one in flight, against a network that delays, duplicates, reorders and
    loses answers (vsomeip/bench/event_client.cc, RunEchoCalls and OnEchoResponse). */
module Rpc {
  import opened Bytes
  import opened Stamp

  /** The fields under the mutex. */
  datatype Shared = Shared(pending: U32, done: bool, rttUs: real)

  function ElapsedUs(fromNs: U64, toNs: U64): real {
    Wrap64(toNs - fromNs) as real / 1000.0
  }

  /** The critical section of OnEchoResponse. */
  function Answered(sh: Shared, m: Mark, recvNs: U64): Shared {
    if m.seqNo != sh.pending then sh else Shared(sh.pending, true, ElapsedUs(m.sendNs, recvNs))
  }

  /** OnEchoResponse on whatever bytes came back. */
  function Handled(sh: Shared, payload: seq<Byte>, recvNs: U64): Shared {
    match ReadStamp(payload)
    case None => sh
    case Some(m) => Answered(sh, m, recvNs)
  }

  class EchoClient {
    var rpcPendingSeq: U32
    var rpcDone: bool
    var rpcRttUs: real

    function Fields(): Shared
      reads this
    {
      Shared(rpcPendingSeq, rpcDone, rpcRttUs)
    }

    constructor ()
      ensures Fields() == Shared(0, false, 0.0)
    {
      rpcPendingSeq, rpcDone, rpcRttUs := 0, false, 0.0;
    }

    method OnEchoResponse(payload: seq<Byte>, recvNs: U64)
      modifies this
      ensures Fields() == Handled(old(Fields()), payload, recvNs)
    {
      var stamp := ReadStamp(payload);
      if stamp.None? {
        return;
      }
      if stamp.value.seqNo != rpcPendingSeq {
        return;
      }
      rpcRttUs := Wrap64(recvNs - stamp.value.sendNs) as real / 1000.0;
      rpcDone := true;
    }

    /** Before each send. */
    method Arm(seqNo: U32)
      modifies this
      ensures Fields() == Shared(seqNo, false, old(rpcRttUs))
    {
      rpcPendingSeq := seqNo;
      rpcDone := false;
    }
  }

  /** Where the calling thread stands in call `i`. */
  datatype Caller =
    | Stamping(i: nat)                 // about to stamp the buffer, or to stop after the last call
    | Arming(i: nat)                   // stamped; about to set the pending call
    | Sending(i: nat)
    | Waiting(i: nat)
    | Finished(i: nat)

  datatype Outcome = TimedOut | Recorded(rttUs: real)

  /** An answer that came in at recvNs. */
  datatype Held = Held(payload: seq<Byte>, recvNs: U64)

  /** `buf` is the one request buffer. The peer returns a request's bytes unchanged; `sent` only
      grows: the network may deliver the answer to any request at any later time and any number
      of times, or never. `held` are the answers inside the handler, received and time-stamped
      with the mutex not yet taken; `got`, `stamps` and `outcomes` log all answers and calls. */
  datatype State = State(
    now: U64, caller: Caller, shared: Shared, buf: seq<Byte>,
    sent: set<seq<Byte>>, held: set<Held>, got: set<Held>,
    rtts: seq<real>, stamps: seq<U64>, outcomes: seq<Outcome>)

  function Initial(size: nat): State {
    State(0, Stamping(0), Shared(0, false, 0.0), seq(size, i => 0), {}, {}, {}, [], [], [])
  }

  datatype Step =
    | Tick(to: U64)
    | StampRequest
    | ArmCall
    | SendRequest
    | ReceiveAnswer(payload: seq<Byte>)
    | HandleAnswer(held: Held)
    | WaitSucceeds
    | WaitTimesOut

  predicate Enabled(s: State, st: Step) {
    match st
    case Tick(to) => s.now <= to
    case StampRequest => s.caller.Stamping?
    case ArmCall => s.caller.Arming?
    case SendRequest => s.caller.Sending?
    case ReceiveAnswer(payload) => payload in s.sent
    case HandleAnswer(held) => held in s.held
    case WaitSucceeds => s.caller.Waiting? && s.shared.done
    case WaitTimesOut => s.caller.Waiting? && !s.shared.done
  }

  function Next(calls: int, s: State, st: Step): State
    requires Enabled(s, st)
  {
    match st
    case Tick(to) => s.(now := to)
    case StampRequest =>
      if s.caller.i >= calls then s.(caller := Finished(s.caller.i))
      else s.(stamps := s.stamps + [s.now], buf := Marked(s.buf, Mark(s.now, Low32(s.caller.i))),
              caller := Arming(s.caller.i))
    case ArmCall => s.(shared := Shared(Low32(s.caller.i), false, s.shared.rttUs), caller := Sending(s.caller.i))
    case SendRequest => s.(sent := s.sent + {s.buf}, caller := Waiting(s.caller.i))
    case ReceiveAnswer(payload) => s.(held := s.held + {Held(payload, s.now)}, got := s.got + {Held(payload, s.now)})
    case HandleAnswer(held) => s.(held := s.held - {held}, shared := Handled(s.shared, held.payload, held.recvNs))
    case WaitSucceeds =>
      s.(rtts := s.rtts + [s.shared.rttUs], outcomes := s.outcomes + [Recorded(s.shared.rttUs)],
         caller := Stamping(s.caller.i + 1))
    case WaitTimesOut => s.(outcomes := s.outcomes + [TimedOut], caller := Stamping(s.caller.i + 1))
  }

  ghost predicate Runs(calls: int, s: State, trace: seq<Step>, t: State)
    decreases |trace|
  {
    if trace == [] then s == t else
    Enabled(s, trace[0]) && Runs(calls, Next(calls, s, trace[0]), trace[1..], t)
  }

  // ---------------------------------------------------------------- invariants

  /** h is an answer to call i: it carries the call's number and the stamp of its request. */
  ghost predicate AnswersCall(s: State, i: nat, h: Held) {
    && i < |s.stamps| && i < TWO32
    && ReadStamp(h.payload) == Some(Mark(s.stamps[i], i))
  }

  /** us is the time from call i's stamp to the arrival of an answer to that very call. */
  ghost predicate TimesCall(s: State, i: nat, us: real) {
    exists h :: h in s.got && AnswersCall(s, i, h) && s.stamps[i] <= h.recvNs <= s.now
                && us == (h.recvNs - s.stamps[i]) as real / 1000.0
  }

  /** If the bytes parse at all, they are the request of one of the first n calls. */
  ghost predicate RequestOf(s: State, payload: seq<Byte>, n: nat) {
    match ReadStamp(payload)
    case None => true
    case Some(m) => m.seqNo < n && m.seqNo < |s.stamps| && m.sendNs == s.stamps[m.seqNo]
  }

  ghost predicate GoodCaller(calls: int, s: State) {
    var c := s.caller;
    && calls < 0x8000_0000 && |s.outcomes| == c.i
    && (c.i == 0 || c.i <= calls)
    && |s.stamps| == (if c.Stamping? || c.Finished? then c.i else c.i + 1)
    && (!c.Stamping? && !c.Finished? ==> c.i < calls)
    && (c.Finished? ==> c.i >= calls)
    && (c.Arming? || c.Sending? ==> RequestOf(s, s.buf, c.i + 1))
    && (c.Sending? || c.Waiting? ==> s.shared.pending == c.i)
    && (c.Sending? ==> !s.shared.done)
  }

  /** How many calls have been sent. */
  function Sent(s: State): nat {
    if s.caller.Waiting? then s.caller.i + 1 else s.caller.i
  }

  ghost predicate GoodNetwork(s: State) {
    && (forall k :: 0 <= k < |s.stamps| ==> s.stamps[k] <= s.now)
    && (forall p :: p in s.sent ==> RequestOf(s, p, Sent(s)))
    && (forall h :: h in s.got ==> h.payload in s.sent && h.recvNs <= s.now && Ordered(h))
    && s.held <= s.got
  }

  /** It came in after it was stamped. */
  predicate Ordered(h: Held) {
    ReadStamp(h.payload).Some? ==> ReadStamp(h.payload).value.sendNs <= h.recvNs
  }

  /** Whenever rpc_done_ holds, the stored round trip is one of the pending call. */
  ghost predicate FreshAnswer(s: State) {
    s.shared.done ==> TimesCall(s, s.shared.pending, s.shared.rttUs)
  }

  /** The samples are the recorded outcomes, in call order. */
  function RecordedOf(outcomes: seq<Outcome>): seq<real>
    decreases |outcomes|
  {
    if outcomes == [] then [] else
    var last := outcomes[|outcomes| - 1];
    RecordedOf(outcomes[..|outcomes| - 1]) + if last.Recorded? then [last.rttUs] else []
  }

  function TimeoutsOf(outcomes: seq<Outcome>): nat
    decreases |outcomes|
  {
    if outcomes == [] then 0 else
    TimeoutsOf(outcomes[..|outcomes| - 1]) + if outcomes[|outcomes| - 1].TimedOut? then 1 else 0
  }

  lemma OutcomesSnoc(outcomes: seq<Outcome>, last: Outcome)
    ensures RecordedOf(outcomes + [last]) == RecordedOf(outcomes) + if last.Recorded? then [last.rttUs] else []
    ensures TimeoutsOf(outcomes + [last]) == TimeoutsOf(outcomes) + if last.TimedOut? then 1 else 0
  {
    assert (outcomes + [last])[..|outcomes|] == outcomes;
  }

  lemma {:induction false} OutcomesAddUp(outcomes: seq<Outcome>)
    ensures |RecordedOf(outcomes)| + TimeoutsOf(outcomes) == |outcomes|
    decreases |outcomes|
  {
    if outcomes != [] {
      OutcomesAddUp(outcomes[..|outcomes| - 1]);
    }
  }

  /** Each call's record, if any, is a round trip of that very call. */
  ghost predicate OwnAnswers(s: State) {
    && s.rtts == RecordedOf(s.outcomes)
    && forall i :: 0 <= i < |s.outcomes| && s.outcomes[i].Recorded? ==> TimesCall(s, i, s.outcomes[i].rttUs)
  }

  ghost predicate Invariant(calls: int, s: State) {
    GoodCaller(calls, s) && GoodNetwork(s) && FreshAnswer(s) && OwnAnswers(s)
  }

  /** Time passing, further stamps and further answers do not spoil a measured round trip. */
  lemma TimesCallStable(s: State, t: State, i: nat, us: real)
    requires TimesCall(s, i, us) && s.now <= t.now && s.stamps <= t.stamps && s.got <= t.got
    ensures TimesCall(t, i, us)
  {
    var h :| h in s.got && AnswersCall(s, i, h) && s.stamps[i] <= h.recvNs <= s.now
             && us == (h.recvNs - s.stamps[i]) as real / 1000.0;
    assert t.stamps[i] == s.stamps[i];
    assert h in t.got && AnswersCall(t, i, h);
  }

  /** A freshly stamped buffer is the request of the call it was stamped for. */
  lemma StampedIsRequest(calls: int, s: State)
    requires Invariant(calls, s) && s.caller.Stamping? && s.caller.i < calls
    ensures var t := Next(calls, s, StampRequest); RequestOf(t, t.buf, t.caller.i + 1)
  {
    var i := s.caller.i;
    StampReadsBack(s.buf, Mark(s.now, Low32(i)));
  }

  lemma CallerStep(calls: int, s: State, st: Step)
    requires Invariant(calls, s) && Enabled(s, st)
    ensures GoodCaller(calls, Next(calls, s, st))
  {
    hide ReadStamp, Marked;
    if st.StampRequest? && s.caller.i < calls {
      StampedIsRequest(calls, s);
    }
    if st.HandleAnswer? {
      assert RequestOf(s, st.held.payload, Sent(s));
    }
  }

  lemma NetworkStep(calls: int, s: State, st: Step)
    requires Invariant(calls, s) && Enabled(s, st)
    ensures GoodNetwork(Next(calls, s, st))
  {
    hide ReadStamp, Marked;
    var t := Next(calls, s, st);
    forall p | p in t.sent ensures RequestOf(t, p, Sent(t)) {
      assert RequestOf(s, p, Sent(s)) || (st.SendRequest? && p == s.buf);
    }
    if st.ReceiveAnswer? {
      assert RequestOf(s, st.payload, Sent(s));
    }
  }

  lemma FreshStep(calls: int, s: State, st: Step)
    requires Invariant(calls, s) && Enabled(s, st)
    ensures FreshAnswer(Next(calls, s, st))
  {
    hide ReadStamp, Marked;
    var t := Next(calls, s, st);
    if st.HandleAnswer? && ReadStamp(st.held.payload).Some?
       && ReadStamp(st.held.payload).value.seqNo == s.shared.pending {
      assert RequestOf(s, st.held.payload, Sent(s));
      assert st.held in t.got && AnswersCall(t, s.shared.pending, st.held);
      assert t.shared.rttUs == (st.held.recvNs - t.stamps[s.shared.pending]) as real / 1000.0;
    } else if t.shared.done {
      TimesCallStable(s, t, s.shared.pending, s.shared.rttUs);
    }
  }

  lemma OwnRecord(calls: int, s: State, st: Step, i: nat)
    requires Invariant(calls, s) && Enabled(s, st)
    requires i < |Next(calls, s, st).outcomes| && Next(calls, s, st).outcomes[i].Recorded?
    ensures TimesCall(Next(calls, s, st), i, Next(calls, s, st).outcomes[i].rttUs)
  {
    hide TimesCall, ReadStamp, Marked, GoodNetwork;
    var t := Next(calls, s, st);
    if i < |s.outcomes| {
      assert t.outcomes[i] == s.outcomes[i];
    } else {
      assert i == s.shared.pending && t.outcomes[i].rttUs == s.shared.rttUs;
    }
    TimesCallStable(s, t, i, t.outcomes[i].rttUs);
  }

  lemma SamplesStep(calls: int, s: State, st: Step)
    requires s.rtts == RecordedOf(s.outcomes) && Enabled(s, st)
    ensures Next(calls, s, st).rtts == RecordedOf(Next(calls, s, st).outcomes)
  {
    hide RecordedOf, Handled, Marked;
    if st.WaitSucceeds? {
      OutcomesSnoc(s.outcomes, Recorded(s.shared.rttUs));
    } else if st.WaitTimesOut? {
      OutcomesSnoc(s.outcomes, TimedOut);
    }
  }

  lemma OwnStep(calls: int, s: State, st: Step)
    requires Invariant(calls, s) && Enabled(s, st)
    ensures OwnAnswers(Next(calls, s, st))
  {
    SamplesStep(calls, s, st);
    var t := Next(calls, s, st);
    hide TimesCall, RecordedOf, GoodCaller, GoodNetwork, FreshAnswer, Handled, Marked, Next;
    forall i | 0 <= i < |t.outcomes| && t.outcomes[i].Recorded?
      ensures TimesCall(t, i, t.outcomes[i].rttUs)
    {
      OwnRecord(calls, s, st, i);
    }
  }

  lemma {:induction false} RunKeepsInvariant(calls: int, s: State, trace: seq<Step>, t: State)
    requires Invariant(calls, s) && Runs(calls, s, trace, t)
    ensures Invariant(calls, t)
    decreases |trace|
  {
    if trace != [] {
      CallerStep(calls, s, trace[0]);
      NetworkStep(calls, s, trace[0]);
      FreshStep(calls, s, trace[0]);
      OwnStep(calls, s, trace[0]);
      RunKeepsInvariant(calls, Next(calls, s, trace[0]), trace[1..], t);
    }
  }

  /** Over any network and for every buffer size: a set rpc_done_ means the stored round trip is
      that of an answer received to the pending call; every recorded sample is that of an answer
      received to the very call it is recorded for, so a late answer to a timed-out call is never
      recorded; and samples plus timeouts are the calls finished so far. */
  lemma RpcSafety(size: nat, calls: int, trace: seq<Step>, s: State)
    requires calls < 0x8000_0000 && Runs(calls, Initial(size), trace, s)
    ensures s.shared.done ==> TimesCall(s, s.shared.pending, s.shared.rttUs)
    ensures OwnAnswers(s)
    ensures |s.outcomes| == s.caller.i && |s.rtts| + TimeoutsOf(s.outcomes) == s.caller.i
    ensures s.caller.Finished? ==> s.caller.i == if calls > 0 then calls else 0
  {
    RunKeepsInvariant(calls, Initial(size), trace, s);
    OutcomesAddUp(s.outcomes);
  }

  // --------------------------------------------------- clock readings, answers and waits

  /** Every stamp of a stretch of a run, and every arrival time, is a clock reading of that stretch;
      what was logged before stays. */
  lemma {:induction false} ReadInStretch(calls: int, s: State, trace: seq<Step>, t: State)
    requires Runs(calls, s, trace, t)
    ensures s.now <= t.now && s.stamps <= t.stamps
    ensures forall i :: |s.stamps| <= i < |t.stamps| ==> s.now <= t.stamps[i] <= t.now
    ensures forall h :: h in t.got && h !in s.got ==> s.now <= h.recvNs <= t.now
    decreases |trace|
  {
    if trace != [] {
      hide Marked, Handled;
      ReadInStretch(calls, Next(calls, s, trace[0]), trace[1..], t);
    }
  }

  /** Call i is stamped with the clock at its stamping, whatever follows. */
  lemma StampIsClock(size: nat, calls: int, trace: seq<Step>, s: State, more: seq<Step>, t: State)
    requires calls < 0x8000_0000 && Runs(calls, Initial(size), trace, s)
    requires Enabled(s, StampRequest) && s.caller.i < calls && Runs(calls, Next(calls, s, StampRequest), more, t)
    ensures s.caller.i < |t.stamps| && t.stamps[s.caller.i] == s.now
  {
    RunKeepsInvariant(calls, Initial(size), trace, s);
    ReadInStretch(calls, Next(calls, s, StampRequest), more, t);
  }

  /** An answer to the call being waited for is taken: its round trip is stored and the wait can end. */
  lemma OwnAnswerStored(size: nat, calls: int, trace: seq<Step>, s: State, h: Held)
    requires calls < 0x8000_0000 && Runs(calls, Initial(size), trace, s)
    requires s.caller.Waiting? && h in s.held && AnswersCall(s, s.caller.i, h)
    ensures var t := Next(calls, s, HandleAnswer(h));
            && t.shared == Shared(s.caller.i, true, (h.recvNs - s.stamps[s.caller.i]) as real / 1000.0)
            && Enabled(t, WaitSucceeds) && !Enabled(t, WaitTimesOut)
  {
    hide ReadStamp, Marked;
    RunKeepsInvariant(calls, Initial(size), trace, s);
    assert Ordered(h);
  }

  lemma Reached(size: nat, calls: int, trace: seq<Step>, s: State)
    requires calls < 0x8000_0000 && Runs(calls, Initial(size), trace, s)
    ensures Invariant(calls, s)
  {
    RunKeepsInvariant(calls, Initial(size), trace, s);
  }

  lemma RunsFirst(calls: int, s: State, st: Step, rest: seq<Step>, t: State)
    requires Enabled(s, st) && Runs(calls, Next(calls, s, st), rest, t)
    ensures Runs(calls, s, [st] + rest, t)
  {
    assert ([st] + rest)[1..] == rest;
  }

  /** The steps of a call that is answered at time `to`. */
  function AnsweredSteps(payload: seq<Byte>, to: U64): seq<Step> {
    [SendRequest]
    + ([Tick(to)] + ([ReceiveAnswer(payload)] + ([HandleAnswer(Held(payload, to))] + ([WaitSucceeds] + []))))
  }

  /** An answer completes its call: the request goes out at s, the peer returns its bytes at time `to`,
      and the wait ends with the time from the call's stamp to then as its sample. */
  lemma AnsweredCall(size: nat, calls: int, trace: seq<Step>, s: State, to: U64) returns (t: State)
    requires calls < 0x8000_0000 && Runs(calls, Initial(size), trace, s)
    requires s.caller.Sending? && |s.buf| >= STAMP_BYTES && s.now <= to
    ensures Runs(calls, s, AnsweredSteps(s.buf, to), t) && s.caller.i < |s.stamps|
    ensures t.rtts == s.rtts + [(to - s.stamps[s.caller.i]) as real / 1000.0]
  {
    hide Marked, FreshAnswer, OwnAnswers;
    Reached(size, calls, trace, s);
    BufferOfCall(calls, trace, size, s);
    assert RequestOf(s, s.buf, s.caller.i + 1);
    var h := Held(s.buf, to);
    var a := Next(calls, s, SendRequest);
    var b := Next(calls, a, Tick(to));
    var c := Next(calls, b, ReceiveAnswer(s.buf));
    var d := Next(calls, c, HandleAnswer(h));
    t := Next(calls, d, WaitSucceeds);
    assert Runs(calls, t, [], t);
    RunsFirst(calls, d, WaitSucceeds, [], t);
    RunsFirst(calls, c, HandleAnswer(h), [WaitSucceeds] + [], t);
    RunsFirst(calls, b, ReceiveAnswer(s.buf), [HandleAnswer(h)] + ([WaitSucceeds] + []), t);
    RunsFirst(calls, a, Tick(to), [ReceiveAnswer(s.buf)] + ([HandleAnswer(h)] + ([WaitSucceeds] + [])), t);
    RunsFirst(calls, s, SendRequest,
              [Tick(to)] + ([ReceiveAnswer(s.buf)] + ([HandleAnswer(h)] + ([WaitSucceeds] + []))), t);
  }

  /** While a call is armed or sent its buffer carries that call's own number, if it can carry any. */
  lemma {:induction false} BufferOfCall(calls: int, trace: seq<Step>, size: nat, s: State)
    requires calls < 0x8000_0000 && Runs(calls, Initial(size), trace, s)
    requires (s.caller.Arming? || s.caller.Sending?) && |s.buf| >= STAMP_BYTES
    ensures ReadStamp(s.buf).Some? && ReadStamp(s.buf).value.seqNo == s.caller.i
  {
    OwnBuffer(calls, Initial(size), trace, s);
  }

  ghost predicate BufferIsOwn(s: State) {
    (s.caller.Arming? || s.caller.Sending?) && |s.buf| >= STAMP_BYTES ==>
      ReadStamp(s.buf).Some? && ReadStamp(s.buf).value.seqNo == Low32(s.caller.i)
  }

  lemma {:induction false} OwnBuffer(calls: int, s: State, trace: seq<Step>, t: State)
    requires Invariant(calls, s) && BufferIsOwn(s) && Runs(calls, s, trace, t)
    ensures BufferIsOwn(t) && GoodCaller(calls, t)
    decreases |trace|
  {
    if trace != [] {
      OwnBufferStep(calls, s, trace[0]);
      CallerStep(calls, s, trace[0]);
      NetworkStep(calls, s, trace[0]);
      FreshStep(calls, s, trace[0]);
      OwnStep(calls, s, trace[0]);
      OwnBuffer(calls, Next(calls, s, trace[0]), trace[1..], t);
    }
  }

  lemma OwnBufferStep(calls: int, s: State, st: Step)
    requires BufferIsOwn(s) && Enabled(s, st)
    ensures BufferIsOwn(Next(calls, s, st))
  {
    if st.StampRequest? {
      StampReadsBack(s.buf, Mark(s.now, Low32(s.caller.i)));
      hide Marked;
    }
  }

  function Times(trace: seq<Step>, st: Step): nat {
    if trace == [] then 0 else Times(trace[1..], st) + if trace[0] == st then 1 else 0
  }

  lemma {:induction false} WaitsAreSamples(calls: int, s: State, trace: seq<Step>, t: State)
    requires Runs(calls, s, trace, t)
    ensures |t.rtts| - |s.rtts| == Times(trace, WaitSucceeds)
    decreases |trace|
  {
    if trace != [] {
      hide Marked, Handled;
      WaitsAreSamples(calls, Next(calls, s, trace[0]), trace[1..], t);
    }
  }

  lemma {:induction false} WaitsAreTimeouts(calls: int, s: State, trace: seq<Step>, t: State)
    requires Runs(calls, s, trace, t)
    ensures TimeoutsOf(t.outcomes) - TimeoutsOf(s.outcomes) == Times(trace, WaitTimesOut)
    decreases |trace|
  {
    if trace != [] {
      TimeoutStep(calls, s, trace[0]);
      hide Marked, Handled, TimeoutsOf, Next;
      WaitsAreTimeouts(calls, Next(calls, s, trace[0]), trace[1..], t);
    }
  }

  lemma TimeoutStep(calls: int, s: State, st: Step)
    requires Enabled(s, st)
    ensures TimeoutsOf(Next(calls, s, st).outcomes) - TimeoutsOf(s.outcomes) == if st == WaitTimesOut then 1 else 0
  {
    hide Marked, Handled, TimeoutsOf;
    if st.WaitSucceeds? {
      OutcomesSnoc(s.outcomes, Recorded(s.shared.rttUs));
    } else if st.WaitTimesOut? {
      OutcomesSnoc(s.outcomes, TimedOut);
    }
  }

  /** Each wait that ended with an answer is one recorded sample, each that ran out one timeout. */
  lemma WaitsAreOutcomes(size: nat, calls: int, trace: seq<Step>, s: State)
    requires Runs(calls, Initial(size), trace, s)
    ensures |s.rtts| == Times(trace, WaitSucceeds) && TimeoutsOf(s.outcomes) == Times(trace, WaitTimesOut)
  {
    WaitsAreSamples(calls, Initial(size), trace, s);
    WaitsAreTimeouts(calls, Initial(size), trace, s);
  }

  // ------------------------------------------------------------------ late answers

  /** t can go on like s: they differ at most in answers t still holds and in guarded fields that
      the next call overwrites before anyone reads them. */
  ghost predicate Alike(s: State, t: State) {
    && s.now == t.now && s.caller == t.caller && s.buf == t.buf && s.sent == t.sent && s.held <= t.held
    && s.rtts == t.rtts && s.stamps == t.stamps && s.outcomes == t.outcomes
    && s.shared.pending == t.shared.pending
    && (s.caller.Sending? || s.caller.Waiting? ==>
          s.shared.done == t.shared.done && (s.shared.done ==> s.shared.rttUs == t.shared.rttUs))
  }

  lemma AlikeStep(calls: int, s: State, t: State, st: Step)
    requires Alike(s, t) && Enabled(s, st)
    ensures Enabled(t, st) && Alike(Next(calls, s, st), Next(calls, t, st))
  {
    hide ReadStamp, Marked;
  }

  lemma {:induction false} AlikeRun(calls: int, s: State, trace: seq<Step>, s': State, t: State) returns (t': State)
    requires Alike(s, t) && Runs(calls, s, trace, s')
    ensures Runs(calls, t, trace, t') && Alike(s', t')
    decreases |trace|
  {
    t' := t;
    if trace != [] {
      AlikeStep(calls, s, t, trace[0]);
      t' := AlikeRun(calls, Next(calls, s, trace[0]), trace[1..], s', Next(calls, t, trace[0]));
    }
  }

  /** An answer to a call already decided changes nothing: whatever the run does after handling
      it, it could have done without, with the same samples and the same outcomes. */
  lemma LateAnswerIgnored(size: nat, calls: int, trace: seq<Step>, s: State, late: Held, more: seq<Step>, t: State)
      returns (u: State)
    requires calls < 0x8000_0000 && Runs(calls, Initial(size), trace, s)
    requires late in s.held && ReadStamp(late.payload).Some? && ReadStamp(late.payload).value.seqNo < s.caller.i
    requires Runs(calls, Next(calls, s, HandleAnswer(late)), more, t)
    ensures Runs(calls, s, more, u) && u.rtts == t.rtts && u.outcomes == t.outcomes
  {
    RunKeepsInvariant(calls, Initial(size), trace, s);
    u := AlikeRun(calls, Next(calls, s, HandleAnswer(late)), more, t, s);
  }
}
