/** Paced ping-pong over a network that may delay, duplicate, reorder and lose: the
    measuring side of benchmarks/net (RunPub in zenoh_net, subspace_net, cyclone_net). */
module PingPong {

  const BASE_SEQ := 1000

  datatype Options = Options(warmup: int, count: int, probes: nat)

  /** Where RunPub stands. In the measuring loop, `i` is the round and seq = BASE_SEQ + 1 + i
      once it was incremented. */
  datatype Place =
    | ProbeSend(i: nat)
    | ProbeWait(i: nat)
    | RoundSend(i: nat)                     // loop head of round i
    | RoundStamped(i: nat, t0: nat)         // read t0; about to publish
    | RoundWait(i: nat, t0: nat)            // published at or after t0
    | RoundDone(i: nat, t0: nat)            // the echo matched; about to read the clock
    | Printed
    | Failed

  /** A request or an echo: its sequence number and when it was handed to the network. */
  datatype Message = Message(seqNo: nat, at: nat)

  /** What one round measured; `halfUs` is half the round trip in microseconds. */
  datatype Sample = Sample(seqNo: nat, t0: nat, t1: nat, halfUs: real)

  /** `requests` and `echoes` only grow: a message once sent may be delivered at any later
      time, any number of times, or never. */
  datatype State = State(now: nat, place: Place, requests: set<Message>, echoes: set<Message>, samples: seq<Sample>)

  const INITIAL := State(0, ProbeSend(0), {}, {}, [])

  datatype Step =
    | Tick(to: nat)
    | Probe                     // publish probe i + 1
    | ProbeNotSent              // publishing failed; next probe
    | ProbeMatch(echo: Message)
    | ProbeTimeout
    | ReadT0
    | Publish
    | PublishFails
    | Match(echo: Message)      // an echo with the wanted seq is taken
    | Discard(echo: Message)    // an echo with another seq is taken and dropped
    | RoundTimeout
    | Stop                      // read t1 and store
    | Print
    | Echo(request: Message)    // the peer answers some request

  function WantedSeq(p: Place): nat
    requires p.ProbeWait? || p.RoundWait?
  {
    if p.ProbeWait? then p.i + 1 else BASE_SEQ + 1 + p.i
  }

  predicate Enabled(opt: Options, s: State, st: Step) {
    match st
    case Tick(to) => s.now <= to
    case Probe => s.place.ProbeSend? && s.place.i < opt.probes
    case ProbeNotSent => s.place.ProbeSend? && s.place.i < opt.probes
    case ProbeMatch(echo) => s.place.ProbeWait? && echo in s.echoes && echo.seqNo == WantedSeq(s.place)
    case ProbeTimeout => s.place.ProbeWait? || (s.place.ProbeSend? && s.place.i >= opt.probes)
    case ReadT0 => s.place.RoundSend? && s.place.i < opt.warmup + opt.count
    case Publish => s.place.RoundStamped?
    case PublishFails => s.place.RoundStamped?
    case Match(echo) => s.place.RoundWait? && echo in s.echoes && echo.seqNo == WantedSeq(s.place)
    case Discard(echo) =>
      (s.place.RoundWait? || s.place.ProbeWait?) && echo in s.echoes && echo.seqNo != WantedSeq(s.place)
    case RoundTimeout => s.place.RoundWait?
    case Stop => s.place.RoundDone?
    case Print => s.place.RoundSend? && s.place.i >= opt.warmup + opt.count
    case Echo(request) => request in s.requests
  }

  function Measure(seqNo: nat, t0: nat, t1: nat): Sample {
    Sample(seqNo, t0, t1, (t1 - t0) as real / 2.0 / 1000.0)
  }

  function Next(opt: Options, s: State, st: Step): State
    requires Enabled(opt, s, st)
  {
    match st
    case Tick(to) => s.(now := to)
    case Probe => s.(requests := s.requests + {Message(s.place.i + 1, s.now)}, place := ProbeWait(s.place.i))
    case ProbeNotSent => s.(place := ProbeSend(s.place.i + 1))
    case ProbeMatch(_) => s.(place := RoundSend(0))
    case ProbeTimeout => s.(place := if s.place.ProbeWait? then ProbeSend(s.place.i + 1) else Failed)
    case ReadT0 => s.(place := RoundStamped(s.place.i, s.now))
    case Publish =>
      s.(requests := s.requests + {Message(BASE_SEQ + 1 + s.place.i, s.now)}, place := RoundWait(s.place.i, s.place.t0))
    case PublishFails => s.(place := Failed)
    case Match(_) => s.(place := RoundDone(s.place.i, s.place.t0))
    case Discard(_) => s
    case RoundTimeout => s.(place := Failed)
    case Stop =>
      var i := s.place.i;
      s.(samples := s.samples + if i >= opt.warmup then [Measure(BASE_SEQ + 1 + i, s.place.t0, s.now)] else [],
         place := RoundSend(i + 1))
    case Print => s.(place := Printed)
    case Echo(request) => s.(echoes := s.echoes + {Message(request.seqNo, s.now)})
  }

  ghost predicate Runs(opt: Options, s: State, trace: seq<Step>, t: State)
    decreases |trace|
  {
    if trace == [] then s == t else
    Enabled(opt, s, trace[0]) && Runs(opt, Next(opt, s, trace[0]), trace[1..], t)
  }

  // ---------------------------------------------------------------- invariants

  /** Rounds completed so far. */
  function Rounds(p: Place): nat {
    match p
    case RoundSend(i) => i
    case RoundStamped(i, _) => i
    case RoundWait(i, _) => i
    case RoundDone(i, _) => i
    case _ => 0
  }

  predicate Measuring(p: Place) {
    p.RoundSend? || p.RoundStamped? || p.RoundWait? || p.RoundDone?
  }

  /** This round was published no earlier than t0, and a matching echo was sent in between. */
  ghost predicate Brackets(s: State, seqNo: nat, t0: nat, t1: nat) {
    exists request, echo :: request in s.requests && echo in s.echoes && request.seqNo == echo.seqNo == seqNo
                            && t0 <= request.at <= echo.at <= t1
  }

  /** Every echo answers a request sent no later; nothing comes from the future. */
  ghost predicate Causal(s: State) {
    && (forall m :: m in s.requests ==> m.at <= s.now)
    && (forall e :: e in s.echoes ==> e.at <= s.now && Answers(s, e))
  }

  ghost predicate Answers(s: State, e: Message) {
    exists m :: m in s.requests && m.seqNo == e.seqNo && m.at <= e.at
  }

  /** Requests so far: probes up to `probes`, and one for each measured round begun. */
  ghost predicate SentSoFar(opt: Options, s: State) {
    forall m :: m in s.requests ==>
      || 1 <= m.seqNo <= opt.probes
      || ((s.place.RoundSend? || s.place.RoundStamped?) && BASE_SEQ < m.seqNo <= BASE_SEQ + s.place.i)
      || ((s.place.RoundWait? || s.place.RoundDone?) && BASE_SEQ < m.seqNo <= BASE_SEQ + s.place.i + 1)
      || s.place.Printed? || s.place.Failed?
  }

  /** The only request of the round in progress was sent at t0 or later. */
  ghost predicate RoundFresh(s: State) {
    && (s.place.RoundStamped? ==> s.place.t0 <= s.now)
    && (s.place.RoundWait? ==> forall m :: m in s.requests && m.seqNo == WantedSeq(s.place) ==> s.place.t0 <= m.at)
    && (s.place.RoundDone? ==> Brackets(s, BASE_SEQ + 1 + s.place.i, s.place.t0, s.now))
  }

  function FirstSampled(opt: Options): nat {
    if opt.warmup > 0 then opt.warmup else 0
  }

  /** Sample k is the round trip of its own round, in order. */
  ghost predicate GoodSamples(opt: Options, s: State) {
    forall k :: 0 <= k < |s.samples| ==>
      && s.samples[k].seqNo == BASE_SEQ + 1 + FirstSampled(opt) + k
      && Brackets(s, s.samples[k].seqNo, s.samples[k].t0, s.samples[k].t1)
      && s.samples[k].halfUs == (s.samples[k].t1 - s.samples[k].t0) as real / 2000.0
  }

  function SampleCount(opt: Options, rounds: nat): nat {
    if rounds > FirstSampled(opt) then rounds - FirstSampled(opt) else 0
  }

  ghost predicate Counted(opt: Options, s: State) {
    && (Measuring(s.place) ==> |s.samples| == SampleCount(opt, Rounds(s.place)))
    && (s.place.ProbeSend? || s.place.ProbeWait? ==> s.samples == [])
    && (Measuring(s.place) ==> Rounds(s.place) == 0 || Rounds(s.place) <= opt.warmup + opt.count)
    && (s.place.RoundStamped? || s.place.RoundWait? || s.place.RoundDone? ==> s.place.i < opt.warmup + opt.count)
    && (s.place.Printed? ==>
          |s.samples| == SampleCount(opt, if opt.warmup + opt.count > 0 then opt.warmup + opt.count else 0))
  }

  ghost predicate Invariant(opt: Options, s: State) {
    && opt.probes <= BASE_SEQ
    && Causal(s) && SentSoFar(opt, s) && RoundFresh(s) && GoodSamples(opt, s) && Counted(opt, s)
    && (s.place.ProbeWait? ==> s.place.i < opt.probes)
  }

  lemma BracketsStable(s: State, t: State, seqNo: nat, t0: nat, t1: nat, later: nat)
    requires Brackets(s, seqNo, t0, t1) && s.requests <= t.requests && s.echoes <= t.echoes && t1 <= later
    ensures Brackets(t, seqNo, t0, later)
  {
    var request, echo :| request in s.requests && echo in s.echoes && request.seqNo == echo.seqNo == seqNo
                         && t0 <= request.at <= echo.at <= t1;
    assert request in t.requests && echo in t.echoes;
  }

  lemma CausalStep(opt: Options, s: State, st: Step)
    requires Causal(s) && Enabled(opt, s, st)
    ensures Causal(Next(opt, s, st))
  {
    var t := Next(opt, s, st);
    forall e | e in t.echoes ensures Answers(t, e) {
      if e in s.echoes {
        var m :| m in s.requests && m.seqNo == e.seqNo && m.at <= e.at;
        assert m in t.requests;
      } else {
        assert st.request in t.requests;
      }
    }
  }

  lemma SentStep(opt: Options, s: State, st: Step)
    requires Invariant(opt, s) && Enabled(opt, s, st)
    ensures SentSoFar(opt, Next(opt, s, st))
    ensures var t := Next(opt, s, st); t.place.ProbeWait? ==> t.place.i < opt.probes
  {
  }

  lemma FreshMatch(opt: Options, s: State, st: Step)
    requires Causal(s) && RoundFresh(s) && Enabled(opt, s, st) && st.Match?
    ensures RoundFresh(Next(opt, s, st))
  {
    var m :| m in s.requests && m.seqNo == st.echo.seqNo && m.at <= st.echo.at;
    assert Brackets(Next(opt, s, st), WantedSeq(s.place), s.place.t0, s.now);
  }

  /** A round's seq is new: no probe and no earlier round has used it. */
  lemma FreshPublish(opt: Options, s: State)
    requires opt.probes <= BASE_SEQ && SentSoFar(opt, s) && RoundFresh(s) && Enabled(opt, s, Publish)
    ensures RoundFresh(Next(opt, s, Publish))
  {
    assert forall m :: m in s.requests ==> m.seqNo <= BASE_SEQ + s.place.i;
  }

  lemma FreshStep(opt: Options, s: State, st: Step)
    requires Invariant(opt, s) && Enabled(opt, s, st)
    ensures RoundFresh(Next(opt, s, st))
  {
    hide GoodSamples, Counted, Causal, SentSoFar;
    if st.Match? {
      FreshMatch(opt, s, st);
    } else if st.Publish? {
      FreshPublish(opt, s);
    } else if s.place.RoundDone? {
      hide Brackets;
      var t := Next(opt, s, st);
      if t.place.RoundDone? {
        BracketsStable(s, t, BASE_SEQ + 1 + s.place.i, s.place.t0, s.now, t.now);
      }
    }
  }

  lemma SampleStep(opt: Options, s: State, st: Step)
    requires Invariant(opt, s) && Enabled(opt, s, st)
    ensures GoodSamples(opt, Next(opt, s, st)) && Counted(opt, Next(opt, s, st))
  {
    hide Causal, SentSoFar, Brackets;
    var t := Next(opt, s, st);
    forall k | 0 <= k < |t.samples|
      ensures t.samples[k].seqNo == BASE_SEQ + 1 + FirstSampled(opt) + k
      ensures Brackets(t, t.samples[k].seqNo, t.samples[k].t0, t.samples[k].t1)
      ensures t.samples[k].halfUs == (t.samples[k].t1 - t.samples[k].t0) as real / 2000.0
    {
      if k < |s.samples| {
        assert t.samples[k] == s.samples[k];
        BracketsStable(s, t, s.samples[k].seqNo, s.samples[k].t0, s.samples[k].t1, s.samples[k].t1);
      } else {
        BracketsStable(s, t, BASE_SEQ + 1 + s.place.i, s.place.t0, s.now, s.now);
      }
    }
  }

  lemma {:induction false} RunKeepsInvariant(opt: Options, s: State, trace: seq<Step>, t: State)
    requires Invariant(opt, s) && Runs(opt, s, trace, t)
    ensures Invariant(opt, t)
    decreases |trace|
  {
    if trace != [] {
      CausalStep(opt, s, trace[0]);
      SentStep(opt, s, trace[0]);
      FreshStep(opt, s, trace[0]);
      SampleStep(opt, s, trace[0]);
      RunKeepsInvariant(opt, Next(opt, s, trace[0]), trace[1..], t);
    }
  }

  /** Freshness: over any such network, sample k is of measured round k and brackets the
      publishing and the echo of that round's own seq, which no probe uses. */
  lemma SamplesAreFresh(opt: Options, trace: seq<Step>, s: State, k: nat)
    requires opt.probes <= BASE_SEQ && Runs(opt, INITIAL, trace, s) && k < |s.samples|
    ensures var x := s.samples[k];
            && x.seqNo == BASE_SEQ + 1 + FirstSampled(opt) + k > opt.probes
            && x.t0 <= x.t1 && Brackets(s, x.seqNo, x.t0, x.t1) && x.halfUs == (x.t1 - x.t0) as real / 2000.0
  {
    RunKeepsInvariant(opt, INITIAL, trace, s);
  }

  /** A printed line stands for exactly `count` samples if and only if the warm-up count is
      not negative; `count` is positive, as option parsing demands. */
  lemma PrintedCount(opt: Options, trace: seq<Step>, s: State)
    requires opt.probes <= BASE_SEQ && opt.count > 0 && Runs(opt, INITIAL, trace, s) && s.place.Printed?
    ensures |s.samples| == opt.count <==> opt.warmup >= 0
  {
    RunKeepsInvariant(opt, INITIAL, trace, s);
  }

  // ------------------------------------------------------- when the clock is read

  lemma {:induction false} ClockMoves(opt: Options, s: State, trace: seq<Step>, t: State)
    requires Runs(opt, s, trace, t)
    ensures s.now <= t.now
    decreases |trace|
  {
    if trace != [] {
      ClockMoves(opt, Next(opt, s, trace[0]), trace[1..], t);
    }
  }

  /** Before round i's first clock reading. */
  predicate NotBegun(p: Place, i: nat) {
    p.ProbeSend? || p.ProbeWait? || (Measuring(p) && (p.i < i || (p.i == i && p.RoundSend?)))
  }

  predicate Begun(p: Place, i: nat) {
    (p.RoundStamped? || p.RoundWait? || p.RoundDone?) && p.i == i
  }

  /** In a stretch of a run that sees round i begin, its t0 is read in that stretch; and later steps
      of the round keep it. */
  lemma {:induction false} BegunInStretch(opt: Options, s: State, trace: seq<Step>, t: State, i: nat)
    requires Runs(opt, s, trace, t) && Begun(t.place, i)
    ensures NotBegun(s.place, i) || Begun(s.place, i)
    ensures NotBegun(s.place, i) ==> s.now <= t.place.t0 <= t.now
    ensures Begun(s.place, i) ==> t.place.t0 == s.place.t0
    decreases |trace|
  {
    if trace != [] {
      var u := Next(opt, s, trace[0]);
      BegunInStretch(opt, u, trace[1..], t, i);
      ClockMoves(opt, u, trace[1..], t);
    }
  }

  /** A round's two readings, exactly: t0 is read at s, the round is stored at u. Its sample runs from
      the clock at s to the clock at u. */
  lemma RoundMeasures(opt: Options, s: State, trace: seq<Step>, u: State)
    requires Enabled(opt, s, ReadT0) && Runs(opt, Next(opt, s, ReadT0), trace, u)
    requires Enabled(opt, u, Stop) && u.place.i == s.place.i
    ensures var t, i := Next(opt, u, Stop), s.place.i;
            if i < opt.warmup then t.samples == u.samples
            else |t.samples| == |u.samples| + 1 && t.samples[..|u.samples|] == u.samples
                 && t.samples[|u.samples|] == Sample(BASE_SEQ + 1 + i, s.now, u.now, (u.now - s.now) as real / 2000.0)
  {
    BegunInStretch(opt, Next(opt, s, ReadT0), trace, u, s.place.i);
  }

  lemma RunsFirst(opt: Options, s: State, st: Step, rest: seq<Step>, t: State)
    requires Enabled(opt, s, st) && Runs(opt, Next(opt, s, st), rest, t)
    ensures Runs(opt, s, [st] + rest, t)
  {
    assert ([st] + rest)[1..] == rest;
  }

  /** The steps of a round that is published at `now` and whose echo is back at time `to`. */
  function RoundSteps(seqNo: nat, now: nat, to: nat): seq<Step> {
    var m := Message(seqNo, now);
    [ReadT0] + ([Publish] + ([Echo(m)] + ([Match(m)] + ([Tick(to)] + ([Stop] + [])))))
  }

  /** A round can complete: published at once, echoed, and stored at time `to`, it measures to - now. */
  lemma RoundCompletes(opt: Options, s: State, to: nat) returns (t: State)
    requires s.place.RoundSend? && opt.warmup <= s.place.i < opt.warmup + opt.count && s.now <= to
    ensures Runs(opt, s, RoundSteps(BASE_SEQ + 1 + s.place.i, s.now, to), t)
    ensures t.place == RoundSend(s.place.i + 1)
    ensures t.samples == s.samples + [Sample(BASE_SEQ + 1 + s.place.i, s.now, to, (to - s.now) as real / 2000.0)]
  {
    var m := Message(BASE_SEQ + 1 + s.place.i, s.now);
    var a := Next(opt, s, ReadT0);
    var b := Next(opt, a, Publish);
    var c := Next(opt, b, Echo(m));
    var d := Next(opt, c, Match(m));
    var e := Next(opt, d, Tick(to));
    t := Next(opt, e, Stop);
    assert Runs(opt, t, [], t);
    RunsFirst(opt, e, Stop, [], t);
    RunsFirst(opt, d, Tick(to), [Stop] + [], t);
    RunsFirst(opt, c, Match(m), [Tick(to)] + ([Stop] + []), t);
    RunsFirst(opt, b, Echo(m), [Match(m)] + ([Tick(to)] + ([Stop] + [])), t);
    RunsFirst(opt, a, Publish, [Echo(m)] + ([Match(m)] + ([Tick(to)] + ([Stop] + []))), t);
    RunsFirst(opt, s, ReadT0, [Publish] + ([Echo(m)] + ([Match(m)] + ([Tick(to)] + ([Stop] + [])))), t);
  }

  /** A probe can link: number i + 1 is sent, echoed and matched, and the first round begins. */
  lemma ProbeLinks(opt: Options, s: State) returns (t: State)
    requires s.place.ProbeSend? && s.place.i < opt.probes
    ensures var m := Message(s.place.i + 1, s.now);
            Runs(opt, s, [Probe] + ([Echo(m)] + ([ProbeMatch(m)] + [])), t)
    ensures t.place == RoundSend(0) && t.samples == s.samples
  {
    var m := Message(s.place.i + 1, s.now);
    var a := Next(opt, s, Probe);
    var b := Next(opt, a, Echo(m));
    t := Next(opt, b, ProbeMatch(m));
    assert Runs(opt, t, [], t);
    RunsFirst(opt, b, ProbeMatch(m), [], t);
    RunsFirst(opt, a, Echo(m), [ProbeMatch(m)] + [], t);
    RunsFirst(opt, s, Probe, [Echo(m)] + ([ProbeMatch(m)] + []), t);
  }
}
