/** The single-process ping-pong of benchmarks/zenoh_bench.cc: link probes are numbered from 1, and
    the timed loop goes on from the probe that came through. */
module LinkedPingPong {

  /** Few probes for large samples. */
  function Probes(size: nat): nat {
    if size > 256 * 1024 then 4 else 32
  }

  /** From 4 KiB on a probe only counts when it came through shared memory. */
  predicate NeedsShm(size: nat) {
    size >= 4096
  }

  /** Where RunPingPong stands. */
  datatype Place =
    | ProbePut(i: nat)        // about to put probe i, or to give up
    | ProbeWait(i: nat)
    | Ready                   // loop head of the timed loop
    | Waiting                 // sample seqNo is out
    | Matched(sendNs: nat)    // it came back; about to read the clock
    | Failed

  datatype Message = Message(seqNo: nat, sendNs: nat, shm: bool)

  /** What one round measured; the latency is recvNs - sendNs. */
  datatype Sample = Sample(seqNo: nat, sendNs: nat, recvNs: nat)

  /** `sent` only grows: what was put may be delivered at any later time, any number of times, or
      never. */
  datatype State = State(now: nat, place: Place, seqNo: nat, linked: nat, sent: set<Message>, samples: seq<Sample>)

  const INITIAL := State(0, ProbePut(1), 0, 0, {}, [])

  datatype Step =
    | Tick(to: nat)
    | PutProbe(shm: bool)
    | ProbeMatch(m: Message)
    | ProbeTimeout
    | GiveUp
    | Put(shm: bool)
    | Match(m: Message)
    | Discard(m: Message)
    | RoundTimeout
    | Record

  predicate Enabled(size: nat, s: State, st: Step) {
    match st
    case Tick(to) => s.now <= to
    case PutProbe(_) => s.place.ProbePut? && s.place.i <= Probes(size)
    case ProbeMatch(m) => s.place.ProbeWait? && m in s.sent && m.seqNo == s.place.i && (NeedsShm(size) ==> m.shm)
    case ProbeTimeout => s.place.ProbeWait?
    case GiveUp => s.place.ProbePut? && s.place.i > Probes(size)
    case Put(_) => s.place.Ready?
    case Match(m) => s.place.Waiting? && m in s.sent && m.seqNo == s.seqNo
    case Discard(m) =>
      && m in s.sent
      && ((s.place.Waiting? && m.seqNo != s.seqNo)
          || (s.place.ProbeWait? && !(m.seqNo == s.place.i && (NeedsShm(size) ==> m.shm))))
    case RoundTimeout => s.place.Waiting?
    case Record => s.place.Matched?
  }

  function Next(size: nat, s: State, st: Step): State
    requires Enabled(size, s, st)
  {
    match st
    case Tick(to) => s.(now := to)
    case PutProbe(shm) => s.(sent := s.sent + {Message(s.place.i, s.now, shm)}, place := ProbeWait(s.place.i))
    case ProbeMatch(m) => s.(place := Ready, seqNo := s.place.i, linked := s.place.i)
    case ProbeTimeout => s.(place := ProbePut(s.place.i + 1))
    case GiveUp => s.(place := Failed)
    case Put(shm) => s.(sent := s.sent + {Message(s.seqNo + 1, s.now, shm)}, seqNo := s.seqNo + 1, place := Waiting)
    case Match(m) => s.(place := Matched(m.sendNs))
    case Discard(_) => s
    case RoundTimeout => s.(place := Failed)
    case Record => s.(samples := s.samples + [Sample(s.seqNo, s.place.sendNs, s.now)], place := Ready)
  }

  ghost predicate Runs(size: nat, s: State, trace: seq<Step>, t: State)
    decreases |trace|
  {
    if trace == [] then s == t else
    Enabled(size, s, trace[0]) && Runs(size, Next(size, s, trace[0]), trace[1..], t)
  }

  // ---------------------------------------------------------------- invariants

  /** The greatest number put so far. */
  function Top(s: State): int {
    match s.place
    case ProbePut(i) => i - 1
    case ProbeWait(i) => i
    case _ => s.seqNo
  }

  /** Every number is put once, probes included; nothing comes from the future. */
  ghost predicate NumbersUnique(s: State) {
    && (forall m :: m in s.sent ==> (m.seqNo <= Top(s) || s.place.Failed?) && m.sendNs <= s.now)
    && (forall m, n :: m in s.sent && n in s.sent && m.seqNo == n.seqNo ==> m == n)
  }

  /** When the last round ended. */
  function LastRecv(s: State): nat {
    if s.samples == [] then 0 else s.samples[|s.samples| - 1].recvNs
  }

  /** The round in progress: its sample was put after the previous round ended. */
  ghost predicate RoundFresh(s: State) {
    && LastRecv(s) <= s.now
    && (s.place.Waiting? ==> forall m :: m in s.sent && m.seqNo == s.seqNo ==> LastRecv(s) <= m.sendNs)
    && (s.place.Matched? ==> LastRecv(s) <= s.place.sendNs <= s.now && WasPut(s, s.seqNo, s.place.sendNs))
  }

  /** A message of that number was put at that time. */
  ghost predicate WasPut(s: State, seqNo: nat, sendNs: nat) {
    exists m :: m in s.sent && m.seqNo == seqNo && m.sendNs == sendNs
  }

  predicate Probing(p: Place) {
    p.ProbePut? || p.ProbeWait?
  }

  /** Rounds are numbered on from the linked probe. */
  predicate Numbered(s: State) {
    && (Probing(s.place) ==> s.samples == [])
    && (s.place.Ready? ==> s.seqNo == s.linked + |s.samples|)
    && (s.place.Waiting? || s.place.Matched? ==> s.seqNo == s.linked + |s.samples| + 1)
  }

  ghost predicate GoodSample(s: State, k: nat)
    requires k < |s.samples|
  {
    var x := s.samples[k];
    && x.seqNo == s.linked + 1 + k && WasPut(s, x.seqNo, x.sendNs)
    && (if k == 0 then 0 else s.samples[k - 1].recvNs) <= x.sendNs <= x.recvNs <= s.now
  }

  ghost predicate GoodSamples(s: State) {
    forall k :: 0 <= k < |s.samples| ==> GoodSample(s, k)
  }

  ghost predicate Invariant(s: State) {
    NumbersUnique(s) && RoundFresh(s) && Numbered(s) && GoodSamples(s)
  }

  lemma NumbersStep(size: nat, s: State, st: Step)
    requires NumbersUnique(s) && Enabled(size, s, st)
    ensures NumbersUnique(Next(size, s, st))
  {
  }

  lemma WasPutStable(s: State, t: State, seqNo: nat, sendNs: nat)
    requires WasPut(s, seqNo, sendNs) && s.sent <= t.sent
    ensures WasPut(t, seqNo, sendNs)
  {
    var m :| m in s.sent && m.seqNo == seqNo && m.sendNs == sendNs;
    assert m in t.sent;
  }

  lemma FreshStep(size: nat, s: State, st: Step)
    requires NumbersUnique(s) && RoundFresh(s) && Numbered(s) && Enabled(size, s, st)
    ensures RoundFresh(Next(size, s, st)) && Numbered(Next(size, s, st))
  {
    var t := Next(size, s, st);
    if st.Match? {
      assert st.m in t.sent;
    } else if s.place.Matched? && t.place.Matched? {
      WasPutStable(s, t, s.seqNo, s.place.sendNs);
    }
  }

  lemma SamplesStep(size: nat, s: State, st: Step)
    requires Invariant(s) && Enabled(size, s, st)
    ensures GoodSamples(Next(size, s, st))
  {
    hide NumbersUnique;
    var t := Next(size, s, st);
    forall k | 0 <= k < |t.samples| ensures GoodSample(t, k) {
      if k < |s.samples| {
        assert GoodSample(s, k) && t.samples[k] == s.samples[k];
        WasPutStable(s, t, s.samples[k].seqNo, s.samples[k].sendNs);
      } else {
        WasPutStable(s, t, s.seqNo, s.place.sendNs);
      }
    }
  }

  lemma {:induction false} RunKeepsInvariant(size: nat, s: State, trace: seq<Step>, t: State)
    requires Invariant(s) && Runs(size, s, trace, t)
    ensures Invariant(t)
    decreases |trace|
  {
    if trace != [] {
      NumbersStep(size, s, trace[0]);
      FreshStep(size, s, trace[0]);
      SamplesStep(size, s, trace[0]);
      RunKeepsInvariant(size, Next(size, s, trace[0]), trace[1..], t);
    }
  }

  /** Freshness: round k measures the one message ever put under number linked + 1 + k, which is no
      probe's, from its own stamp to its arrival; and it was put after round k - 1 had ended. */
  lemma SamplesAreFresh(size: nat, trace: seq<Step>, s: State, k: nat)
    requires Runs(size, INITIAL, trace, s) && k < |s.samples|
    ensures var x := s.samples[k];
            && x.seqNo == s.linked + 1 + k && WasPut(s, x.seqNo, x.sendNs)
            && (forall m :: m in s.sent && m.seqNo == x.seqNo ==> m.sendNs == x.sendNs)
            && (if k == 0 then 0 else s.samples[k - 1].recvNs) <= x.sendNs <= x.recvNs
  {
    RunKeepsInvariant(size, INITIAL, trace, s);
    assert GoodSample(s, k);
  }

  // ------------------------------------------------------- when the clock is read

  lemma {:induction false} ClockMoves(size: nat, s: State, trace: seq<Step>, t: State)
    requires Runs(size, s, trace, t)
    ensures s.now <= t.now && s.sent <= t.sent
    decreases |trace|
  {
    if trace != [] {
      ClockMoves(size, Next(size, s, trace[0]), trace[1..], t);
    }
  }

  /** Samples only grow, and those of a stretch of a run carry receive times of that stretch. */
  lemma {:induction false} RecordedInStretch(size: nat, s: State, trace: seq<Step>, t: State)
    requires Runs(size, s, trace, t)
    ensures s.samples <= t.samples
    ensures forall k :: |s.samples| <= k < |t.samples| ==> s.now <= t.samples[k].recvNs <= t.now
    decreases |trace|
  {
    if trace != [] {
      var u := Next(size, s, trace[0]);
      RecordedInStretch(size, u, trace[1..], t);
      ClockMoves(size, u, trace[1..], t);
    }
  }

  /** And the messages put in a stretch are stamped in it. */
  lemma {:induction false} StampedInStretch(size: nat, s: State, trace: seq<Step>, t: State, m: Message)
    requires Runs(size, s, trace, t) && m in t.sent && m !in s.sent
    ensures s.now <= m.sendNs <= t.now
    decreases |trace|
  {
    if trace != [] {
      var u := Next(size, s, trace[0]);
      ClockMoves(size, u, trace[1..], t);
      if m !in u.sent {
        StampedInStretch(size, u, trace[1..], t, m);
      }
    }
  }

  lemma {:induction false} MatchedStays(size: nat, s: State, trace: seq<Step>, t: State)
    requires Runs(size, s, trace, t) && s.place.Matched? && t.samples == s.samples && t.place.Matched?
    ensures t.place == s.place && t.seqNo == s.seqNo
    decreases |trace|
  {
    if trace != [] {
      var u := Next(size, s, trace[0]);
      RecordedInStretch(size, u, trace[1..], t);
      MatchedStays(size, u, trace[1..], t);
    }
  }

  /** A round's latency, exactly: message m is taken back at s, and the round is recorded at u before
      any other. The sample runs from m's own stamp to the clock at u, which is no earlier than the
      clock at s and, if no time passed in between, equal to it. */
  lemma RoundMeasures(size: nat, s: State, m: Message, trace: seq<Step>, u: State)
    requires Enabled(size, s, Match(m)) && Runs(size, Next(size, s, Match(m)), trace, u)
    requires u.samples == s.samples && Enabled(size, u, Record)
    ensures Next(size, u, Record).samples == s.samples + [Sample(m.seqNo, m.sendNs, u.now)] && s.now <= u.now
  {
    MatchedStays(size, Next(size, s, Match(m)), trace, u);
    ClockMoves(size, Next(size, s, Match(m)), trace, u);
  }

  lemma RunsFirst(size: nat, s: State, st: Step, rest: seq<Step>, t: State)
    requires Enabled(size, s, st) && Runs(size, Next(size, s, st), rest, t)
    ensures Runs(size, s, [st] + rest, t)
  {
    assert ([st] + rest)[1..] == rest;
  }

  /** A round can complete: put at s and taken back at time `to`, it measures to - now under the next number. */
  lemma RoundCompletes(size: nat, s: State, to: nat) returns (t: State)
    requires s.place.Ready? && s.now <= to
    ensures var m := Message(s.seqNo + 1, s.now, true);
            Runs(size, s, [Put(true)] + ([Tick(to)] + ([Match(m)] + ([Record] + []))), t)
    ensures t.place == Ready && t.seqNo == s.seqNo + 1 && t.samples == s.samples + [Sample(s.seqNo + 1, s.now, to)]
  {
    var m := Message(s.seqNo + 1, s.now, true);
    var a := Next(size, s, Put(true));
    var b := Next(size, a, Tick(to));
    var c := Next(size, b, Match(m));
    t := Next(size, c, Record);
    assert Runs(size, t, [], t);
    RunsFirst(size, c, Record, [], t);
    RunsFirst(size, b, Match(m), [Record] + [], t);
    RunsFirst(size, a, Tick(to), [Match(m)] + ([Record] + []), t);
    RunsFirst(size, s, Put(true), [Tick(to)] + ([Match(m)] + ([Record] + [])), t);
  }

  /** A probe can link, through shared memory whatever the size, and the rounds go on from its number. */
  lemma ProbeLinks(size: nat, s: State) returns (t: State)
    requires s.place.ProbePut? && s.place.i <= Probes(size)
    ensures var m := Message(s.place.i, s.now, true);
            Runs(size, s, [PutProbe(true)] + ([ProbeMatch(m)] + []), t)
    ensures t.place == Ready && t.seqNo == t.linked == s.place.i
  {
    var m := Message(s.place.i, s.now, true);
    var a := Next(size, s, PutProbe(true));
    t := Next(size, a, ProbeMatch(m));
    assert Runs(size, t, [], t);
    RunsFirst(size, a, ProbeMatch(m), [], t);
    RunsFirst(size, s, PutProbe(true), [ProbeMatch(m)] + [], t);
  }
}
