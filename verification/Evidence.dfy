/** When the counters behind a #UD verdict were measured twice. */
module Evidence {
  import opened Bytes
  import opened PrefixFilter
  import opened Candidates
  import opened SaveFormat
  import opened SaveFile
  import opened SearchMachine
  import opened Coverage

  /** Whether an instruction raises #UD does not change from one execution to the next. */
  ghost predicate Deterministic(trace: seq<Execution>)
  {
    forall i, j :: 0 <= i < |trace| && 0 <= j < |trace| && trace[i].instruction == trace[j].instruction ==>
      (trace[i].event.exception == INVALID_OPCODE <==> trace[j].event.exception == INVALID_OPCODE)
  }

  /** The latest execution was of this instruction, raised #UD, and showed these counters. */
  ghost predicate JustSeen(trace: seq<Execution>, instruction: seq<byte>, counters: seq<u64>)
  {
    |trace| > 0 &&
    var last := trace[|trace| - 1];
    last.instruction == instruction && last.event.exception == INVALID_OPCODE && last.event.counters == counters
  }

  /** A nonzero baseline under measurement was shown by the UD2 execution just before. */
  ghost predicate BaselineBacked(cfg: Config, m: Machine)
  {
    m.measuringUd ==>
      && m.lastCounters == Zeros(cfg.events) && m.core.length == 1
      && (m.status == Running && m.udCounters != Zeros(cfg.events) ==> JustSeen(m.trace, UD2, m.udCounters))
  }

  ghost predicate LastRaisedUd(trace: seq<Execution>)
  {
    |trace| > 0 && trace[|trace| - 1].event.exception == INVALID_OPCODE
  }

  ghost predicate LastWas(trace: seq<Execution>, instruction: seq<byte>)
  {
    |trace| > 0 && trace[|trace| - 1].instruction == instruction
  }

  /**
    If the latest execution raised #UD, and it was of the pending candidate or nonzero counters are
    remembered, then both: the remembered counters are what the pending candidate just showed.
  */
  ghost predicate UdBacked(cfg: Config, m: Machine)
    requires InBounds(m.core)
  {
    !m.measuringUd && m.status == Running ==>
      && (m.lastCounters != Zeros(cfg.events) ==> |m.trace| > 0)
      && (LastRaisedUd(m.trace) && (m.lastCounters != Zeros(cfg.events) || LastWas(m.trace, Pending(m))) ==>
            JustSeen(m.trace, Pending(m), m.lastCounters))
  }

  /** Nonzero counters are remembered only right after a #UD of the pending candidate: true of deterministic runs. */
  ghost predicate UdRemembered(cfg: Config, m: Machine)
    requires InBounds(m.core)
  {
    !m.measuringUd && m.status == Running && m.lastCounters != Zeros(cfg.events) ==>
      LastRaisedUd(m.trace) && LastWas(m.trace, Pending(m))
  }

  lemma SameInstructionSameBuffer(cfg: Config, c: Core, d: Core)
    requires Sound(cfg, c) && Sound(cfg, d) && c.bytes[..c.length] == d.bytes[..d.length]
    ensures c.bytes == d.bytes
  {
    hide Rejected;
    assert c.length == |c.bytes[..c.length]| == d.length;
    assert forall i :: 0 <= i < c.length ==> c.bytes[i] == c.bytes[..c.length][i] == d.bytes[i];
  }

  /** The candidate an advance finds is not the one it comes from. */
  lemma NextIsAnother(cfg: Config, c: Core, d: Core)
    requires Sound(cfg, c) && Sound(cfg, d) && Val(c.bytes) < Val(d.bytes)
    ensures c.bytes[..c.length] != d.bytes[..d.length]
  {
    hide Val, Rejected;
    if c.bytes[..c.length] == d.bytes[..d.length] {
      SameInstructionSameBuffer(cfg, c, d);
    }
  }

  /** What a step that concludes a candidate leaves pending, if anything. */
  lemma ConcludedIsAnother(cfg: Config, m: Machine, e: Event)
    requires Invariant(cfg, m) && m.status == Running && !m.measuringUd && Classifies(cfg, m, e)
    ensures var r := Step(cfg, m, e); r.status == Running ==> Pending(r) != Pending(m) && !r.measuringUd
  {
    hide Rejected, Malformed, Passed, Covered, Val, Advance, Conclude, LogSound, AllLess;
    var r := Step(cfg, m, e);
    var seen := m.(trace := m.trace + [Execution(Pending(m), e)]);
    var reset := if e.exception == INVALID_OPCODE then seen.(lastCounters := Zeros(cfg.events)) else seen;
    ConcludeAdvances(cfg, reset, e);
    if r.status == Running {
      AdvanceShape(cfg, r.(core := m.core, malformed := m.malformed));
      NextIsAnother(cfg, m.core, r.core);
    }
  }

  lemma StepBacks(cfg: Config, m: Machine, e: Event)
    requires Invariant(cfg, m) && InBounds(m.core) && BaselineBacked(cfg, m) && UdBacked(cfg, m)
    ensures BaselineBacked(cfg, Step(cfg, m, e)) && UdBacked(cfg, Step(cfg, m, e))
    ensures UdRemembered(cfg, m) && Deterministic(Step(cfg, m, e).trace) ==> UdRemembered(cfg, Step(cfg, m, e))
  {
    hide Invariant, Advance, EncodeRecord, EncodeInts, Put, Fits, CountKind, Classify;
    if m.status == Running {
      var r := Step(cfg, m, e);
      var n := |m.trace|;
      assert r.trace == m.trace + [Execution(Pending(m), e)];
      assert r.trace[n].event == e && r.trace[n].instruction == Pending(m);
      assert n > 0 ==> r.trace[n - 1] == m.trace[n - 1];
      if m.measuringUd {
        assert |UD2| != 1;
      } else if Classifies(cfg, m, e) {
        ConcludedIsAnother(cfg, m, e);
      }
    }
  }

  lemma DeterminismOfPrefix(shorter: seq<Execution>, longer: seq<Execution>)
    requires shorter <= longer && Deterministic(longer)
    ensures Deterministic(shorter)
  {
    assert forall i :: 0 <= i < |shorter| ==> shorter[i] == longer[i];
  }

  lemma {:induction false} ChainBacks(cfg: Config, states: seq<Machine>, events: seq<Event>, i: nat)
    requires Chain(cfg, states, events) && i < |states|
    ensures InBounds(states[i].core) && BaselineBacked(cfg, states[i]) && UdBacked(cfg, states[i])
    ensures Deterministic(states[i].trace) ==> UdRemembered(cfg, states[i])
  {
    hide Step, Deterministic, Invariant;
    ChainInBounds(cfg, states, events, i);
    if i > 0 {
      assert Follows(cfg, states[i - 1], events[i - 1], states[i]);
      TraceIsExtended(cfg, states[i - 1], events[i - 1]);
      if Deterministic(states[i].trace) {
        DeterminismOfPrefix(states[i - 1].trace, states[i].trace);
      }
      ChainBacks(cfg, states, events, i - 1);
      ChainHolds(cfg, states, events, i - 1);
      StepBacks(cfg, states[i - 1], events[i - 1]);
    }
  }

  lemma CountersAreBacked(cfg: Config, m: Machine)
    requires Reachable(cfg, m)
    ensures InBounds(m.core) && BaselineBacked(cfg, m) && UdBacked(cfg, m)
    ensures Deterministic(m.trace) ==> UdRemembered(cfg, m)
  {
    hide Deterministic, BaselineBacked, UdBacked, UdRemembered;
    var states, events :| Chain(cfg, states, events) && states[|events|] == m;
    ChainBacks(cfg, states, events, |events|);
  }

  lemma TraceIsExtended(cfg: Config, m: Machine, e: Event)
    requires InBounds(m.core)
    ensures m.trace <= Step(cfg, m, e).trace
  {
    hide NextCandidate, Malformed, EncodeRecord, EncodeInts, Put, Fits, CountKind, Classify;
  }

  // ----- the theorems -----

  /** The step counts its candidate as hidden behind #UD. */
  ghost predicate Counts(cfg: Config, m: Machine, e: Event)
    requires InBounds(m.core)
  {
    Step(cfg, m, e).stats.undocumentedBehindUd != m.stats.undocumentedBehindUd
  }

  /** It counts, though the execution just before did not show these counters for this candidate. */
  ghost predicate Unconfirmed(cfg: Config, m: Machine, e: Event)
    requires InBounds(m.core)
  {
    Counts(cfg, m, e) && !JustSeen(m.trace, Pending(m), e.counters)
  }

  /** A #UD counts just when its counters are the remembered ones, not the baseline, and XED does not know the bytes. */
  lemma CountsJustWhen(cfg: Config, m: Machine, e: Event)
    requires InBounds(m.core)
    ensures Counts(cfg, m, e) <==>
              && m.status == Running && !m.measuringUd
              && e.exception == INVALID_OPCODE && e.counters == m.lastCounters
              && e.counters != m.udCounters && e.xedLength == 0
  {
    hide NextCandidate, Malformed, EncodeRecord, EncodeInts, Put, Fits;
  }

  /**
    On any processor: a count is unconfirmed just when the execution before it did not raise #UD, or,
    if its counters are all zero, was not of the same candidate. Before a count on nonzero counters
    there always was one.
  */
  lemma UnconfirmedJustWhen(cfg: Config, m: Machine, e: Event)
    requires Reachable(cfg, m) && InBounds(m.core) && Counts(cfg, m, e)
    ensures Unconfirmed(cfg, m, e) <==>
              !LastRaisedUd(m.trace) || (e.counters == Zeros(cfg.events) && !LastWas(m.trace, Pending(m)))
    ensures e.counters != Zeros(cfg.events) ==> |m.trace| > 0
  {
    hide Reachable, Step;
    CountsJustWhen(cfg, m, e);
    CountersAreBacked(cfg, m);
  }

  /**
    A step that counts a candidate as hidden behind #UD saw counters that differ from the UD2
    baseline on an instruction XED did not decode; and on a processor where raising #UD is
    deterministic, unless they were all zero, the execution just before was of the same candidate,
    also raised #UD, and showed the same counters.
  */
  lemma HiddenBehindUdIsMeasuredTwice(cfg: Config, m: Machine, e: Event)
    requires Reachable(cfg, m) && InBounds(m.core)
    requires Deterministic(m.trace + [Execution(Pending(m), e)])
    ensures Counts(cfg, m, e) ==>
              && !m.measuringUd && e.exception == INVALID_OPCODE && e.xedLength == 0 && e.counters != m.udCounters
              && (e.counters == Zeros(cfg.events) || JustSeen(m.trace, Pending(m), e.counters))
  {
    hide Reachable, Step;
    DeterminismOfPrefix(m.trace, m.trace + [Execution(Pending(m), e)]);
    CountersAreBacked(cfg, m);
    CountsJustWhen(cfg, m, e);
    if Counts(cfg, m, e) { UnconfirmedJustWhen(cfg, m, e); }
  }

  /**
    The baseline is written once, when a measurement repeats the one before it or is all zero; it never changes
    again.
  */
  lemma BaselineIsMeasuredTwice(cfg: Config, m: Machine, e: Event)
    requires Reachable(cfg, m) && InBounds(m.core) && m.status == Running
    ensures var r := Step(cfg, m, e);
            && (m.measuringUd && !r.measuringUd ==>
                  && e.exception == 6 && e.counters == r.udCounters
                  && (r.udCounters == Zeros(cfg.events) || JustSeen(m.trace, [0x0f, 0x0b], r.udCounters)))
            && (!m.measuringUd ==> !r.measuringUd && r.udCounters == m.udCounters)
  {
    hide Reachable, NextCandidate, Malformed, EncodeRecord, EncodeInts, Put, Fits, CountKind, Classify;
    CountersAreBacked(cfg, m);
  }

  // ----- inputs that reach both cases -----

  function UserEvent(exception: ExceptionNumber, counter: u64, xedLength: nat): Event
  {
    Event(exception, 0, 3, 0, 0, [counter], xedLength, [])
  }

  lemma FirstAdvance(f: FilterConfig, b: Buffer)
    requires b[0] == 0
    ensures NextCandidate(f, b, 0, 1) == Candidate(b[0 := 1], 0)
  {
    assert KindAt(f.mode, b[0 := 1], 1, 0) == Opcode;
  }

  /** Baseline measured as zero, then the zero byte raising #UD with a counter of 5, then a debug trap. */
  lemma LeftoverCounters(cfg: Config, capacity: nat)
    requires cfg == Config(FilterConfig(Mode64, 1, 0), 1, 0x2000)
    ensures var m0 := Init(cfg, |EncodeInts([0])| + capacity);
            var m1 := Step(cfg, m0, UserEvent(6, 0, 0));
            var m2 := Step(cfg, m1, UserEvent(6, 5, 1));
            var m3 := Step(cfg, m2, UserEvent(1, 0, 1));
            && InBounds(m3.core) && m3.status == Running && !m3.measuringUd && m3.lastCounters == [5]
                && m3.udCounters == [0]
            && m3.stats.undocumentedBehindUd == 0
            && |m3.trace| == 3 && m3.trace[2].event.exception == 1
  {
    hide NextCandidate, Rejected, Malformed, EncodeInts, EncodeRecord;
    assert Zeros(1) == [0];
    var m0 := Init(cfg, |EncodeInts([0])| + capacity);
    FirstAdvance(cfg.filter, m0.core.bytes);
  }

  /**
    The remembered counters are cleared only by a confirmed #UD. A candidate that raised #UD once and
    then a debug trap leaves them behind, and they confirm the next candidate's first #UD.
  */
  lemma StaleCountersCanConfirm()
    ensures exists cfg: Config, m: Machine, e: Event ::
              Reachable(cfg, m) && InBounds(m.core) && e.counters != Zeros(cfg.events) && Unconfirmed(cfg, m, e)
  {
    hide Reachable, Init, Step, EncodeInts;
    var cfg := Config(FilterConfig(Mode64, 1, 0), 1, 0x2000);
    var capacity := |EncodeInts([0])|;
    LeftoverCounters(cfg, 0);
    InitIsReachable(cfg, capacity);
    var m0 := Init(cfg, capacity);
    InitInBounds(cfg, capacity);
    StepIsReachable(cfg, m0, UserEvent(6, 0, 0));
    var m1 := Step(cfg, m0, UserEvent(6, 0, 0));
    StepIsReachable(cfg, m1, UserEvent(6, 5, 1));
    var m2 := Step(cfg, m1, UserEvent(6, 5, 1));
    StepIsReachable(cfg, m2, UserEvent(1, 0, 1));
    var m3, last := Step(cfg, m2, UserEvent(1, 0, 1)), UserEvent(6, 5, 0);
    assert last.counters[0] != m3.udCounters[0] && last.counters[0] != Zeros(cfg.events)[0];
    CountsJustWhen(cfg, m3, last);
    assert Unconfirmed(cfg, m3, last);
  }

  /** Baseline measured twice as one. */
  lemma NonzeroBaseline(cfg: Config)
    requires cfg == Config(FilterConfig(Mode64, 1, 0), 1, 0x2000)
    ensures var m1 := Step(cfg, Init(cfg, |EncodeInts([1])|), UserEvent(6, 1, 0));
            var m2 := Step(cfg, m1, UserEvent(6, 1, 0));
            && InBounds(m2.core) && m2.status == Running && !m2.measuringUd && m2.lastCounters == [0]
            && m2.udCounters == [1] && |m2.trace| == 2 && m2.trace[1].instruction == UD2 && m2.core.length == 1
  {
    hide EncodeInts;
    assert Zeros(1) == [0];
    assert UserEvent(6, 1, 0).counters[0] != Zeros(1)[0];
  }

  /** Remembered counters start as zeros, so a first execution whose counters are all zero counts at once. */
  lemma ZeroCountersConfirmThemselves()
    ensures exists cfg: Config, m: Machine, e: Event ::
              Reachable(cfg, m) && InBounds(m.core) && e.counters == Zeros(cfg.events) && Unconfirmed(cfg, m, e)
  {
    hide Reachable, Init, Step, EncodeInts;
    var cfg := Config(FilterConfig(Mode64, 1, 0), 1, 0x2000);
    var capacity := |EncodeInts([1])|;
    NonzeroBaseline(cfg);
    InitIsReachable(cfg, capacity);
    InitInBounds(cfg, capacity);
    var m0 := Init(cfg, capacity);
    StepIsReachable(cfg, m0, UserEvent(6, 1, 0));
    var m1 := Step(cfg, m0, UserEvent(6, 1, 0));
    StepIsReachable(cfg, m1, UserEvent(6, 1, 0));
    var m2, e := Step(cfg, m1, UserEvent(6, 1, 0)), UserEvent(6, 0, 0);
    assert e.counters == Zeros(cfg.events);
    assert e.counters[0] != m2.udCounters[0];
    CountsJustWhen(cfg, m2, e);
    assert |Pending(m2)| == 1;
    assert Unconfirmed(cfg, m2, e);
  }

  lemma InitInBounds(cfg: Config, capacity: nat)
    ensures InBounds(Init(cfg, capacity).core)
  {
  }
}
