/** What a whole run of the search visits, what it may skip, and in what order. */
module Coverage {
  import opened SaveFormat
  import opened SaveFile
  import opened Bytes
  import opened PrefixFilter
  import opened PrefixFilterProperties
  import opened Candidates
  import opened SearchMachine

  // ----- what accounts for a byte string -----

  /** The string begins with the instruction, or shares the bytes up to a pointer that stayed put. */
  ghost predicate CoveredBy(cfg: Config, c: Classified, x: Buffer)
    requires InBounds(c.core)
  {
    || Agree(x, c.core.bytes, c.core.length)
    || (Tunnels(cfg, c.core) && Agree(x, c.core.bytes, c.core.pointer + 1))
  }

  ghost predicate Covered(cfg: Config, log: seq<Classified>, x: Buffer)
  {
    || Rejected(cfg.filter, x, CAPACITY)
    || exists i :: 0 <= i < |log| && InBounds(log[i].core) && CoveredBy(cfg, log[i], x)
  }

  // ----- the invariant -----

  /** A candidate as the search leaves it: in bounds, zero after the pointer, accepted up to it. */
  ghost predicate Sound(cfg: Config, c: Core)
  {
    InBounds(c) && ZeroAfter(c.bytes, c.pointer) && !Rejected(cfg.filter, c.bytes, c.pointer + 1)
  }

  ghost predicate Passed(cfg: Config, log: seq<Classified>, bytes: Buffer, pointer: nat)
    requires pointer < CAPACITY
  {
    forall x: Buffer :: Below(x, bytes, pointer + 1) ==> Covered(cfg, log, x)
  }

  ghost predicate AllLess(log: seq<Classified>, bytes: Buffer)
  {
    forall i :: 0 <= i < |log| ==> Val(log[i].core.bytes) < Val(bytes)
  }

  ghost predicate LogSound(cfg: Config, log: seq<Classified>)
  {
    && (forall i :: 0 <= i < |log| ==> Sound(cfg, log[i].core))
    && (forall i, j :: 0 <= i < j < |log| ==> Val(log[i].core.bytes) < Val(log[j].core.bytes))
  }

  ghost predicate Invariant(cfg: Config, m: Machine)
  {
    && LogSound(cfg, m.log)
    && (m.measuringUd ==> m.log == [])
    && (m.status == Running ==>
          && Sound(cfg, m.core)
          && (m.malformed <==> Malformed(cfg.filter, m.core.bytes, m.core.pointer + 1))
          && Passed(cfg, m.log, m.core.bytes, m.core.pointer)
          && AllLess(m.log, m.core.bytes))
    && (m.status == Done ==> forall x: Buffer :: Covered(cfg, m.log, x))
  }

  lemma InitHolds(cfg: Config, capacity: nat)
    ensures Invariant(cfg, Init(cfg, capacity))
  {
    var m := Init(cfg, capacity);
    assert KindAt(cfg.filter.mode, m.core.bytes, 1, 0) == Opcode;
  }

  lemma CoveredStaysCovered(cfg: Config, log: seq<Classified>, c: Classified, x: Buffer)
    requires Covered(cfg, log, x)
    ensures Covered(cfg, log + [c], x)
  {
    if i :| 0 <= i < |log| && InBounds(log[i].core) && CoveredBy(cfg, log[i], x) {
      assert (log + [c])[i] == log[i];
    }
  }

  /** Once a candidate is classified, everything up to the byte raised next is accounted for. */
  lemma ClassifiedCovers(cfg: Config, log: seq<Classified>, c: Classified, x: Buffer)
    requires Sound(cfg, c.core) && Passed(cfg, log, c.core.bytes, c.core.pointer)
    requires AtMost(x, c.core.bytes, AdvanceFrom(cfg, c.core) + 1)
    ensures Covered(cfg, log + [c], x)
  {
    var b := c.core.bytes;
    if Below(x, b, AdvanceFrom(cfg, c.core) + 1) {
      var j :| 0 <= j <= AdvanceFrom(cfg, c.core) && Agree(x, b, j) && x[j] < b[j];
      assert j <= c.core.pointer;
      assert Below(x, b, c.core.pointer + 1);
      CoveredStaysCovered(cfg, log, c, x);
    } else {
      assert (log + [c])[|log|] == c;
      assert CoveredBy(cfg, c, x);
    }
  }

  lemma AdvanceCovers(cfg: Config, log: seq<Classified>, c: Classified, m: Machine)
    requires Sound(cfg, c.core) && Passed(cfg, log, c.core.bytes, c.core.pointer)
    requires m.core == c.core && m.status == Running
    ensures var r := Advance(cfg, m);
            && (r.status == Running ==> Passed(cfg, log + [c], r.core.bytes, r.core.pointer))
            && (r.status == Done ==> forall x: Buffer :: Covered(cfg, log + [c], x))
  {
    hide Rejected, Malformed, PrefixCount, NextCandidate;
    var r, from := Advance(cfg, m), AdvanceFrom(cfg, m.core);
    forall x: Buffer | r.status == Done || Below(x, r.core.bytes, r.core.pointer + 1)
      ensures Covered(cfg, log + [c], x)
    {
      if AtMost(x, c.core.bytes, from + 1) {
        ClassifiedCovers(cfg, log, c, x);
      } else {
        AdvanceSkipsOnlyRejected(cfg.filter, m.core.bytes, from, m.core.length, x);
      }
    }
  }

  /** The advance leaves a sound candidate of exactly the length its pointer asks for, with a larger value. */
  lemma AdvanceShape(cfg: Config, m: Machine)
    requires Sound(cfg, m.core) && m.status == Running
    ensures var r := Advance(cfg, m);
            r.status == Running ==>
              && Sound(cfg, r.core) && r.core.length == r.core.pointer + 1
              && (r.malformed <==> Malformed(cfg.filter, r.core.bytes, r.core.pointer + 1))
              && Val(m.core.bytes) < Val(r.core.bytes)
  {
    hide Rejected, Malformed, Val;
    var r, from := Advance(cfg, m), AdvanceFrom(cfg, m.core);
    NextCandidateShape(cfg.filter, m.core.bytes, from, m.core.length);
    if r.status == Running {
      RaiseAt(m.core.bytes, r.core.bytes, r.core.pointer);
    }
  }

  lemma LogGrows(cfg: Config, log: seq<Classified>, c: Classified)
    requires LogSound(cfg, log) && AllLess(log, c.core.bytes) && Sound(cfg, c.core)
    ensures LogSound(cfg, log + [c])
    ensures forall bytes: Buffer :: Val(c.core.bytes) < Val(bytes) ==> AllLess(log + [c], bytes)
  {
    hide Val, Sound;
  }

  lemma ConcludeHolds(cfg: Config, m: Machine, e: Event)
    requires Invariant(cfg, m) && m.status == Running && !m.measuringUd
    ensures Invariant(cfg, Conclude(cfg, m, e))
  {
    hide LogSound, AllLess, Rejected, Malformed, Passed, Covered, Val, Advance, Classify, Conclude;
    ConcludeAdvances(cfg, m, e);
    var c := Classified(m.core, e, Classify(e, m.malformed, m.core.length, m.udCounters));
    var r := Conclude(cfg, m, e);
    LogGrows(cfg, m.log, c);
    if r.status != WriteFailed {
      var s := r.(core := m.core, malformed := m.malformed, status := Running);
      AdvanceCovers(cfg, m.log, c, s);
      AdvanceShape(cfg, s);
    }
  }

  lemma StepHolds(cfg: Config, m: Machine, e: Event)
    requires InBounds(m.core) && Invariant(cfg, m)
    ensures Invariant(cfg, Step(cfg, m, e))
  {
    hide LogSound, AllLess, Rejected, Malformed, Passed, Covered, Val, Conclude, EncodeInts, Put, Fits;
    if m.status == Running {
      var seen := m.(trace := m.trace + [Execution(Pending(m), e)]);
      assert Invariant(cfg, seen);
      if !m.measuringUd && Classifies(cfg, m, e) {
        var reset := if e.exception == INVALID_OPCODE then seen.(lastCounters := Zeros(cfg.events)) else seen;
        assert Invariant(cfg, reset);
        ConcludeHolds(cfg, reset, e);
      }
    }
  }

  lemma {:induction false} ChainHolds(cfg: Config, states: seq<Machine>, events: seq<Event>, i: nat)
    requires Chain(cfg, states, events) && i < |states|
    ensures Invariant(cfg, states[i])
  {
    hide Invariant, Step, Init;
    if i == 0 {
      var capacity: nat :| states[0] == Init(cfg, capacity);
      InitHolds(cfg, capacity);
    } else {
      ChainHolds(cfg, states, events, i - 1);
      assert Follows(cfg, states[i - 1], events[i - 1], states[i]);
      StepHolds(cfg, states[i - 1], events[i - 1]);
    }
  }

  lemma InvariantHolds(cfg: Config, m: Machine)
    requires Reachable(cfg, m)
    ensures Invariant(cfg, m) && InBounds(m.core)
  {
    hide Invariant;
    var states, events :| Chain(cfg, states, events) && states[|events|] == m;
    ChainHolds(cfg, states, events, |events|);
    ChainInBounds(cfg, states, events, |events|);
  }

  // ----- the theorems -----

  /**
    When the search is done, every string of 15 bytes is rejected by the filter, begins with an
    instruction that was executed and classified, or shares the bytes up to the pointer with a
    classified candidate that repeated the last length and whose pointer byte was no prefix.
  */
  lemma WholeRunCoverage(cfg: Config, m: Machine, x: Buffer)
    requires Reachable(cfg, m) && m.status == Done
    ensures var log := m.log;
            || Rejected(cfg.filter, x, CAPACITY)
            || exists i :: 0 <= i < |log| && InBounds(log[i].core) &&
                 var c := log[i].core;
                 || x[..c.length] == c.bytes[..c.length]
                 || (&& x[..c.pointer + 1] == c.bytes[..c.pointer + 1]
                     && c.length == c.last && c.pointer >= PrefixCount(cfg.filter, c.bytes, c.length))
  {
    hide Reachable, Rejected, PrefixCount, Passed, LogSound, AllLess, CoveredBy;
    InvariantHolds(cfg, m);
    var log := m.log;
    assert Covered(cfg, log, x);
    if !Rejected(cfg.filter, x, CAPACITY) {
      var i :| 0 <= i < |log| && InBounds(log[i].core) && CoveredBy(cfg, log[i], x);
      CoveredBySlices(cfg, log[i], x);
    }
  }

  lemma CoveredBySlices(cfg: Config, c: Classified, x: Buffer)
    requires InBounds(c.core) && CoveredBy(cfg, c, x)
    ensures var b := c.core;
            || x[..b.length] == b.bytes[..b.length]
            || (Tunnels(cfg, b) && x[..b.pointer + 1] == b.bytes[..b.pointer + 1])
  {
    hide Tunnels;
  }

  /** In every reachable running state the candidate is sound: the step invariant of the search. */
  lemma ReachableCandidatesAreSound(cfg: Config, m: Machine)
    requires Reachable(cfg, m) && m.status == Running
    ensures var c := m.core;
            && c.pointer < c.length <= CAPACITY
            && (forall i :: c.pointer < i < CAPACITY ==> c.bytes[i] == 0)
            && !Rejected(cfg.filter, c.bytes, c.pointer + 1)
  {
    hide Reachable, Rejected, Malformed, Passed, Covered;
    InvariantHolds(cfg, m);
  }

  /**
    A reachable candidate counts at most `MostPrefixes`, so at most two more than the limit and ten at all;
    whatever the limit, the look-ahead of the count never leaves the buffer.
  */
  lemma ReachableCountIsBounded(cfg: Config, m: Machine, beyond: byte)
    requires Reachable(cfg, m) && m.status == Running
    ensures var c, f := m.core, cfg.filter;
            && c.length <= CAPACITY
            && PrefixCount(f, c.bytes, c.length) <= MostPrefixes(f) <= 10 && MostPrefixes(f) <= f.maxPrefixes + 2
            && PrefixCount(f.(beyond := beyond), c.bytes, c.length) == PrefixCount(f, c.bytes, c.length)
  {
    hide Reachable, Rejected, Malformed, Passed, Covered, PrefixCount;
    InvariantHolds(cfg, m);
    var c, f := m.core, cfg.filter;
    FilterBoundsTheCount(f, c.bytes, c.pointer, c.length);
    CountIgnoresBeyond(f, f.(beyond := beyond), c.bytes, c.length);
  }

  /** Classified instructions, padded with zeros, come in strictly increasing order, so none comes twice. */
  lemma ClassifiedInOrder(cfg: Config, m: Machine, i: nat, j: nat)
    requires Reachable(cfg, m) && i < j < |m.log|
    ensures var log := m.log;
            && Below(log[i].core.bytes, log[j].core.bytes, CAPACITY)
            && (forall k :: log[i].core.length <= k < CAPACITY ==> log[i].core.bytes[k] == 0)
  {
    hide Reachable, Rejected, Malformed, Passed, Covered, Val;
    InvariantHolds(cfg, m);
    var log := m.log;
    assert Sound(cfg, log[i].core);
    BelowIsLess(log[i].core.bytes, log[j].core.bytes);
  }

  // ----- termination -----

  /** The buffer as a number, then the length: what every step but a rerun increases. */
  ghost function Progress(c: Core): nat { 16 * Val(c.bytes) + c.length }

  /** A step that stays running and is no rerun makes progress; a rerun keeps the candidate. */
  lemma StepMakesProgress(cfg: Config, m: Machine, e: Event)
    requires m.status == Running && Sound(cfg, m.core)
    requires Step(cfg, m, e).status == Running
    ensures if Reruns(cfg, m, e) then Step(cfg, m, e).core == m.core
            else Progress(m.core) < Progress(Step(cfg, m, e).core)
  {
    hide Rejected, Malformed, Val, Advance, Conclude, EncodeInts, Put, Fits;
    if !m.measuringUd && Classifies(cfg, m, e) {
      var seen := m.(trace := m.trace + [Execution(Pending(m), e)]);
      var reset := if e.exception == INVALID_OPCODE then seen.(lastCounters := Zeros(cfg.events)) else seen;
      ConcludeAdvances(cfg, reset, e);
      AdvanceShape(cfg, Step(cfg, m, e).(core := m.core, malformed := m.malformed, status := Running));
    }
  }

  /** How many of the first `n` steps of a run are no reruns. */
  ghost function Moves(cfg: Config, states: seq<Machine>, events: seq<Event>, n: nat): nat
    requires |states| == |events| + 1 && n <= |events|
  {
    if n == 0 then 0
    else Moves(cfg, states, events, n - 1) + if Reruns(cfg, states[n - 1], events[n - 1]) then 0 else 1
  }

  lemma {:induction false} MovesBelowProgress(cfg: Config, states: seq<Machine>, events: seq<Event>, n: nat)
    requires Chain(cfg, states, events) && n <= |events| && states[n].status == Running
    ensures Moves(cfg, states, events, n) < Progress(states[n].core)
  {
    hide Invariant, Step, Progress, Sound;
    ChainHolds(cfg, states, events, n);
    if n == 0 {
      var capacity: nat :| states[0] == Init(cfg, capacity);
      ProgressStarts(cfg, capacity);
    } else {
      assert Follows(cfg, states[n - 1], events[n - 1], states[n]);
      RunningBefore(cfg, states[n - 1], events[n - 1]);
      MovesBelowProgress(cfg, states, events, n - 1);
      ChainHolds(cfg, states, events, n - 1);
      RunningIsSound(cfg, states[n - 1]);
      StepMakesProgress(cfg, states[n - 1], events[n - 1]);
    }
  }

  lemma ProgressStarts(cfg: Config, capacity: nat)
    ensures Progress(Init(cfg, capacity).core) >= 1
  {
  }

  lemma RunningBefore(cfg: Config, m: Machine, e: Event)
    requires InBounds(m.core)
    ensures Step(cfg, m, e).status == Running ==> m.status == Running
  {
    hide MeasureUd, CheckLast;
  }

  lemma RunningIsSound(cfg: Config, m: Machine)
    requires Invariant(cfg, m) && m.status == Running
    ensures Sound(cfg, m.core)
  {
  }

  /** However long a run goes on, all but a bounded number of its steps are reruns. */
  lemma SearchTerminates(cfg: Config, states: seq<Machine>, events: seq<Event>)
    requires Chain(cfg, states, events) && states[|events|].status == Running
    ensures Moves(cfg, states, events, |events|) < 16 * Pow256(CAPACITY)
  {
    MovesBelowProgress(cfg, states, events, |events|);
    ChainInBounds(cfg, states, events, |events|);
  }

  /** With the shipped limit of one prefix, no candidate is ever expected to raise #UD for a malformed VEX prefix. */
  lemma ShippedLimitNeverExpectsUd(cfg: Config, m: Machine)
    requires Reachable(cfg, m) && cfg.filter.maxPrefixes <= 1 && m.status == Running
    ensures !m.malformed
  {
    hide Reachable, Rejected, Malformed, Passed, Covered;
    InvariantHolds(cfg, m);
    MalformedNeedsTwoPrefixes(cfg.filter);
  }
}
