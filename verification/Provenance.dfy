/** Where the records of the save file come from: executions of the recorded bytes. */
module Provenance {
  import opened PrefixFilter
  import opened SaveFormat
  import opened SaveFile
  import opened SearchMachine
  import opened Coverage
  import opened Conservation
  import opened StepTable

  /** An execution of just these bytes ended in the event classified, and the event gives the type. */
  ghost predicate FromExecution(cfg: Config, m: Machine, c: Classified)
  {
    && InBounds(c.core)
    && (exists j :: 0 <= j < |m.trace| && m.trace[j] == Execution(c.core.bytes[..c.core.length], c.event))
    && c.kind == Classify(c.event, Malformed(cfg.filter, c.core.bytes, c.core.pointer + 1), c.core.length, m.udCounters)
  }

  ghost predicate AllFromExecutions(cfg: Config, m: Machine)
  {
    forall i :: 0 <= i < |m.log| ==> FromExecution(cfg, m, m.log[i])
  }

  lemma StepExecutes(cfg: Config, m: Machine, e: Event)
    requires InBounds(m.core) && Invariant(cfg, m) && AllFromExecutions(cfg, m)
    ensures AllFromExecutions(cfg, Step(cfg, m, e))
  {
    hide Malformed, Classify, Conclude, EncodeInts, Put, Fits, FetchFault, LogSound, AllLess, Passed, Covered;
    var r := Step(cfg, m, e);
    if m.status == Running {
      ExecutesTheCandidate(cfg, m, e);
      if Classifies(cfg, m, e) {
        Concludes(cfg, m, e);
        assert r.trace[|m.trace|] == Execution(m.core.bytes[..m.core.length], e);
      }
      forall i | 0 <= i < |m.log| ensures FromExecution(cfg, r, m.log[i]) {
        StaysFromExecution(cfg, m, m.log[i], r);
      }
    }
  }

  lemma StaysFromExecution(cfg: Config, m: Machine, c: Classified, r: Machine)
    requires FromExecution(cfg, m, c) && m.trace <= r.trace && r.udCounters == m.udCounters
    ensures FromExecution(cfg, r, c)
  {
    hide Malformed, Classify;
    var j :| 0 <= j < |m.trace| && m.trace[j] == Execution(c.core.bytes[..c.core.length], c.event);
    assert r.trace[j] == m.trace[j];
  }

  lemma {:induction false} ChainExecutes(cfg: Config, states: seq<Machine>, events: seq<Event>, i: nat)
    requires Chain(cfg, states, events) && i < |states|
    ensures AllFromExecutions(cfg, states[i])
  {
    hide Step, Invariant, FromExecution;
    if i > 0 {
      ChainExecutes(cfg, states, events, i - 1);
      assert Follows(cfg, states[i - 1], events[i - 1], states[i]);
      ChainHolds(cfg, states, events, i - 1);
      StepExecutes(cfg, states[i - 1], events[i - 1]);
    }
  }

  /** Every record of a run is of an interesting event that an execution of the recorded bytes ended in. */
  lemma RecordsWereExecuted(cfg: Config, m: Machine, k: nat)
    requires Reachable(cfg, m) && BoundedLog(m.log) && k < |Records(m.log)|
    ensures exists i, j :: 0 <= i < |m.log| && 0 <= j < |m.trace| &&
              var c, x, r := m.log[i], m.trace[j], Records(m.log)[k];
              && x.instruction == c.core.bytes[..c.core.length] == r.bytes
              && x.event == c.event && r.exception == x.event.exception && r.counters == x.event.counters
              && r.extra == ExtraInfo(x.event) && r.kind != NotInteresting
              && r.kind == Classify(x.event, Malformed(cfg.filter, c.core.bytes, c.core.pointer + 1), |r.bytes|,
                                    m.udCounters)
  {
    hide Malformed, Classify, ExtraInfo;
    var states, events :| Chain(cfg, states, events) && states[|events|] == m;
    ChainExecutes(cfg, states, events, |events|);
    var i := RecordIsOf(m.log, k);
    var c := m.log[i];
    assert FromExecution(cfg, m, c);
    var j :| 0 <= j < |m.trace| && m.trace[j] == Execution(c.core.bytes[..c.core.length], c.event);
  }

  lemma {:induction false} RecordIsOf(log: seq<Classified>, k: nat) returns (i: nat)
    requires BoundedLog(log) && k < |Records(log)|
    ensures i < |log| && log[i].kind != NotInteresting && Records(log)[k] == RecordOf(log[i])
  {
    var before := log[..|log| - 1];
    if k < |Records(before)| {
      i := RecordIsOf(before, k);
    } else {
      i := |log| - 1;
    }
  }
}
