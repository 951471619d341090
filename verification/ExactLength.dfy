/**
  Instruction lengths on a processor that faults at the page end just when the bytes so far are
  an incomplete instruction. `incomplete` is any such notion that beginnings inherit.
*/
module ExactLength {
  import opened Bytes
  import opened PrefixFilter
  import opened PrefixFilterProperties
  import opened Candidates
  import opened SaveFormat
  import opened SaveFile
  import opened SearchMachine
  import opened Coverage

  ghost predicate PrefixClosed(incomplete: seq<byte> -> bool)
  {
    forall s: seq<byte>, k: nat :: k <= |s| && incomplete(s) ==> incomplete(s[..k])
  }

  /** Every execution so far faulted at the page end exactly when its bytes were incomplete. */
  ghost predicate Obeys(cfg: Config, trace: seq<Execution>, incomplete: seq<byte> -> bool)
  {
    forall i :: 0 <= i < |trace| ==> (FetchFault(cfg, trace[i].event) <==> incomplete(trace[i].instruction))
  }

  ghost function LengthFrom(b: Buffer, incomplete: seq<byte> -> bool, n: nat): (r: nat)
    requires 0 < n <= CAPACITY
    ensures n <= r <= CAPACITY
    decreases CAPACITY - n
  {
    if n == CAPACITY || !incomplete(b[..n]) then n else LengthFrom(b, incomplete, n + 1)
  }

  /** The decoder's length of the instruction a buffer begins with: the first complete beginning, at most 15. */
  ghost function DecodedLength(b: Buffer, incomplete: seq<byte> -> bool): (r: nat)
    ensures 0 < r <= CAPACITY
  {
    LengthFrom(b, incomplete, 1)
  }

  lemma {:induction false} LengthFromIs(b: Buffer, incomplete: seq<byte> -> bool, n: nat, r: nat)
    requires 0 < n <= r <= CAPACITY
    requires forall k :: n <= k < r ==> incomplete(b[..k])
    requires r == CAPACITY || !incomplete(b[..r])
    ensures LengthFrom(b, incomplete, n) == r
    decreases r - n
  {
    if n < r { LengthFromIs(b, incomplete, n + 1, r); }
  }

  /** All bytes before the last are incomplete: what the tracked length always satisfies. */
  ghost predicate GrowsFrom(c: Core, incomplete: seq<byte> -> bool)
  {
    InBounds(c) && (c.length > 1 ==> incomplete(c.bytes[..c.length - 1]))
  }

  ghost predicate Ends(c: Core, incomplete: seq<byte> -> bool)
  {
    GrowsFrom(c, incomplete) && (c.length == CAPACITY || !incomplete(c.bytes[..c.length]))
  }

  ghost predicate LengthsTracked(m: Machine, incomplete: seq<byte> -> bool)
  {
    && (m.status == Running ==> GrowsFrom(m.core, incomplete))
    && forall i :: 0 <= i < |m.log| ==> Ends(m.log[i].core, incomplete)
  }

  lemma AdvanceTracks(cfg: Config, m: Machine, incomplete: seq<byte> -> bool)
    requires Sound(cfg, m.core) && m.status == Running && PrefixClosed(incomplete) && GrowsFrom(m.core, incomplete)
    ensures Advance(cfg, m).status == Running ==> GrowsFrom(Advance(cfg, m).core, incomplete)
  {
    hide Rejected, Malformed;
    var r, from := Advance(cfg, m), AdvanceFrom(cfg, m.core);
    NextCandidateShape(cfg.filter, m.core.bytes, from, m.core.length);
    if r.status == Running && r.core.pointer > 0 {
      var k, whole := r.core.pointer, m.core.bytes[..m.core.length - 1];
      assert r.core.bytes[..k] == whole[..k];
    }
  }

  lemma TraceGrows(cfg: Config, m: Machine, e: Event)
    requires InBounds(m.core)
    ensures m.trace <= Step(cfg, m, e).trace
    ensures m.status == Running ==> Step(cfg, m, e).trace == m.trace + [Execution(Pending(m), e)]
  {
    hide Advance, EncodeRecord, EncodeInts, Put, Fits;
  }

  lemma ConcludeTracks(cfg: Config, m: Machine, e: Event, incomplete: seq<byte> -> bool)
    requires Sound(cfg, m.core) && m.status == Running
    requires PrefixClosed(incomplete) && LengthsTracked(m, incomplete) && Ends(m.core, incomplete)
    ensures LengthsTracked(Conclude(cfg, m, e), incomplete)
  {
    hide Rejected, Malformed, Advance, Conclude, Classify;
    ConcludeAdvances(cfg, m, e);
    var r := Conclude(cfg, m, e);
    if r.status != WriteFailed {
      AdvanceTracks(cfg, r.(core := m.core, malformed := m.malformed, status := Running), incomplete);
    }
  }

  lemma StepTracks(cfg: Config, m: Machine, e: Event, incomplete: seq<byte> -> bool)
    requires InBounds(m.core) && Invariant(cfg, m) && PrefixClosed(incomplete) && LengthsTracked(m, incomplete)
    requires Obeys(cfg, Step(cfg, m, e).trace, incomplete)
    ensures LengthsTracked(Step(cfg, m, e), incomplete)
  {
    hide LogSound, AllLess, Rejected, Malformed, Passed, Covered, Conclude, EncodeInts, Put, Fits, PrefixClosed;
    TraceGrows(cfg, m, e);
    if m.status == Running && !m.measuringUd {
      assert Step(cfg, m, e).trace[|m.trace|] == Execution(Pending(m), e);
      assert FetchFault(cfg, e) <==> incomplete(m.core.bytes[..m.core.length]);
      if Classifies(cfg, m, e) {
        var seen := m.(trace := m.trace + [Execution(Pending(m), e)]);
        var reset := if e.exception == INVALID_OPCODE then seen.(lastCounters := Zeros(cfg.events)) else seen;
        ConcludeTracks(cfg, reset, e, incomplete);
      }
    }
  }

  lemma {:induction false} ChainTracks(cfg: Config, states: seq<Machine>, events: seq<Event>, i: nat,
        incomplete: seq<byte> -> bool)
    requires Chain(cfg, states, events) && i < |states|
    requires PrefixClosed(incomplete) && Obeys(cfg, states[i].trace, incomplete)
    ensures LengthsTracked(states[i], incomplete)
  {
    hide Step, Invariant;
    if i == 0 {
    } else {
      assert Follows(cfg, states[i - 1], events[i - 1], states[i]);
      TraceGrows(cfg, states[i - 1], events[i - 1]);
      ChainTracks(cfg, states, events, i - 1, incomplete);
      ChainHolds(cfg, states, events, i - 1);
      StepTracks(cfg, states[i - 1], events[i - 1], incomplete);
    }
  }

  lemma LengthsAreTracked(cfg: Config, m: Machine, incomplete: seq<byte> -> bool)
    requires Reachable(cfg, m) && PrefixClosed(incomplete) && Obeys(cfg, m.trace, incomplete)
    ensures LengthsTracked(m, incomplete)
  {
    hide LengthsTracked, Obeys, PrefixClosed;
    var states, events :| Chain(cfg, states, events) && states[|events|] == m;
    ChainTracks(cfg, states, events, |events|, incomplete);
  }

  /** At every classification the tracked length is the decoder's true length, capped at 15. */
  lemma TrackedLengthIsExact(cfg: Config, m: Machine, incomplete: seq<byte> -> bool, i: nat)
    requires Reachable(cfg, m) && PrefixClosed(incomplete) && Obeys(cfg, m.trace, incomplete)
    requires i < |m.log|
    ensures var c := m.log[i].core;
            && c.length == DecodedLength(c.bytes, incomplete)
            && 0 < c.length <= 15 && (c.length == 15 || !incomplete(c.bytes[..c.length]))
            && (forall k :: 1 <= k < c.length ==> incomplete(c.bytes[..k]))
  {
    hide Reachable;
    LengthsAreTracked(cfg, m, incomplete);
    var c := m.log[i].core;
    assert Ends(c, incomplete);
    forall k | 1 <= k < c.length ensures incomplete(c.bytes[..k]) {
      assert c.bytes[..k] == c.bytes[..c.length - 1][..k];
    }
    LengthFromIs(c.bytes, incomplete, 1, c.length);
  }

  lemma {:induction false} SameBeginningSameLength(b: Buffer, x: Buffer, incomplete: seq<byte> -> bool, n: nat)
    requires 0 < n <= CAPACITY && Agree(x, b, LengthFrom(b, incomplete, n))
    ensures LengthFrom(x, incomplete, n) == LengthFrom(b, incomplete, n)
    decreases CAPACITY - n
  {
    assert x[..n] == b[..n];
    if n < CAPACITY && incomplete(b[..n]) { SameBeginningSameLength(b, x, incomplete, n + 1); }
  }

  /** No classified instruction is a prefix of another, or equal to it. */
  lemma NoInstructionIsPrefixOfAnother(cfg: Config, m: Machine, incomplete: seq<byte> -> bool, i: nat, j: nat)
    requires Reachable(cfg, m) && PrefixClosed(incomplete) && Obeys(cfg, m.trace, incomplete)
    requires i < |m.log| && j < |m.log| && i != j
    ensures var log := m.log;
            && InBounds(log[i].core) && InBounds(log[j].core)
            && !(log[i].core.bytes[..log[i].core.length] <= log[j].core.bytes[..log[j].core.length])
  {
    hide Reachable, LogSound, Rejected, Covered, Val;
    LengthsAreTracked(cfg, m, incomplete);
    var log := m.log;
    var a, b := log[i].core, log[j].core;
    assert Ends(a, incomplete) && Ends(b, incomplete);
    if a.bytes[..a.length] <= b.bytes[..b.length] {
      assert Agree(b.bytes, a.bytes, a.length) by {
        assert forall k :: 0 <= k < a.length ==> a.bytes[..a.length][k] == b.bytes[..b.length][k];
      }
      TrackedLengthIsExact(cfg, m, incomplete, i);
      TrackedLengthIsExact(cfg, m, incomplete, j);
      SameBeginningSameLength(a.bytes, b.bytes, incomplete, 1);
      ClassifiedInOrder(cfg, m, if i < j then i else j, if i < j then j else i);
      ClassifiedZeroTail(cfg, m, i);
      ClassifiedZeroTail(cfg, m, j);
      assert false;
    }
  }

  lemma ClassifiedZeroTail(cfg: Config, m: Machine, i: nat)
    requires Reachable(cfg, m) && i < |m.log|
    ensures var c := m.log[i].core;
            InBounds(c) && forall k :: c.length <= k < CAPACITY ==> c.bytes[k] == 0
  {
    hide Reachable, Rejected, Malformed, Passed, Covered, Val;
    InvariantHolds(cfg, m);
    assert Sound(cfg, m.log[i].core);
  }

  /**
    When the search is done, every string of 15 bytes is rejected by the filter, or the very
    instruction the processor decodes from it was executed, or it was tunnelled over.
  */
  lemma EveryInstructionIsAccountedFor(cfg: Config, m: Machine, incomplete: seq<byte> -> bool, x: Buffer)
    requires Reachable(cfg, m) && PrefixClosed(incomplete) && Obeys(cfg, m.trace, incomplete)
    requires m.status == Done
    ensures var log := m.log;
            || Rejected(cfg.filter, x, CAPACITY)
            || exists i :: 0 <= i < |log| && InBounds(log[i].core) &&
                 var c := log[i].core;
                 || x[..DecodedLength(x, incomplete)] == c.bytes[..c.length]
                 || (Tunnels(cfg, c) && x[..c.pointer + 1] == c.bytes[..c.pointer + 1])
  {
    hide Reachable, Rejected, Malformed, Passed, LogSound, AllLess, Tunnels;
    InvariantHolds(cfg, m);
    var log := m.log;
    assert Covered(cfg, log, x);
    if !Rejected(cfg.filter, x, CAPACITY) {
      var i :| 0 <= i < |log| && InBounds(log[i].core) && CoveredBy(cfg, log[i], x);
      var c := log[i].core;
      if Agree(x, c.bytes, c.length) {
        TrackedLengthIsExact(cfg, m, incomplete, i);
        SameBeginningSameLength(c.bytes, x, incomplete, 1);
        assert x[..c.length] == c.bytes[..c.length];
      } else {
        assert x[..c.pointer + 1] == c.bytes[..c.pointer + 1];
      }
    }
  }
}
