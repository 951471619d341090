/**
  One step of the search told from outside: which outcome which exception has, with the numbers,
  bits and addresses of the source written out, and what the next candidate is.
*/
module StepTable {
  import opened Bytes
  import opened PrefixFilter
  import opened PrefixFilterProperties
  import opened Candidates
  import opened SaveFormat
  import opened SaveFile
  import opened SearchMachine
  import opened Coverage

  /** What was executed: UD2 while its counters are being measured, then the first bytes of the buffer. */
  lemma ExecutesTheCandidate(cfg: Config, m: Machine, e: Event)
    requires InBounds(m.core) && m.status == Running
    ensures Step(cfg, m, e).trace ==
            m.trace + [Execution(if m.measuringUd then [0x0f, 0x0b] else m.core.bytes[..m.core.length], e)]
  {
    hide Advance, EncodeRecord, EncodeInts, Put, Fits;
  }

  /**
    The candidate grows by one byte, all else unchanged, just when it is below 15 bytes and a page fault (14) on a
    fetch (bit 4) by user code (both low bits of CS) hit the end of its page after it had begun before.
  */
  lemma GrowsJustWhen(cfg: Config, m: Machine, e: Event, cs: bv8, code: bv8)
    requires InBounds(m.core) && m.status == Running && !m.measuringUd
    requires IsLowByte(cs, e.cs) && IsLowByte(code, e.errorCode)
    ensures Step(cfg, m, e) == m.(core := m.core.(length := m.core.length + 1), trace := Step(cfg, m, e).trace) <==>
              && cs & 3 == 3 && e.exception == 14 && code & (1 << 4) != 0
              && e.cr2 == cfg.execPageEnd && e.rip != e.cr2 && m.core.length < 15
  {
    hide Conclude, IsLowByte;
    LowBits(e.cs, cs);
    LowBits(e.errorCode, code);
    if Classifies(cfg, m, e) {
      Concludes(cfg, m, e);
    }
  }

  /** It is executed again, the counters remembered, just when it raised #UD with other counters than last. */
  lemma RerunsJustWhen(cfg: Config, m: Machine, e: Event)
    requires InBounds(m.core) && m.status == Running && !m.measuringUd
    ensures Step(cfg, m, e) == m.(lastCounters := e.counters, trace := Step(cfg, m, e).trace) <==>
            e.exception == 6 && e.counters != m.lastCounters
  {
    hide Conclude;
    if Classifies(cfg, m, e) {
      Concludes(cfg, m, e);
    }
  }

  /** Else it is classified, or the write of its record fails; either way a change that no other step makes. */
  lemma Concludes(cfg: Config, m: Machine, e: Event)
    requires InBounds(m.core) && m.status == Running && Classifies(cfg, m, e)
    ensures var r := Step(cfg, m, e);
            r.udCounters == m.udCounters &&
            if r.status == WriteFailed then r.core == m.core && r.log == m.log
            else r.log == m.log + [Classified(m.core, e, Classify(e, m.malformed, m.core.length, m.udCounters))] &&
                 r == Advance(cfg, r.(core := m.core, malformed := m.malformed, status := Running))
  {
    hide Advance, Conclude, Classify, FetchFault;
    var seen := m.(trace := m.trace + [Execution(Pending(m), e)]);
    var reset := if e.exception == INVALID_OPCODE then seen.(lastCounters := Zeros(cfg.events)) else seen;
    ConcludeAdvances(cfg, reset, e);
  }

  /** While UD2 is measured: another exception ends the search, other counters repeat it, the same ones settle it. */
  lemma BaselineJustWhen(cfg: Config, m: Machine, e: Event)
    requires InBounds(m.core) && m.status == Running && m.measuringUd
    ensures var r := Step(cfg, m, e);
            && r.core == m.core && r.log == m.log
            && (r.status == UnexpectedException <==> e.exception != 6)
            && (r.measuringUd <==> e.exception != 6 || e.counters != m.udCounters)
            && r.udCounters == (if e.exception == 6 then e.counters else m.udCounters)
            && (!r.measuringUd ==> (r.status == Running <==> Fits(m.disk, EncodeInts(e.counters))))
  {
    hide EncodeInts, Put, Fits;
  }

  /** The byte raised first: the last one, or the one pointed to if the length repeats and that byte is no prefix. */
  function RaisedFirst(cfg: Config, c: Core): nat
    requires InBounds(c)
  {
    if c.length == c.last && c.pointer >= PrefixCount(cfg.filter, c.bytes, c.length) then c.pointer else c.length - 1
  }

  /** `x` passes the filter up to byte `p`, is zero after it, and lies above all that begins like the candidate. */
  ghost predicate Successor(cfg: Config, c: Core, x: Buffer, p: nat)
    requires InBounds(c)
  {
    && p < 15 && ZeroAfter(x, p) && !Rejected(cfg.filter, x, p + 1)
    && exists k :: 0 <= k <= RaisedFirst(cfg, c) && x[..k] == c.bytes[..k] && x[k] > c.bytes[k]
  }

  /**
    After a classification the search goes on with the least successor of the candidate, at the
    length its pointer asks for, and is done just when there is none.
  */
  lemma NextIsLeastSuccessor(cfg: Config, m: Machine, e: Event)
    requires Reachable(cfg, m) && InBounds(m.core) && m.status == Running && |Step(cfg, m, e).log| > |m.log|
    ensures var c, r := m.core, Step(cfg, m, e);
            && r.core.last == c.length
            && (r.status == Running || r.status == Done)
            && (r.status == Running ==>
                  && r.core.length == r.core.pointer + 1 && Successor(cfg, c, r.core.bytes, r.core.pointer))
            && (forall x: Buffer, p: nat :: Successor(cfg, c, x, p) ==>
                  r.status == Running && !Below(x, r.core.bytes, 15))
  {
    hide Reachable, Rejected, Malformed, Passed, Covered, PrefixCount, Step, NextCandidate, Below;
    InvariantHolds(cfg, m);
    assert Sound(cfg, m.core);
    LogGrowsWhenClassified(cfg, m, e);
    Concludes(cfg, m, e);
    var c, r, from := m.core, Step(cfg, m, e), RaisedFirst(cfg, m.core);
    NextCandidateShape(cfg.filter, c.bytes, from, c.length);
    if r.status == Running {
      var k := r.core.pointer;
      assert r.core.bytes[..k] == c.bytes[..k];
    }
    forall x: Buffer, p: nat | Successor(cfg, c, x, p)
      ensures r.status == Running && !Below(x, r.core.bytes, 15)
    {
      SuccessorIsAbove(cfg, c, x, p);
      NextCandidateIsLeast(cfg.filter, c.bytes, from, c.length, x, p);
      BelowInZeros(x, r.core.bytes, r.core.pointer);
    }
  }

  lemma LogGrowsWhenClassified(cfg: Config, m: Machine, e: Event)
    requires InBounds(m.core) && m.status == Running && |Step(cfg, m, e).log| > |m.log|
    ensures Classifies(cfg, m, e) && Step(cfg, m, e).status != WriteFailed
  {
    hide Conclude, FetchFault, EncodeInts, Put, Fits;
    if Classifies(cfg, m, e) {
      Concludes(cfg, m, e);
    }
  }

  lemma SuccessorIsAbove(cfg: Config, c: Core, x: Buffer, p: nat)
    requires InBounds(c) && Successor(cfg, c, x, p)
    ensures !AtMost(x, c.bytes, RaisedFirst(cfg, c) + 1)
  {
    hide Rejected, PrefixCount;
    var k :| 0 <= k <= RaisedFirst(cfg, c) && x[..k] == c.bytes[..k] && x[k] > c.bytes[k];
    assert forall i :: 0 <= i < k ==> x[i] == x[..k][i] == c.bytes[..k][i] == c.bytes[i];
  }

  lemma BelowInZeros(x: Buffer, b: Buffer, k: nat)
    requires k < CAPACITY && ZeroAfter(b, k) && !Below(x, b, k + 1)
    ensures !Below(x, b, CAPACITY)
  {
  }
}
