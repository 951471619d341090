/**
  Growing a candidate (src/instruction_execution_loop.c:214-224) without asking the filter again:
  when the search executes and classifies an instruction that its own filter rejects.
*/
module Growth {
  import opened Bytes
  import opened PrefixFilter
  import opened PrefixFilterProperties
  import opened Candidates
  import opened SaveFormat
  import opened SearchMachine
  import opened Coverage

  /** Its last checked payload byte is one of the zeros that came with growing. */
  ghost predicate GrewOverPayload(cfg: Config, c: Core)
    requires InBounds(c)
  {
    exists i :: 0 <= i <= c.pointer && ZeroPayloadAt(cfg.filter.mode, c.bytes, c.pointer, c.length, i)
  }

  /** In any run, a classified instruction is one the filter rejects just when it grew over a payload's end. */
  lemma ClassifiedThoughRejected(cfg: Config, m: Machine, i: nat)
    requires Reachable(cfg, m) && i < |m.log|
    ensures var c := m.log[i].core;
            InBounds(c) && (Rejected(cfg.filter, c.bytes, c.length) <==> GrewOverPayload(cfg, c))
  {
    hide Reachable, Rejected, Passed, Covered, Val, ZeroPayloadAt;
    InvariantHolds(cfg, m);
    var c := m.log[i].core;
    assert Sound(cfg, c);
    RejectedAfterGrowth(cfg.filter, c.bytes, c.pointer, c.length);
  }

  // ----- a run that gets there -----

  /** A #UD with the counters of the baseline, on an instruction XED agrees about: nothing is saved. */
  function QuietEvent(cfg: Config, length: nat): Event
  {
    Event(INVALID_OPCODE, 0, 3, 0, 0, Zeros(cfg.events), length, [])
  }

  function FaultEvent(cfg: Config): Event
  {
    Event(PAGE_FAULT, 16, 3, if cfg.execPageEnd == 0 then 1 else 0, cfg.execPageEnd, Zeros(cfg.events), 1, [])
  }

  function TwoBytes(first: byte, second: byte): Buffer { [first, second] + seq(CAPACITY - 2, _ => 0) }

  /** A reachable state of a run in which no counter ever moved, about to execute these bytes. */
  ghost predicate Quiet(cfg: Config, m: Machine, bytes: Buffer, length: nat)
  {
    && Reachable(cfg, m) && InBounds(m.core)
    && m.status == Running && !m.measuringUd && m.lastCounters == Zeros(cfg.events)
    && m.core.bytes == bytes && m.core.length == length
  }

  lemma QuietStart(cfg: Config) returns (m: Machine)
    ensures Quiet(cfg, m, TwoBytes(0, 0), 1) && m.core.pointer == 0 && m.core.last == 0
  {
    hide Reachable, EncodeInts;
    var capacity := |EncodeInts(Zeros(cfg.events))|;
    InitIsReachable(cfg, capacity);
    var start, e := Init(cfg, capacity), QuietEvent(cfg, 0);
    StepIsReachable(cfg, start, e);
    m := Step(cfg, start, e);
    assert start.core.bytes == TwoBytes(0, 0);
  }

  lemma QuietFault(cfg: Config, m: Machine, bytes: Buffer, length: nat) returns (r: Machine)
    requires Quiet(cfg, m, bytes, length) && length < CAPACITY
    ensures Quiet(cfg, r, bytes, length + 1) && r.core == m.core.(length := length + 1)
  {
    hide Reachable, Conclude;
    StepIsReachable(cfg, m, FaultEvent(cfg));
    r := Step(cfg, m, FaultEvent(cfg));
  }

  /** The candidate is classified, and the last byte of its length raised. */
  lemma QuietRaise(cfg: Config, m: Machine, bytes: Buffer, length: nat) returns (r: Machine)
    requires Quiet(cfg, m, bytes, length) && (m.core.pointer == length - 1 || m.core.last != length)
    requires bytes[length - 1] < 255
    requires !Rejected(cfg.filter, bytes[length - 1 := bytes[length - 1] + 1], length)
    ensures Quiet(cfg, r, bytes[length - 1 := bytes[length - 1] + 1], length)
    ensures r.core.pointer == length - 1 && r.core.last == length
  {
    hide Reachable, Rejected, Malformed, PrefixCount, CountKind;
    var e := QuietEvent(cfg, length);
    StepIsReachable(cfg, m, e);
    r := Step(cfg, m, e);
    assert Classify(e, m.malformed, length, m.udCounters) == NotInteresting;
    assert AdvanceFrom(cfg, m.core) == length - 1;
  }

  lemma OneByteIsAccepted(f: FilterConfig, first: byte)
    requires f.maxPrefixes > 0
    ensures !Rejected(f, TwoBytes(first, 0), 1)
  {
    hide KindAt;
  }

  lemma BoundIsAccepted(f: FilterConfig, second: byte)
    requires f.maxPrefixes > 0
    ensures !Rejected(f, TwoBytes(0x62, second), 2)
  {
    assert !KindAt(f.mode, TwoBytes(0x62, second), 2, 0).Plain();
  }

  lemma {:induction false} ClimbFirst(cfg: Config, first: byte) returns (m: Machine)
    requires cfg.filter.maxPrefixes > 0
    ensures Quiet(cfg, m, TwoBytes(first, 0), 1) && m.core.pointer == 0 && m.core.last <= 1
  {
    hide Quiet, Rejected;
    if first == 0 {
      m := QuietStart(cfg);
    } else {
      var before := ClimbFirst(cfg, first - 1);
      OneByteIsAccepted(cfg.filter, first);
      assert TwoBytes(first - 1, 0)[0 := first] == TwoBytes(first, 0);
      m := QuietRaise(cfg, before, TwoBytes(first - 1, 0), 1);
    }
  }

  lemma {:induction false} ClimbSecond(cfg: Config, second: byte) returns (m: Machine)
    requires cfg.filter.maxPrefixes > 0 && second > 0
    ensures Quiet(cfg, m, TwoBytes(0x62, second), 2) && m.core.pointer == 1
  {
    hide Quiet, Rejected;
    var before: Machine;
    if second == 1 {
      before := ClimbFirst(cfg, 0x62);
      before := QuietFault(cfg, before, TwoBytes(0x62, 0), 1);
    } else {
      before := ClimbSecond(cfg, second - 1);
    }
    BoundIsAccepted(cfg.filter, second);
    assert TwoBytes(0x62, second - 1)[1 := second] == TwoBytes(0x62, second);
    m := QuietRaise(cfg, before, TwoBytes(0x62, second - 1), 2);
  }

  lemma GrownEvexIsRejected(f: FilterConfig)
    ensures Rejected(f, TwoBytes(0x62, 0xc0), 4)
  {
    assert KindAt(f.mode, TwoBytes(0x62, 0xc0), 4, 0) == Evex;
    assert RejectedAt(f, TwoBytes(0x62, 0xc0), 4, 0);
  }

  /** Some run classifies an instruction its filter rejects just when any prefix is allowed at all. */
  lemma SomeRunClassifiesRejected(cfg: Config)
    ensures cfg.filter.maxPrefixes > 0 <==>
            exists m: Machine, i: nat :: Reachable(cfg, m) && i < |m.log| &&
              InBounds(m.log[i].core) && Rejected(cfg.filter, m.log[i].core.bytes, m.log[i].core.length)
  {
    hide Reachable, Rejected, Classify;
    if cfg.filter.maxPrefixes > 0 {
      var m := ClimbSecond(cfg, 0xc0);
      m := QuietFault(cfg, m, TwoBytes(0x62, 0xc0), 2);
      m := QuietFault(cfg, m, TwoBytes(0x62, 0xc0), 3);
      var r := QuietlyClassified(cfg, m, TwoBytes(0x62, 0xc0), 4);
      GrownEvexIsRejected(cfg.filter);
    } else {
      forall m: Machine, i: nat | Reachable(cfg, m) && i < |m.log|
        ensures InBounds(m.log[i].core) && !Rejected(cfg.filter, m.log[i].core.bytes, m.log[i].core.length)
      {
        ClassifiedThoughRejected(cfg, m, i);
        NoPrefixNoGrowth(cfg, m, i);
      }
    }
  }

  lemma QuietlyClassified(cfg: Config, m: Machine, bytes: Buffer, length: nat) returns (r: Machine)
    requires Quiet(cfg, m, bytes, length)
    ensures Reachable(cfg, r) && |r.log| > 0 && r.log[|r.log| - 1].core == m.core
  {
    hide Reachable, Advance, CountKind;
    var e := QuietEvent(cfg, length);
    StepIsReachable(cfg, m, e);
    r := Step(cfg, m, e);
    assert Classify(e, m.malformed, length, m.udCounters) == NotInteresting;
  }

  lemma NoPrefixNoGrowth(cfg: Config, m: Machine, i: nat)
    requires Reachable(cfg, m) && i < |m.log| && InBounds(m.log[i].core) && cfg.filter.maxPrefixes == 0
    ensures !GrewOverPayload(cfg, m.log[i].core)
  {
    hide Reachable, Passed, Covered, Val;
    InvariantHolds(cfg, m);
    var c := m.log[i].core;
    assert Sound(cfg, c);
    forall j | 0 <= j <= c.pointer ensures !ZeroPayloadAt(cfg.filter.mode, c.bytes, c.pointer, c.length, j) {
      assert !RejectedAt(cfg.filter, c.bytes, c.pointer + 1, j);
    }
  }
}
