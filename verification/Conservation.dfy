/** What the statistics and the save file say about the search at every step boundary. */
module Conservation {
  import opened Bytes
  import opened Wrappers
  import opened PrefixFilter
  import opened PrefixFilterProperties
  import opened Candidates
  import opened SaveFormat
  import opened SaveFile
  import opened SearchMachine
  import opened Coverage

  /** One record for every classified candidate that is of interest, in order. */
  function Records(log: seq<Classified>): seq<Record>
    requires forall i :: 0 <= i < |log| ==> InBounds(log[i].core)
  {
    if log == [] then []
    else
      var c := log[|log| - 1];
      Records(log[..|log| - 1]) + if c.kind == NotInteresting then [] else [RecordOf(c)]
  }

  function Tally(rs: seq<Record>, kind: InstructionType): nat
  {
    if rs == [] then 0
    else Tally(rs[..|rs| - 1], kind) + if rs[|rs| - 1].kind == kind then 1 else 0
  }

  function StatOf(s: Stats, kind: InstructionType): nat
  {
    match kind
    case NotInteresting => 0
    case KernelException => s.kernelExceptions
    case KernelPageFault => s.kernelPageFaults
    case MachineCheck => s.machineChecks
    case UndocumentedUd => s.undocumentedBehindUd
    case UndocumentedNotUd => s.undocumentedNotUd
    case VexMalformedButAccepted => s.vexMalformed
    case XedLengthMismatch => s.lengthMismatches
  }

  function StatSum(s: Stats): nat
  {
    s.kernelExceptions + s.kernelPageFaults + s.machineChecks + s.undocumentedBehindUd
    + s.undocumentedNotUd + s.vexMalformed + s.lengthMismatches
  }

  ghost predicate BoundedLog(log: seq<Classified>)
  {
    forall i :: 0 <= i < |log| ==> InBounds(log[i].core)
  }

  /** The counters agree with the records: each type's count, their sum, and the totals. */
  ghost predicate StatsAgree(s: Stats, log: seq<Classified>)
    requires BoundedLog(log)
  {
    && (forall kind :: StatOf(s, kind) == Tally(Records(log), kind))
    && StatSum(s) == s.saved == |Records(log)|
    && s.executed == |log|
  }

  /**
    The bytes on the medium: a baseline under way, or all of it and the records, with a cut-off last one after a
    failure.
  */
  ghost predicate FileAgrees(cfg: Config, m: Machine)
    requires BoundedLog(m.log)
  {
    var file := EncodeFile(m.udCounters, Records(m.log));
    if m.measuringUd then m.disk.contents == []
    else if m.status == WriteFailed then
      || (m.log == [] && m.disk.contents < EncodeInts(m.udCounters))
      || exists tail :: CutRecord(cfg.events, tail) && m.disk.contents == file + tail
    else m.disk.contents == file
  }

  /** A record whose writing failed is counted by its type but not as saved. */
  ghost predicate StatsAfterFailure(m: Machine)
    requires BoundedLog(m.log)
  {
    && m.stats.saved == |Records(m.log)|
    && StatSum(m.stats) == m.stats.saved + if m.disk.contents < EncodeInts(m.udCounters) then 0 else 1
  }

  ghost predicate Accounted(cfg: Config, m: Machine)
  {
    && BoundedLog(m.log)
    && (m.measuringUd ==> m.log == [])
    && (if m.status == WriteFailed then StatsAfterFailure(m) else StatsAgree(m.stats, m.log))
    && |m.udCounters| == cfg.events
    && AllValid(cfg.events, Records(m.log))
    && FileAgrees(cfg, m)
  }

  lemma RecordsGrow(log: seq<Classified>, c: Classified)
    requires BoundedLog(log) && InBounds(c.core)
    ensures BoundedLog(log + [c])
    ensures Records(log + [c]) == if c.kind == NotInteresting then Records(log) else Records(log) + [RecordOf(c)]
  {
    assert (log + [c])[..|log|] == log;
  }

  lemma StatsGrow(s: Stats, log: seq<Classified>, c: Classified)
    requires BoundedLog(log) && StatsAgree(s, log) && InBounds(c.core)
    ensures BoundedLog(log + [c])
    ensures var t := CountKind(s, c.kind);
            var saved := t.saved + if c.kind == NotInteresting then 0 else 1;
            StatsAgree(t.(executed := t.executed + 1, saved := saved), log + [c])
  {
    hide Records, Tally;
    RecordsGrow(log, c);
    if c.kind != NotInteresting {
      forall kind ensures Tally(Records(log + [c]), kind) == StatOf(CountKind(s, c.kind), kind) {
        TallyGrows(Records(log), RecordOf(c), kind);
      }
    }
  }

  lemma TallyGrows(rs: seq<Record>, r: Record, kind: InstructionType)
    ensures Tally(rs + [r], kind) == Tally(rs, kind) + if r.kind == kind then 1 else 0
  {
    assert (rs + [r])[..|rs|] == rs;
  }

  lemma CutIsCut(n: nat, r: Record, room: nat)
    requires Valid(n, r) && room < |EncodeRecord(r)|
    ensures CutRecord(n, EncodeRecord(r)[..room])
  {
  }

  lemma FileGrows(cfg: Config, baseline: seq<u64>, log: seq<Classified>, c: Classified, disk: Disk)
    requires BoundedLog(log) && InBounds(c.core) && c.kind != NotInteresting
    requires |c.event.counters| == cfg.events
    requires disk.contents == EncodeFile(baseline, Records(log))
    ensures BoundedLog(log + [c])
    ensures var data := EncodeRecord(RecordOf(c));
            if Fits(disk, data) then Put(disk, data).contents == EncodeFile(baseline, Records(log + [c]))
            else exists tail :: CutRecord(cfg.events, tail)
                   && Put(disk, data).contents == EncodeFile(baseline, Records(log)) + tail
  {
    hide EncodeInts, EncodeRecord, EncodeRecords, Records, CutRecord;
    RecordsGrow(log, c);
    EncodeRecordsAppend(Records(log), RecordOf(c));
    var data := EncodeRecord(RecordOf(c));
    if Fits(disk, data) {
      assert disk.contents + data == EncodeInts(baseline) + (EncodeRecords(Records(log)) + data);
    } else {
      CutIsCut(cfg.events, RecordOf(c), disk.room);
    }
  }

  lemma SumGrows(s: Stats, log: seq<Classified>, kind: InstructionType)
    requires BoundedLog(log) && StatsAgree(s, log) && kind != NotInteresting
    ensures StatSum(CountKind(s, kind)) == StatSum(s) + 1
    ensures CountKind(s, kind).saved == s.saved == |Records(log)| == StatSum(s)
  {
  }

  lemma BaselineIsThere(cfg: Config, m: Machine)
    requires BoundedLog(m.log)
    requires exists tail :: CutRecord(cfg.events, tail) && m.disk.contents == EncodeFile(m.udCounters,
        Records(m.log)) + tail
    ensures !(m.disk.contents < EncodeInts(m.udCounters))
  {
  }

  lemma ConcludeAccounts(cfg: Config, m: Machine, e: Event)
    requires InBounds(m.core) && Accounted(cfg, m) && m.status == Running && !m.measuringUd
    requires |e.counters| == cfg.events
    ensures Accounted(cfg, Conclude(cfg, m, e))
  {
    hide Advance, EncodeFile, EncodeInts, EncodeRecord, Records, Put, Fits, StatsAgree, StatSum, CutRecord,
        CountKind, Classify;
    var c := Classified(m.core, e, Classify(e, m.malformed, m.core.length, m.udCounters));
    var r := Conclude(cfg, m, e);
    StatsGrow(m.stats, m.log, c);
    RecordsGrow(m.log, c);
    if c.kind != NotInteresting {
      FileGrows(cfg, m.udCounters, m.log, c, m.disk);
      assert Valid(cfg.events, RecordOf(c));
      SumGrows(m.stats, m.log, c.kind);
      if r.status == WriteFailed {
        BaselineIsThere(cfg, r);
      }
    }
    if r.status != WriteFailed {
      assert r.log == m.log + [c];
    }
  }

  lemma MeasuringStats(s: Stats)
    ensures StatsAgree(s, []) ==> s.saved == |Records([])| == StatSum(s)
  {
  }

  lemma StepAccounts(cfg: Config, m: Machine, e: Event)
    requires InBounds(m.core) && Accounted(cfg, m) && |e.counters| == cfg.events
    ensures Accounted(cfg, Step(cfg, m, e))
  {
    hide Conclude, EncodeInts, EncodeRecord, StatsAgree, CutRecord;
    if m.status == Running {
      var seen := m.(trace := m.trace + [Execution(Pending(m), e)]);
      assert Accounted(cfg, seen);
      if m.measuringUd {
        MeasuringStats(m.stats);
        assert Records([]) == [] && EncodeFile(m.udCounters, []) == EncodeInts(m.udCounters);
      } else if Classifies(cfg, m, e) {
        var reset := if e.exception == INVALID_OPCODE then seen.(lastCounters := Zeros(cfg.events)) else seen;
        assert Accounted(cfg, reset);
        ConcludeAccounts(cfg, reset, e);
      }
    }
  }

  lemma {:induction false} ChainAccounts(cfg: Config, states: seq<Machine>, events: seq<Event>, i: nat)
    requires Chain(cfg, states, events) && i < |states|
    ensures Accounted(cfg, states[i])
  {
    hide Step, Init, Accounted;
    if i == 0 {
      var capacity: nat :| states[0] == Init(cfg, capacity);
      InitAccounts(cfg, capacity);
    } else {
      ChainAccounts(cfg, states, events, i - 1);
      assert Follows(cfg, states[i - 1], events[i - 1], states[i]);
      StepAccounts(cfg, states[i - 1], events[i - 1]);
    }
  }

  lemma AccountsHold(cfg: Config, m: Machine)
    requires Reachable(cfg, m)
    ensures Accounted(cfg, m)
  {
    hide Accounted;
    var states, events :| Chain(cfg, states, events) && states[|events|] == m;
    ChainAccounts(cfg, states, events, |events|);
  }

  lemma InitAccounts(cfg: Config, capacity: nat)
    ensures Accounted(cfg, Init(cfg, capacity))
  {
    hide EncodeFile, CutRecord;
    NothingSaved();
  }

  lemma NothingSaved()
    ensures StatsAgree(Stats(0, 0, 0, 0, 0, 0, 0, 0, 0), []) && Records([]) == []
  {
  }

  // ----- the theorems -----

  /**
    At every step boundary each counter is the number of records of its type, and they sum to what
    was saved; after a failed write the sum is off exactly when it was a record that failed.
  */
  lemma StatisticsAreConserved(cfg: Config, m: Machine)
    requires Reachable(cfg, m)
    ensures && BoundedLog(m.log)
            && m.stats.saved == |Records(m.log)| <= |m.log|
            && (m.status != WriteFailed ==>
                  && (forall kind :: StatOf(m.stats, kind) == Tally(Records(m.log), kind))
                  && StatSum(m.stats) == m.stats.saved <= m.stats.executed == |m.log|)
            && (m.status == WriteFailed ==>
                  StatSum(m.stats) == m.stats.saved + if m.disk.contents < EncodeInts(m.udCounters) then 0 else 1)
  {
    hide Reachable, FileAgrees, Records;
    AccountsHold(cfg, m);
    FewerRecords(m.log);
  }

  lemma {:induction false} FewerRecords(log: seq<Classified>)
    requires BoundedLog(log)
    ensures |Records(log)| <= |log|
  {
    if log != [] { FewerRecords(log[..|log| - 1]); }
  }

  /**
    Whatever happened, a reader recovers the baseline and one record for each interesting
    classification, in order; after a failed write, all that were completed before it. Only a
    failure inside the baseline itself leaves nothing to read.
  */
  lemma SavedFileDecodes(cfg: Config, m: Machine)
    requires Reachable(cfg, m) && !m.measuringUd
    ensures && BoundedLog(m.log)
            && var read := DecodeFile(cfg.events, m.disk.contents);
               && (m.status != WriteFailed ==> read == Some((m.udCounters, ReadAll(Records(m.log)), [])))
               && (m.status == WriteFailed ==>
                     || (read.Some? && read.value.0 == m.udCounters && read.value.1 == ReadAll(Records(m.log)))
                     || (read == None && m.log == []))
  {
    hide Reachable, StatsAgree, EncodeFile, EncodeInts, DecodeInts, DecodeRecords, Records, CutRecord;
    AccountsHold(cfg, m);
    var file, rs := m.disk.contents, Records(m.log);
    if m.status != WriteFailed {
      FileRoundTrip(cfg.events, m.udCounters, rs, []);
      assert file + [] == file;
    } else if m.log == [] && file < EncodeInts(m.udCounters) {
      assert file == EncodeInts(m.udCounters)[..|file|];
      IntsArePrefixFree(m.udCounters, |file|);
    } else {
      var tail :| CutRecord(cfg.events, tail) && file == EncodeFile(m.udCounters, rs) + tail;
      FileRoundTrip(cfg.events, m.udCounters, rs, tail);
    }
  }

  function Pad(s: Instruction): Buffer { s + seq(CAPACITY - |s|, _ => 0) }

  ghost predicate Ascend(rs: seq<Record>)
  {
    forall i, j :: 0 <= i < j < |rs| ==> Val(Pad(rs[i].bytes)) < Val(Pad(rs[j].bytes))
  }

  ghost predicate NoneAbove(rs: seq<Record>, bound: int)
  {
    forall i :: 0 <= i < |rs| ==> Val(Pad(rs[i].bytes)) <= bound
  }

  lemma {:induction false} RecordsAscend(cfg: Config, log: seq<Classified>)
    requires LogSound(cfg, log) && BoundedLog(log)
    ensures Ascend(Records(log))
    ensures NoneAbove(Records(log), if log == [] then -1 else Val(log[|log| - 1].core.bytes))
  {
    hide Val, Sound, Pad;
    if log != [] {
      var c, before := log[|log| - 1], log[..|log| - 1];
      assert LogSound(cfg, before) by { assert forall i :: 0 <= i < |before| ==> before[i] == log[i]; }
      RecordsAscend(cfg, before);
      assert before != [] ==> Val(log[|log| - 2].core.bytes) < Val(c.core.bytes);
      PadRestores(cfg, c.core);
      AscendingAppend(Records(before), RecordOf(c), Val(c.core.bytes));
    }
  }

  lemma AscendingAppend(rs: seq<Record>, r: Record, v: nat)
    requires Ascend(rs) && NoneAbove(rs, v - 1) && Val(Pad(r.bytes)) == v
    ensures Ascend(rs + [r]) && NoneAbove(rs + [r], v) && NoneAbove(rs, v)
  {
    hide Val, Pad;
  }

  lemma PadRestores(cfg: Config, c: Core)
    requires Sound(cfg, c)
    ensures Pad(c.bytes[..c.length]) == c.bytes
  {
  }

  /** Saved instructions, padded with zeros, stand in the file in strictly increasing order. */
  lemma SavedInOrder(cfg: Config, m: Machine, i: nat, j: nat)
    requires Reachable(cfg, m) && BoundedLog(m.log) && i < j < |Records(m.log)|
    ensures var rs := Records(m.log);
            Below(Pad(rs[i].bytes), Pad(rs[j].bytes), CAPACITY)
  {
    hide Reachable, Records, Val, Rejected, Malformed, Passed, Covered;
    InvariantHolds(cfg, m);
    var log := m.log;
    RecordsAscend(cfg, log);
    BelowIsLess(Pad(Records(log)[i].bytes), Pad(Records(log)[j].bytes));
  }

  // ----- which candidates are saved -----

  /** The low bytes of CS and of the error code as bits. */
  predicate LowBytes(e: Event, cs: bv8, code: bv8) { IsLowByte(cs, e.cs) && IsLowByte(code, e.errorCode) }

  lemma EventBits(e: Event, cs: bv8, code: bv8)
    requires LowBytes(e, cs, code)
    ensures SupervisorPageFault(e) <==> e.exception == 14 && code & (1 << 2) == 0
    ensures FromUser(e) <==> cs & 3 == 3
  {
    hide IsLowByte;
    LowBits(e.errorCode, code);
    LowBits(e.cs, cs);
  }

  /** Which type wins when several would apply; #UD is exception 6, #MC 18. */
  lemma ClassificationTable(e: Event, malformed: bool, length: nat, udCounters: seq<u64>, cs: bv8, code: bv8)
    requires LowBytes(e, cs, code)
    ensures var kind, known := Classify(e, malformed, length, udCounters), e.xedLength != 0;
            var ud, mc := e.exception == 6, e.exception == 18;
            var user, supervisor := cs & 3 == 3, e.exception == 14 && code & (1 << 2) == 0;
            var plain := !mc && !supervisor;
            && (kind == MachineCheck <==> mc)
            && (kind == UndocumentedUd <==> ud && !known && e.counters != udCounters)
            && (kind == UndocumentedNotUd <==> !ud && !mc && !known)
            && (kind == KernelPageFault <==> supervisor && known)
            && (kind == XedLengthMismatch <==> plain && known && e.xedLength != length)
            && (kind == VexMalformedButAccepted <==> plain && !ud && malformed && known && e.xedLength == length)
            && (kind == KernelException <==>
                  && plain && !user && (known ==> e.xedLength == length)
                  && if ud then known || e.counters == udCounters else known && !malformed)
  {
    hide LowBytes;
    EventBits(e, cs, code);
  }

  /** The extra value of a record: the last valid bank of a #MC, the address of a supervisor access, or none. */
  lemma ExtraTable(e: Event, cs: bv8, code: bv8)
    requires LowBytes(e, cs, code)
    ensures e.exception == 18 ==> ExtraInfo(e) == Some(LastValidBank(e.banks))
    ensures e.exception != 18 ==>
              ExtraInfo(e) == if e.exception == 14 && code & (1 << 2) == 0 then Some(e.cr2) else None
  {
    hide LowBytes;
    EventBits(e, cs, code);
  }

  /** The exact condition for a candidate to be saved at all. */
  lemma SavedJustWhenInteresting(e: Event, malformed: bool, length: nat, udCounters: seq<u64>, cs: bv8, code: bv8)
    requires LowBytes(e, cs, code)
    ensures Classify(e, malformed, length, udCounters) != NotInteresting <==>
            || cs & 3 != 3
            || e.exception == 18
            || (malformed && e.exception != 6)
            || (e.xedLength != 0 && e.xedLength != length)
            || (e.xedLength == 0 && (e.exception == 6 ==> e.counters != udCounters))
            || (e.exception == 14 && code & (1 << 2) == 0)
  {
    hide LowBytes;
    EventBits(e, cs, code);
  }

  /** The three criteria of the repository's README for saving a candidate. */
  predicate Documented(e: Event, length: nat, udCounters: seq<u64>, cs: bv8)
  {
    || (e.exception == 6 && e.counters != udCounters && (e.xedLength == 0 || e.xedLength != length))
    || cs & 3 != 3
    || e.exception == 18
  }

  /**
    Everything documented is saved. What is saved beyond that: length mismatches without #UD or with
    the baseline's counters, instructions XED does not know that raise no #UD, malformed VEX
    prefixes that raise no #UD, and page faults on supervisor accesses.
  */
  lemma SavedBeyondTheDocumented(e: Event, malformed: bool, length: nat, udCounters: seq<u64>, cs: bv8, code: bv8)
    requires LowBytes(e, cs, code)
    ensures var saved := Classify(e, malformed, length, udCounters) != NotInteresting;
            && (Documented(e, length, udCounters, cs) ==> saved)
            && (saved && !Documented(e, length, udCounters, cs) <==>
                  && cs & 3 == 3 && e.exception != 18
                  && if e.exception == 6 then
                       e.xedLength != 0 && e.xedLength != length && e.counters == udCounters
                     else e.xedLength != length || e.xedLength == 0 || malformed ||
                          (e.exception == 14 && code & (1 << 2) == 0))
  {
    hide LowBytes;
    EventBits(e, cs, code);
  }

  /** With the shipped limit, no candidate is ever counted as a malformed VEX instruction. */
  lemma ShippedLimitCountsNoMalformedVex(cfg: Config, m: Machine)
    requires Reachable(cfg, m) && cfg.filter.maxPrefixes <= 1
    ensures m.stats.vexMalformed == 0
  {
    var states, events :| Chain(cfg, states, events) && states[|events|] == m;
    ChainCountsNone(cfg, states, events, |events|);
  }

  lemma {:induction false} ChainCountsNone(cfg: Config, states: seq<Machine>, events: seq<Event>, i: nat)
    requires Chain(cfg, states, events) && i < |states| && cfg.filter.maxPrefixes <= 1
    ensures states[i].stats.vexMalformed == 0
  {
    hide Step, Invariant;
    if i > 0 {
      ChainCountsNone(cfg, states, events, i - 1);
      assert Follows(cfg, states[i - 1], events[i - 1], states[i]);
      ChainHolds(cfg, states, events, i - 1);
      StepCountsNone(cfg, states[i - 1], events[i - 1]);
    }
  }

  lemma StepCountsNone(cfg: Config, m: Machine, e: Event)
    requires InBounds(m.core) && Invariant(cfg, m) && cfg.filter.maxPrefixes <= 1 && m.stats.vexMalformed == 0
    ensures Step(cfg, m, e).stats.vexMalformed == 0
  {
    hide LogSound, AllLess, Passed, Covered, Sound, Advance, Malformed, EncodeRecord, EncodeInts, Put, Fits;
    MalformedNeedsTwoPrefixes(cfg.filter);
  }
}
