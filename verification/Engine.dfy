/**
  The handler of src/instruction_execution_loop.c:191-1009 over its globals. A call of
  `execute_instruction` never comes back, so a method that makes one reports it and its caller
  returns; the next call of `HandleException` brings the outcome. Each method is proved to do
  what `SearchMachine` says.
*/
module Engine {
  import opened Bytes
  import opened Wrappers
  import opened PrefixFilter
  import opened PrefixFilterProperties
  import opened Candidates
  import opened SaveFormat
  import opened SaveFile
  import opened SearchMachine

  class SearchEngine {
    const cfg: Config
    const instructionBytes: array<byte>
    var curInstructionLength: nat
    var curByteIndex: nat
    var lastInstructionLength: nat
    var malformedInstructionExpectUd: bool
    var measuringUd: bool
    const udCounters: array<u64>
    const lastCounters: array<u64>
    var uniqueInstructionsExecuted: nat
    var instructionsSaved: nat
    var kernelExceptions: nat
    var kernelPageFaults: nat
    var machineChecks: nat
    var undocumentedBehindUd: nat
    var undocumentedNotUd: nat
    var vexMalformedButAccepted: nat
    var cpuXedLengthMismatches: nat
    const outputFile: OutputFile
    var status: Status
    ghost var trace: seq<Execution>
    ghost var log: seq<Classified>

    ghost predicate Valid()
      reads this
    {
      && instructionBytes.Length == CAPACITY
      && udCounters.Length == lastCounters.Length == cfg.events
      && udCounters != lastCounters
      && instructionBytes as object != udCounters && instructionBytes as object != lastCounters
      && curByteIndex < curInstructionLength <= CAPACITY
    }

    ghost function View(): (m: Machine)
      requires Valid()
      reads this, instructionBytes, udCounters, lastCounters, outputFile
      ensures InBounds(m.core)
    {
      Machine(Core(instructionBytes[..], curInstructionLength, curByteIndex, lastInstructionLength),
              malformedInstructionExpectUd, measuringUd, udCounters[..], lastCounters[..],
              Statistics(), outputFile.View(), status, trace, log)
    }

    function Statistics(): Stats
      reads this
    {
      Stats(kernelExceptions, kernelPageFaults, machineChecks, undocumentedBehindUd, undocumentedNotUd,
            vexMalformedButAccepted, cpuXedLengthMismatches, uniqueInstructionsExecuted, instructionsSaved)
    }

    /** The globals as the program starts with them, and a fresh save file. */
    constructor (cfg: Config, capacity: nat)
      ensures Valid() && fresh(instructionBytes) && fresh(udCounters) && fresh(lastCounters) && fresh(outputFile)
      ensures this.cfg == cfg && View() == Init(cfg, capacity) && Reachable(cfg, View())
    {
      this.cfg := cfg;
      instructionBytes := new byte[CAPACITY](_ => 0);
      udCounters := new u64[cfg.events](_ => 0);
      lastCounters := new u64[cfg.events](_ => 0);
      outputFile := new OutputFile(capacity);
      curInstructionLength, curByteIndex, lastInstructionLength := 1, 0, 0;
      malformedInstructionExpectUd, measuringUd := false, true;
      uniqueInstructionsExecuted, instructionsSaved := 0, 0;
      kernelExceptions, kernelPageFaults, machineChecks := 0, 0, 0;
      undocumentedBehindUd, undocumentedNotUd, vexMalformedButAccepted, cpuXedLengthMismatches := 0, 0, 0, 0;
      status := Running;
      trace, log := [], [];
      new;
      assert instructionBytes[..] == seq(CAPACITY, _ => 0);
      assert udCounters[..] == Zeros(cfg.events) && lastCounters[..] == Zeros(cfg.events);
      InitIsReachable(cfg, capacity);
    }

    /** src/instruction_execution_loop.c:214-224 */
    method IncrementInstructionLengthAndRetryExec() returns (executed: bool)
      requires Valid()
      modifies this`curInstructionLength
      ensures Valid()
      ensures executed <==> old(curInstructionLength) < CAPACITY
      ensures curInstructionLength == old(curInstructionLength) + if executed then 1 else 0
    {
      if curInstructionLength >= instructionBytes.Length {
        return false;
      }
      curInstructionLength := curInstructionLength + 1;
      executed := true;
    }

    /** The comparing and copying loop of src/instruction_execution_loop.c:598-606 and 714-722. */
    method UpdateCounters(stored: array<u64>, current: seq<u64>) returns (changed: bool)
      requires stored.Length == |current|
      modifies stored
      ensures stored[..] == current
      ensures changed <==> old(stored[..]) != current
    {
      changed := false;
      ghost var before := stored[..];
      for i := 0 to stored.Length
        invariant forall j :: 0 <= j < i ==> stored[j] == current[j]
        invariant forall j :: i <= j < stored.Length ==> stored[j] == before[j]
        invariant changed <==> before[..i] != current[..i]
      {
        assert before[..i + 1] == before[..i] + [before[i]] && current[..i + 1] == current[..i] + [current[i]];
        changed := changed || current[i] != stored[i];
        stored[i] := current[i];
      }
      assert before[..stored.Length] == before && current[..stored.Length] == current;
    }

    /** src/instruction_execution_loop.c:712-732 */
    method RestartOnUnstableCountersValues(current: seq<u64>) returns (executed: bool)
      requires Valid() && |current| == cfg.events
      modifies lastCounters
      ensures executed <==> old(lastCounters[..]) != current
      ensures lastCounters[..] == if executed then current else Zeros(cfg.events)
    {
      executed := UpdateCounters(lastCounters, current);
      if !executed {
        forall i | 0 <= i < lastCounters.Length {
          lastCounters[i] := 0;
        }
      }
    }

    /** src/instruction_execution_loop.c:578-632 */
    method CheckUd2Measurements(e: Event) returns (executed: bool)
      requires Valid() && |e.counters| == cfg.events && measuringUd && status == Running
      modifies this, udCounters, outputFile
      ensures Valid() && View() == MeasureUd(cfg, old(View()), e)
      ensures executed ==> status == Running
    {
      hide EncodeInts, Put, Fits;
      if e.exception != INVALID_OPCODE {
        status := UnexpectedException;
        return false;
      }
      executed := UpdateCounters(udCounters, e.counters);
      if executed {
        return;
      }
      assert udCounters[..] == old(udCounters[..]);
      measuringUd := false;
      var ok := outputFile.SaveUint64Array(udCounters[..]);
      if !ok {
        status := WriteFailed;
      }
    }

    /**
      src/instruction_execution_loop.c:939-971: choose between moving the pointer to the last byte
      and leaving it, then seek the next candidate.
    */
    method AdvanceCandidate()
      requires Valid() && status == Running
      modifies this`curByteIndex, this`curInstructionLength, this`lastInstructionLength,
               this`malformedInstructionExpectUd, this`status, instructionBytes
      ensures Valid() && View() == Advance(cfg, old(View()))
    {
      hide Rejected, Malformed, IsPrefixCount, PrefixCount, NextCandidate, Advance;
      ghost var start := View();
      var prefixes := CountPrefixes(cfg.filter, instructionBytes, curInstructionLength);
      PrefixCountIs(cfg.filter, instructionBytes[..], curInstructionLength, prefixes);
      var curByteIsPrefix := curByteIndex < prefixes;
      var stay := curInstructionLength == lastInstructionLength && !curByteIsPrefix;
      if !stay {
        curByteIndex := curInstructionLength - 1;
        lastInstructionLength := curInstructionLength;
      }
      SeekCandidate(stay);
      AdvanceIs(cfg, start, stay, View());
    }

    /**
      The two loops of src/instruction_execution_loop.c:942-971; `atLabel` says whether they are entered
      at the label update_byte_index, and `carry` stands for being there.
    */
    method SeekCandidate(atLabel: bool)
      requires Valid() && status == Running
      requires atLabel || curInstructionLength == curByteIndex + 1
      modifies this`curByteIndex, this`curInstructionLength, this`malformedInstructionExpectUd, this`status,
               instructionBytes
      ensures Valid()
      ensures match NextCandidate(cfg.filter, old(instructionBytes[..]), old(curByteIndex), old(curInstructionLength))
              case Exhausted(bytes, length) =>
                && status == Done && instructionBytes[..] == bytes && curInstructionLength == length
                && curByteIndex == 0
                && malformedInstructionExpectUd ==
                   (old(malformedInstructionExpectUd) && AllFull(old(instructionBytes[..]), old(curByteIndex)))
              case Candidate(bytes, pointer) =>
                && status == Running && instructionBytes[..] == bytes && curByteIndex == pointer
                && curInstructionLength == pointer + 1
                && malformedInstructionExpectUd == Malformed(cfg.filter, bytes, pointer + 1)
    {
      hide Rejected, Malformed;
      ghost var goal := NextCandidate(cfg.filter, instructionBytes[..], curByteIndex, curInstructionLength);
      ghost var tested := false;
      ghost var full := AllFull(instructionBytes[..], curByteIndex);
      var carry := atLabel;
      while true
        invariant Valid() && status == Running
        invariant tested ==> !malformedInstructionExpectUd && !full
        invariant !tested ==> malformedInstructionExpectUd == old(malformedInstructionExpectUd)
        invariant !tested ==> full == AllFull(instructionBytes[..], curByteIndex)
        invariant carry || curInstructionLength == curByteIndex + 1
        invariant NextCandidate(cfg.filter, instructionBytes[..], curByteIndex, curInstructionLength) == goal
        decreases curByteIndex, 255 - instructionBytes[curByteIndex], if carry then 0 else 1
      {
        if carry {
          CarryOver(goal);
          if status == Done {
            return;
          }
          carry := false;
        }
        if instructionBytes[curByteIndex] == 0xff {
          carry := true;
        } else {
          ghost var before := instructionBytes[..];
          instructionBytes[curByteIndex] := instructionBytes[curByteIndex] + 1;
          assert instructionBytes[..] == before[curByteIndex := before[curByteIndex] + 1];
          tested := true;
          var invalid, malformed := ContainsInvalidCountOfPrefixes(cfg.filter, instructionBytes, curInstructionLength);
          malformedInstructionExpectUd := malformed;
          if !invalid {
            return;
          }
          RejectedIsNotMalformed(cfg.filter, instructionBytes[..], curInstructionLength);
        }
      }
    }

    /** src/instruction_execution_loop.c:943-956 */
    method CarryOver(ghost goal: Found)
      requires Valid() && status == Running
      requires NextCandidate(cfg.filter, instructionBytes[..], curByteIndex, curInstructionLength) == goal
      modifies this`curByteIndex, this`curInstructionLength, this`status, instructionBytes
      ensures Valid() && (status == Running || status == Done)
      ensures status == Done ==> goal == Exhausted(instructionBytes[..], curInstructionLength) && curByteIndex == 0
      ensures status == Done ==> AllFull(old(instructionBytes[..]), old(curByteIndex))
      ensures status == Running ==>
                AllFull(old(instructionBytes[..]), old(curByteIndex)) == AllFull(instructionBytes[..], curByteIndex)
      ensures status == Running ==>
                && curInstructionLength == curByteIndex + 1 && instructionBytes[curByteIndex] != 0xff
                && NextCandidate(cfg.filter, instructionBytes[..], curByteIndex, curInstructionLength) == goal
                && (curByteIndex < old(curByteIndex)
                    || (curByteIndex == old(curByteIndex) && instructionBytes[..] == old(instructionBytes[..])))
    {
      hide Rejected;
      while instructionBytes[curByteIndex] == 0xff
        invariant Valid() && status == Running
        invariant NextCandidate(cfg.filter, instructionBytes[..], curByteIndex, curInstructionLength) == goal
        invariant curByteIndex < old(curByteIndex)
                  || (curByteIndex == old(curByteIndex) && instructionBytes[..] == old(instructionBytes[..]))
        invariant forall i :: 0 <= i <= curByteIndex ==> instructionBytes[i] == old(instructionBytes[i])
        invariant forall i :: curByteIndex < i <= old(curByteIndex) ==> old(instructionBytes[i]) == 0xff
        decreases curByteIndex
      {
        ghost var before := instructionBytes[..];
        instructionBytes[curByteIndex] := 0;
        assert instructionBytes[..] == before[curByteIndex := 0];
        if curByteIndex == 0 {
          status := Done;
          return;
        }
        curByteIndex := curByteIndex - 1;
      }
      curInstructionLength := curByteIndex + 1;
    }

    /** The bank loop of src/instruction_execution_loop.c:843-852. */
    method CollectMachineCheck(banks: seq<u64>) returns (extraInfo: u64)
      ensures extraInfo == LastValidBank(banks)
    {
      extraInfo := 0;
      for i := 0 to |banks|
        invariant extraInfo == LastValidBank(banks[..i])
      {
        assert banks[..i + 1][..i] == banks[..i];
        if BankValid(banks[i]) {
          extraInfo := banks[i];
        }
      }
      assert banks[..|banks|] == banks;
    }

    /** src/instruction_execution_loop.c:734-747 */
    method PerfCountersValuesMatch(current: seq<u64>, reference: array<u64>) returns (same: bool)
      requires |current| == reference.Length
      ensures same <==> current == reference[..]
    {
      for i := 0 to |current|
        invariant forall j :: 0 <= j < i ==> current[j] == reference[j]
      {
        if current[i] != reference[i] {
          assert current[i] != reference[..][i];
          return false;
        }
      }
      same := true;
    }

    /** src/instruction_execution_loop.c:804-855, from the type found so far; the #UD case may rerun the candidate. */
    method ClassifyException(e: Event, found: InstructionType)
      returns (executed: bool, kind: InstructionType, extra: Option<u64>)
      requires Valid() && |e.counters| == cfg.events
      modifies lastCounters
      ensures executed <==> e.exception == INVALID_OPCODE && e.counters != old(lastCounters[..])
      ensures lastCounters[..] == if e.exception != INVALID_OPCODE then old(lastCounters[..])
                                  else if executed then e.counters else Zeros(cfg.events)
      ensures !executed ==>
                && extra == ExtraInfo(e)
                && kind == if e.exception == MACHINE_CHECK then MachineCheck
                           else if e.exception == INVALID_OPCODE then
                             if e.xedLength == 0 && e.counters != udCounters[..] then UndocumentedUd else found
                           else if e.xedLength == 0 then UndocumentedNotUd
                           else if SupervisorPageFault(e) then KernelPageFault
                           else found
    {
      var instructionIsKnown := e.xedLength != 0;
      executed, kind, extra := false, found, None;
      if e.exception == INVALID_OPCODE {
        ghost var baseline := udCounters[..];
        executed := RestartOnUnstableCountersValues(e.counters);
        if executed {
          return;
        }
        assert udCounters[..] == baseline;
        var same := PerfCountersValuesMatch(e.counters, udCounters);
        if !instructionIsKnown && !same {
          kind := UndocumentedUd;
        }
      } else if e.exception == MACHINE_CHECK {
        kind := MachineCheck;
        var status := CollectMachineCheck(e.banks);
        extra := Some(status);
      } else {
        if e.exception == PAGE_FAULT && (e.errorCode / 4) % 2 == 0 {
          extra := Some(e.cr2);
          kind := KernelPageFault;
        }
        if !instructionIsKnown {
          kind := UndocumentedNotUd;
        }
      }
    }

    /** src/instruction_execution_loop.c:859-890 */
    method CountInstruction(kind: InstructionType)
      modifies this`kernelExceptions, this`kernelPageFaults, this`machineChecks, this`undocumentedBehindUd,
               this`undocumentedNotUd, this`vexMalformedButAccepted, this`cpuXedLengthMismatches
      ensures Statistics() == CountKind(old(Statistics()), kind)
    {
      match kind {
        case KernelException => kernelExceptions := kernelExceptions + 1;
        case KernelPageFault => kernelPageFaults := kernelPageFaults + 1;
        case MachineCheck => machineChecks := machineChecks + 1;
        case UndocumentedUd => undocumentedBehindUd := undocumentedBehindUd + 1;
        case UndocumentedNotUd => undocumentedNotUd := undocumentedNotUd + 1;
        case VexMalformedButAccepted => vexMalformedButAccepted := vexMalformedButAccepted + 1;
        case XedLengthMismatch => cpuXedLengthMismatches := cpuXedLengthMismatches + 1;
        case NotInteresting =>
      }
    }

    /** src/instruction_execution_loop.c:892-916 */
    method SaveInteresting(e: Event, kind: InstructionType, extra: Option<u64>)
      requires Valid() && status == Running
      modifies this`instructionsSaved, this`status, outputFile
      ensures Valid()
      ensures var data := EncodeRecord(Record(e.exception, extra, e.counters, kind,
                                              instructionBytes[..curInstructionLength]));
              && outputFile.View() == Put(old(outputFile.View()), data)
              && status == (if Fits(old(outputFile.View()), data) then Running else WriteFailed)
              && instructionsSaved == old(instructionsSaved) + if status == Running then 1 else 0
    {
      hide EncodeRecord, EncodeWithErrorCode, Put, Fits;
      var bytes: Instruction := instructionBytes[..curInstructionLength];
      ErrorCodeIsNeverWritten(Record(e.exception, extra, e.counters, kind, bytes), e.errorCode);
      var ok := outputFile.SaveInstructionData(e.exception, e.errorCode, kind, bytes, extra, e.counters);
      if ok {
        instructionsSaved := instructionsSaved + 1;
      } else {
        status := WriteFailed;
      }
    }

    /** src/instruction_execution_loop.c:857-917 */
    method CountAndSave(e: Event, kind: InstructionType, extra: Option<u64>)
      requires Valid() && status == Running
      modifies this, outputFile
      ensures Valid()
      ensures var m := old(View());
              var data := EncodeRecord(Record(e.exception, extra, e.counters, kind, m.core.bytes[..m.core.length]));
              var counted := CountKind(m.stats, kind);
              View() == if Fits(m.disk, data) then
                          m.(disk := Put(m.disk, data), stats := counted.(saved := counted.saved + 1))
                        else m.(disk := Put(m.disk, data), stats := counted, status := WriteFailed)
    {
      hide EncodeRecord, Put, Fits, CountKind;
      CountInstruction(kind);
      SaveInteresting(e, kind, extra);
    }

    /** src/instruction_execution_loop.c:857-971 */
    method ConcludeInstruction(e: Event, kind: InstructionType, extra: Option<u64>)
      requires Valid() && status == Running
      requires kind == Classify(e, malformedInstructionExpectUd, curInstructionLength, udCounters[..])
      requires extra == ExtraInfo(e)
      modifies this, instructionBytes, outputFile
      ensures Valid() && View() == Conclude(cfg, old(View()), e)
    {
      hide EncodeRecord, Put, Fits, Advance, CountKind, Classify, ExtraInfo, Conclude;
      ghost var start := View();
      ghost var c := Classified(start.core, e, kind);
      ConcludeUnfolds(cfg, start, e, c);
      if kind != NotInteresting {
        CountAndSave(e, kind, extra);
        if status != Running { return; }
      }
      MoveOn(c);
    }

    /** src/instruction_execution_loop.c:919-971 */
    method MoveOn(ghost c: Classified)
      requires Valid() && status == Running
      modifies this, instructionBytes
      ensures Valid()
      ensures var m := old(View());
              View() == Advance(cfg, m.(stats := m.stats.(executed := m.stats.executed + 1), log := m.log + [c]))
    {
      hide Advance;
      uniqueInstructionsExecuted := uniqueInstructionsExecuted + 1;
      log := log + [c];
      AdvanceCandidate();
    }

    /** src/instruction_execution_loop.c:758-802: the type found before looking at the exception itself. */
    method FindType(e: Event) returns (found: InstructionType)
      ensures found == if e.xedLength != 0 && curInstructionLength != e.xedLength then XedLengthMismatch
                       else if malformedInstructionExpectUd && e.exception != INVALID_OPCODE
                           then VexMalformedButAccepted
                       else if FromUser(e) then NotInteresting else KernelException
    {
      found := NotInteresting;
      if e.cs % 4 != 3 {
        found := KernelException;
      }
      if malformedInstructionExpectUd && e.exception != INVALID_OPCODE {
        found := VexMalformedButAccepted;
      }
      var instructionIsKnown := e.xedLength != 0;
      if instructionIsKnown && curInstructionLength != e.xedLength {
        found := XedLengthMismatch;
      }
    }

    /** src/instruction_execution_loop.c:753-972 */
    method CheckLastInstruction(e: Event) returns (executed: bool)
      requires Valid() && |e.counters| == cfg.events && status == Running && !measuringUd
      modifies this, instructionBytes, lastCounters, outputFile
      ensures Valid() && View() == CheckLast(cfg, old(View()), e)
      ensures executed ==> status == Running
    {
      hide Conclude, ExtraInfo;
      if e.cs % 4 == 3 {
        if e.exception == PAGE_FAULT && (e.errorCode / 16) % 2 == 1 {
          if e.cr2 == cfg.execPageEnd && e.rip != e.cr2 {
            executed := IncrementInstructionLengthAndRetryExec();
            if executed { return; }
          }
        }
      }
      var found := FindType(e);
      var kind, extra;
      executed, kind, extra := ClassifyException(e, found);
      if executed { return; }
      ConcludeInstruction(e, kind, extra);
    }

    /** src/instruction_execution_loop.c:982-1009, up to the execution that ends it. */
    method HandleException(e: Event)
      requires Valid() && |e.counters| == cfg.events && status == Running
      modifies this, instructionBytes, udCounters, lastCounters, outputFile
      ensures Valid() && View() == Step(cfg, old(View()), e)
      ensures old(Reachable(cfg, View())) ==> Reachable(cfg, View())
    {
      hide MeasureUd, CheckLast, Reachable;
      if Reachable(cfg, View()) {
        StepIsReachable(cfg, View(), e);
      }
      trace := trace + [Execution(Pending(View()), e)];
      var executed;
      if measuringUd {
        executed := CheckUd2Measurements(e);
      } else {
        executed := CheckLastInstruction(e);
      }
    }
  }

  lemma ConcludeUnfolds(cfg: Config, m: Machine, e: Event, c: Classified)
    requires InBounds(m.core)
    requires c == Classified(m.core, e, Classify(e, m.malformed, m.core.length, m.udCounters))
    ensures var counted := CountKind(m.stats, c.kind);
            var data := EncodeRecord(RecordOf(c));
            Conclude(cfg, m, e) ==
              if c.kind == NotInteresting then
                Advance(cfg, m.(stats := m.stats.(executed := m.stats.executed + 1), log := m.log + [c]))
              else if Fits(m.disk, data) then
                Advance(cfg, m.(stats := counted.(executed := counted.executed + 1, saved := counted.saved + 1),
                                disk := Put(m.disk, data), log := m.log + [c]))
              else m.(stats := counted, disk := Put(m.disk, data), status := WriteFailed)
  {
    hide EncodeRecord, Put, Fits, Advance, Classify;
  }

  /** A state that differs from the one before as the search for a candidate says is the one after the advance. */
  lemma AdvanceIs(cfg: Config, m: Machine, stay: bool, r: Machine)
    requires InBounds(m.core) && InBounds(r.core)
    requires stay == (&& m.core.length == m.core.last
                      && m.core.pointer >= PrefixCount(cfg.filter, m.core.bytes, m.core.length))
    requires r == m.(core := r.core, malformed := r.malformed, status := r.status) && r.core.last == m.core.length
    requires var from := if stay then m.core.pointer else m.core.length - 1;
             match NextCandidate(cfg.filter, m.core.bytes, from, m.core.length)
             case Exhausted(bytes, length) =>
               && r.status == Done && r.core.bytes == bytes && r.core.length == length && r.core.pointer == 0
               && r.malformed == (m.malformed && AllFull(m.core.bytes, from))
             case Candidate(bytes, pointer) =>
               && r.status == m.status && r.core.bytes == bytes && r.core.pointer == pointer
               && r.core.length == pointer + 1
               && r.malformed == Malformed(cfg.filter, bytes, pointer + 1)
    ensures r == Advance(cfg, m)
  {
    hide NextCandidate, PrefixCount, Malformed;
  }

  lemma RejectedIsNotMalformed(f: FilterConfig, b: seq<byte>, length: nat)
    requires length <= |b|
    ensures Rejected(f, b, length) ==> !Malformed(f, b, length)
  {
  }

  lemma PrefixCountIs(cfg: FilterConfig, b: seq<byte>, length: nat, n: nat)
    requires length <= |b| && IsPrefixCount(cfg, b, length, n)
    ensures PrefixCount(cfg, b, length) == n
  {
    PrefixCountIsUnique(cfg, b, length, n, PrefixCount(cfg, b, length));
  }
}
