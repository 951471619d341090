/**
  The search as a state machine. Every execution of the pending instruction ends in an exception,
  and handling it (src/instruction_execution_loop.c:982-1009) is one step. `trace` and `log` are
  history: all executions so far, and those that were classified.
*/
module SearchMachine {
  import opened Bytes
  import opened Wrappers
  import opened PrefixFilter
  import opened PrefixFilterProperties
  import opened Candidates
  import opened SaveFormat
  import opened SaveFile

  /** The filter's parameters, PERF_EVENTS_COUNT, and the address right after the executable page. */
  datatype Config = Config(filter: FilterConfig, events: nat, execPageEnd: u64)

  /** The handlers of src/exception_handlers.S push 0 to 21. */
  type ExceptionNumber = x: nat | x <= 21

  /** What one execution shows: the exception context, CR2, the counters, XED's length, machine-check banks. */
  datatype Event = Event(exception: ExceptionNumber, errorCode: u64, cs: u64, rip: u64, cr2: u64,
                         counters: seq<u64>, xedLength: nat, banks: seq<u64>)

  const INVALID_OPCODE := 6
  const PAGE_FAULT := 14
  const MACHINE_CHECK := 18
  const UD2: seq<byte> := [0x0f, 0x0b]

  predicate FromUser(e: Event) { e.cs % 4 == 3 }

  /** A user-mode instruction fetch ran into the page after the executable one. */
  predicate FetchFault(cfg: Config, e: Event)
  {
    && FromUser(e)
    && e.exception == PAGE_FAULT && (e.errorCode / 16) % 2 == 1
    && e.cr2 == cfg.execPageEnd && e.rip != e.cr2
  }

  predicate SupervisorPageFault(e: Event) { e.exception == PAGE_FAULT && (e.errorCode / 4) % 2 == 0 }

  /** Buffer, current length, byte pointer and the length last seen: the source's search variables. */
  datatype Core = Core(bytes: Buffer, length: nat, pointer: nat, last: nat)

  predicate InBounds(c: Core) { c.pointer < c.length <= CAPACITY }

  datatype Stats = Stats(kernelExceptions: nat, kernelPageFaults: nat, machineChecks: nat, undocumentedBehindUd: nat,
                         undocumentedNotUd: nat, vexMalformed: nat, lengthMismatches: nat, executed: nat, saved: nat)

  datatype Status = Running | UnexpectedException | WriteFailed | Done

  datatype Execution = Execution(instruction: seq<byte>, event: Event)

  datatype Classified = Classified(core: Core, event: Event, kind: InstructionType)

  datatype Machine = Machine(core: Core, malformed: bool, measuringUd: bool,
                             udCounters: seq<u64>, lastCounters: seq<u64>, stats: Stats, disk: Disk, status: Status,
                             trace: seq<Execution>, log: seq<Classified>)

  function Zeros(n: nat): (s: seq<u64>)
    ensures |s| == n && forall i :: 0 <= i < n ==> s[i] == 0
  {
    seq(n, _ => 0)
  }

  function Init(cfg: Config, capacity: nat): Machine
  {
    Machine(Core(seq(CAPACITY, _ => 0), 1, 0, 0), false, true, Zeros(cfg.events), Zeros(cfg.events),
            Stats(0, 0, 0, 0, 0, 0, 0, 0, 0), Disk([], capacity), Running, [], [])
  }

  /** The instruction placed at the end of the executable page next. */
  function Pending(m: Machine): seq<byte>
    requires InBounds(m.core)
  {
    if m.measuringUd then UD2 else m.core.bytes[..m.core.length]
  }

  /** src/instruction_execution_loop.c:758-855, assignment by assignment. */
  function Classify(e: Event, malformed: bool, length: nat, udCounters: seq<u64>): InstructionType
  {
    var entered := if FromUser(e) then NotInteresting else KernelException;
    var expected := if malformed && e.exception != INVALID_OPCODE then VexMalformedButAccepted else entered;
    var measured := if e.xedLength != 0 && length != e.xedLength then XedLengthMismatch else expected;
    if e.exception == MACHINE_CHECK then MachineCheck
    else if e.exception == INVALID_OPCODE then
      if e.xedLength == 0 && e.counters != udCounters then UndocumentedUd else measured
    else if e.xedLength == 0 then UndocumentedNotUd
    else if SupervisorPageFault(e) then KernelPageFault
    else measured
  }

  /** MC_STATUS_VALID, bit 63. */
  predicate BankValid(status: u64) { status >= 0x8000_0000_0000_0000 }

  /** The status of the last machine-check bank whose valid bit is set, or 0. */
  function LastValidBank(banks: seq<u64>): u64
  {
    if banks == [] then 0
    else if BankValid(banks[|banks| - 1]) then banks[|banks| - 1]
    else LastValidBank(banks[..|banks| - 1])
  }

  lemma BankValidOnWords(status: bv64)
    ensures BankValid(status as u64) <==> status & 0x8000_0000_0000_0000 != 0
  {
  }

  /** With the last valid bank just before `i`, that bank is the one reported; with none valid at all, 0. */
  lemma {:induction false} LastValidBankIs(banks: seq<u64>, i: nat)
    requires i <= |banks| && (i > 0 ==> banks[i - 1] >= 0x8000_0000_0000_0000)
    requires forall j :: i <= j < |banks| ==> banks[j] < 0x8000_0000_0000_0000
    ensures LastValidBank(banks) == if i == 0 then 0 else banks[i - 1]
  {
    if i < |banks| { LastValidBankIs(banks[..|banks| - 1], i); }
  }

  function ExtraInfo(e: Event): Option<u64>
  {
    if e.exception == MACHINE_CHECK then Some(LastValidBank(e.banks))
    else if SupervisorPageFault(e) then Some(e.cr2)
    else None
  }

  function RecordOf(c: Classified): Record
    requires InBounds(c.core)
  {
    Record(c.event.exception, ExtraInfo(c.event), c.event.counters, c.kind, c.core.bytes[..c.core.length])
  }

  function CountKind(s: Stats, kind: InstructionType): Stats
  {
    match kind
    case NotInteresting => s
    case KernelException => s.(kernelExceptions := s.kernelExceptions + 1)
    case KernelPageFault => s.(kernelPageFaults := s.kernelPageFaults + 1)
    case MachineCheck => s.(machineChecks := s.machineChecks + 1)
    case UndocumentedUd => s.(undocumentedBehindUd := s.undocumentedBehindUd + 1)
    case UndocumentedNotUd => s.(undocumentedNotUd := s.undocumentedNotUd + 1)
    case VexMalformedButAccepted => s.(vexMalformed := s.vexMalformed + 1)
    case XedLengthMismatch => s.(lengthMismatches := s.lengthMismatches + 1)
  }

  /** The pointer stays put when the length repeats and the byte under it is no prefix. */
  predicate Tunnels(cfg: Config, c: Core)
    requires InBounds(c)
  {
    c.length == c.last && c.pointer >= PrefixCount(cfg.filter, c.bytes, c.length)
  }

  /** The byte the advance raises first. */
  function AdvanceFrom(cfg: Config, c: Core): nat
    requires InBounds(c)
  {
    if Tunnels(cfg, c) then c.pointer else c.length - 1
  }

  /** All bytes up to the pointer are 0xff, so that carrying out of byte 0 tests no candidate. */
  predicate AllFull(b: Buffer, pointer: nat)
    requires pointer < CAPACITY
  {
    forall i :: 0 <= i <= pointer ==> b[i] == 0xff
  }

  /**
    src/instruction_execution_loop.c:939-971. The filter clears the malformed flag for every candidate
    it rejects, so after an end of the search the flag is left as it was only if none was tested.
  */
  ghost function Advance(cfg: Config, m: Machine): (r: Machine)
    requires InBounds(m.core)
    ensures InBounds(r.core)
    ensures r == m.(core := r.core, malformed := r.malformed, status := r.status)
    ensures r.status == m.status || r.status == Done
  {
    match NextCandidate(cfg.filter, m.core.bytes, AdvanceFrom(cfg, m.core), m.core.length)
    case Exhausted(bytes, length) =>
      m.(core := Core(bytes, length, 0, m.core.length), status := Done,
         malformed := m.malformed && AllFull(m.core.bytes, AdvanceFrom(cfg, m.core)))
    case Candidate(bytes, pointer) =>
      m.(core := Core(bytes, pointer + 1, pointer, m.core.length),
         malformed := Malformed(cfg.filter, bytes, pointer + 1))
  }

  /** src/instruction_execution_loop.c:857-971: count, save, and move on to the next candidate. */
  ghost function Conclude(cfg: Config, m: Machine, e: Event): (r: Machine)
    requires InBounds(m.core)
    ensures InBounds(r.core)
  {
    var c := Classified(m.core, e, Classify(e, m.malformed, m.core.length, m.udCounters));
    var counted := CountKind(m.stats, c.kind);
    if c.kind == NotInteresting then
      Advance(cfg, m.(stats := counted.(executed := counted.executed + 1), log := m.log + [c]))
    else
      var written := m.(stats := counted, disk := Put(m.disk, EncodeRecord(RecordOf(c))));
      if !Fits(m.disk, EncodeRecord(RecordOf(c))) then written.(status := WriteFailed)
      else
        Advance(cfg, written.(stats := counted.(executed := counted.executed + 1, saved := counted.saved + 1),
                              log := m.log + [c]))
  }

  /** After a classification the search stops on the write that failed, or has logged it and advanced. */
  lemma ConcludeAdvances(cfg: Config, m: Machine, e: Event)
    requires InBounds(m.core) && m.status == Running
    ensures var r := Conclude(cfg, m, e);
            var c := Classified(m.core, e, Classify(e, m.malformed, m.core.length, m.udCounters));
            && r.measuringUd == m.measuringUd && r.udCounters == m.udCounters && r.trace == m.trace
            && if r.status == WriteFailed then r.core == m.core && r.log == m.log
               else r.log == m.log + [c] &&
                    r == Advance(cfg, r.(core := m.core, malformed := m.malformed, status := Running))
  {
    hide Advance, EncodeRecord, Put, Fits, Classify, CountKind;
  }

  /** src/instruction_execution_loop.c:578-632 */
  ghost function MeasureUd(cfg: Config, m: Machine, e: Event): (r: Machine)
    requires InBounds(m.core)
    ensures InBounds(r.core)
  {
    if e.exception != INVALID_OPCODE then m.(status := UnexpectedException)
    else if e.counters != m.udCounters then m.(udCounters := e.counters)
    else
      m.(measuringUd := false, disk := Put(m.disk, EncodeInts(m.udCounters)),
         status := if Fits(m.disk, EncodeInts(m.udCounters)) then Running else WriteFailed)
  }

  /** src/instruction_execution_loop.c:753-972 */
  ghost function CheckLast(cfg: Config, m: Machine, e: Event): (r: Machine)
    requires InBounds(m.core)
    ensures InBounds(r.core)
  {
    if FetchFault(cfg, e) && m.core.length < CAPACITY then
      m.(core := m.core.(length := m.core.length + 1))
    else if e.exception == INVALID_OPCODE && e.counters != m.lastCounters then
      m.(lastCounters := e.counters)
    else
      Conclude(cfg, if e.exception == INVALID_OPCODE then m.(lastCounters := Zeros(cfg.events)) else m, e)
  }

  ghost function Step(cfg: Config, m: Machine, e: Event): (r: Machine)
    requires InBounds(m.core)
    ensures InBounds(r.core)
  {
    if m.status != Running then m
    else
      var seen := m.(trace := m.trace + [Execution(Pending(m), e)]);
      if m.measuringUd then MeasureUd(cfg, seen, e) else CheckLast(cfg, seen, e)
  }

  /**
    A run: from the initial state, on a medium of any capacity, one step for each event. The counters
    are read once for each of the configured performance events.
  */
  ghost predicate Chain(cfg: Config, states: seq<Machine>, events: seq<Event>)
  {
    && |states| == |events| + 1
    && (exists capacity: nat :: states[0] == Init(cfg, capacity))
    && (forall i :: 0 <= i < |events| ==> Follows(cfg, states[i], events[i], states[i + 1]))
  }

  ghost predicate Follows(cfg: Config, m: Machine, e: Event, next: Machine)
  {
    |e.counters| == cfg.events && InBounds(m.core) && next == Step(cfg, m, e)
  }

  /** The states any run can get into. */
  ghost predicate Reachable(cfg: Config, m: Machine)
  {
    exists states, events :: Chain(cfg, states, events) && states[|events|] == m
  }

  lemma InitIsReachable(cfg: Config, capacity: nat)
    ensures Reachable(cfg, Init(cfg, capacity))
  {
    assert Chain(cfg, [Init(cfg, capacity)], []);
  }

  lemma StepIsReachable(cfg: Config, m: Machine, e: Event)
    requires Reachable(cfg, m) && |e.counters| == cfg.events && InBounds(m.core)
    ensures Reachable(cfg, Step(cfg, m, e))
  {
    hide Step, Init;
    var states, events :| Chain(cfg, states, events) && states[|events|] == m;
    var states', events' := states + [Step(cfg, m, e)], events + [e];
    forall i | 0 <= i < |events'| ensures Follows(cfg, states'[i], events'[i], states'[i + 1]) {
      if i < |events| { assert Follows(cfg, states[i], events[i], states[i + 1]); }
    }
    assert states'[0] == states[0];
    assert Chain(cfg, states', events') && states'[|events'|] == Step(cfg, m, e);
  }

  lemma {:induction false} ChainInBounds(cfg: Config, states: seq<Machine>, events: seq<Event>, i: nat)
    requires Chain(cfg, states, events) && i < |states|
    ensures InBounds(states[i].core)
  {
    hide Step;
    if i > 0 { assert Follows(cfg, states[i - 1], events[i - 1], states[i]); }
  }

  /** Whether the step keeps the same candidate: a counter rerun, or anything before the search proper. */
  predicate Reruns(cfg: Config, m: Machine, e: Event)
  {
    m.measuringUd ||
    (!(FetchFault(cfg, e) && m.core.length < CAPACITY) && e.exception == INVALID_OPCODE && e.counters != m.lastCounters)
  }

  /** Whether the step ends with a classification. */
  predicate Classifies(cfg: Config, m: Machine, e: Event)
  {
    !Reruns(cfg, m, e) && !(FetchFault(cfg, e) && m.core.length < CAPACITY)
  }
}
