# Verification of the PMC bruteforcer

A Dafny model of the instruction search of x86_pmc_instruction_bruteforce, of the page-table editor
and the save file it relies on, and of its text formatter, with proofs about all runs and all inputs.
`dafny verify dfyconfig.toml` checks everything.

## What is modelled

**The search** (`src/instruction_execution_loop.c`). Executing an instruction never returns; the next
thing that happens is an exception. So handling one exception is one step of a state machine
(`SearchMachine.Step`) over the 15-byte buffer, the current length, the byte pointer, the last length,
the counters, the statistics and the file. An `Event` carries what the processor and Intel XED
contribute: exception number and error code, CS, RIP and CR2, the performance counters, XED's length
(0 for unknown) and the machine-check banks. Theorems quantify over all sequences of events, so over
any processor, any XED and any counter noise. `CPU_MODE` and `MAX_PREFIXES` are parameters. Two history
variables record all executions (`trace`) and all classified ones (`log`). `Engine.SearchEngine` has
the source's globals as fields and its functions as methods, each proved to do what the state machine
says.

- `PrefixFilter`, `PrefixFilterProperties`: the prefix filter as a scanning method, proved to decide a
  declarative grammar; pruning; the prefix counter.
- `FilterGrammar`: the shape of the accepted strings and the counted bytes, written out and proved equal to
  what the filter and the counter decide.
- `Candidates`: the carry-and-raise loops, proved to find the least acceptable successor.
- `StepTable`: one step told from outside, with exception numbers, bits and addresses written out, and the
  next candidate as the least one that qualifies.
- `Coverage`, `ExactLength`, `Growth`, `Evidence`, `Conservation`, `Provenance`: the theorems over runs.

Masks of words that select from the low byte are stated on that byte as eight bits (`Bytes.IsLowByte`,
which every word has: `Bytes.LowByteExists`).

**The save file** (`src/save_file.c`). `SaveFormat` has the integer code, the record layout and the file
layout with decoders; `SaveFile` has the writers over a medium whose writes fail once it is full, at
any byte. A failing write may leave a part of its data behind.

**The page-table editor** (`src/remap.c`). `PageTables` has entries, tables, and the processor's walk;
`Remap` the specification of the call; `RemapProperties` and `RemapTheorems` the proofs; `RemapPage` the
loop itself over a memory that it updates. The tables must form a tree (no table shared), huge pages
must be aligned with the PAT bit clear, pages the allocator hands out must hold no table, and the physical
address must be page-aligned and below 2^52, outside which it would overlap the flags of the entry
(`EntryWords.LeafOnWords`). Tables are addressed physically, which is the firmware's identity mapping.
`EntryWords` relates the entry fields to the masks and sums on 64-bit words.

**The formatter** (`vsnprintf` in `src/print.c`). `Formatter` parses a format into directives, renders them
without a bound, and proves the bounded loop against that.

## Where the code and its documentation part

- The README of the repository (lines 20-24) lists three criteria for saving an instruction. The code
  saves all of those and more: `Conservation.SavedBeyondTheDocumented` gives the exact difference.
- `src/save_file.c:189` tests a byte against a mask whose bits all lie above a byte, so no error code is
  ever written: `SaveFile.ErrorCodeIsNeverWritten`. The file is what the guard of
  `src/instruction_execution_loop.c:755` would give exactly for the exceptions that push no error code:
  `SaveFile.IntendedJustWithoutErrorCode`.
- `src/instruction_execution_loop.c:712-732` clears the remembered counters only after a confirmed #UD. A
  candidate that does not raise #UD every time leaves them behind, and they then confirm the next
  candidate's first #UD: `Evidence.StaleCountersCanConfirm`. The counters also start as zeros, so a
  first execution that shows zeros is confirmed at once, where the README of the repository (line 18)
  promises two executions: `Evidence.ZeroCountersConfirmThemselves`. On any
  processor, `Evidence.UnconfirmedJustWhen` says exactly when a counted candidate was not confirmed, from
  what the execution before it was. With a deterministic exception kind only zeros escape:
  `Evidence.HiddenBehindUdIsMeasuredTwice`.
- `src/instruction_execution_loop.c:366` guards a look-ahead with a condition that is always true. The
  filter keeps the look-ahead inside the buffer all the same, in every mode and for every limit:
  `Coverage.ReachableCountIsBounded`. Counts reach `MAX_PREFIXES` + 2 as long as that many different
  prefixes exist, and never more than ten: `PrefixFilterProperties.BoundIsReached`.
- `src/instruction_execution_loop.c:214-224` lets a candidate grow without asking the filter again, so the
  search executes and classifies some instructions that its own filter rejects at their length. They are
  exactly those with an EVEX or VEX prefix whose last checked payload byte came with the growing:
  `Growth.ClassifiedThoughRejected`. A run that does so exists exactly when `MAX_PREFIXES` is not 0:
  `Growth.SomeRunClassifiesRejected`.
- `src/remap.c:106` does not notice NX on an entry that has every bit asked for, when EXEC is asked for.
  The page is then not executable: `RemapTheorems.RemapTarget` says exactly when, `ExecutableInVain` gives
  tables where it happens, and `StartupAlias` and `StartupAliasInVain` do so for the calls at start-up.
- `src/remap.c:82-85` returns with CR0.WP cleared when an allocation fails. That is exactly when the
  allocator does not grant each table missing on the way to the page, a number known before the call:
  `RemapPage.PageTableEditor.RemapPage` and `RemapProperties.RemapSucceedsWhen`.

## Model

| member | source | states |
|---|---|---|
| Coverage.WholeRunCoverage | src/instruction_execution_loop.c:939-971 | When the search is done, every 15-byte string is rejected by the filter, begins with a classified instruction, or shares the bytes up to the pointer with a classified candidate that repeated the last length and whose pointer byte was no counted prefix |
| StepTable.NextIsLeastSuccessor | src/instruction_execution_loop.c:939-971 | In any run, after a classification the search goes on with the least accepted string above all that begin like the candidate up to its last byte, or up to the byte pointed to if the length repeats and that byte is no prefix; it is done exactly when there is none |
| StepTable.GrowsJustWhen | src/instruction_execution_loop.c:760-769 | A candidate grows by one byte, all else unchanged, exactly on exception 14 with error code bit 4 and both low bits of CS set, CR2 at the page end, RIP elsewhere, and a length below 15 |
| StepTable.RerunsJustWhen | src/instruction_execution_loop.c:712-732 | A candidate is executed again, the counters remembered, exactly on exception 6 with other counters than the remembered ones |
| StepTable.BaselineJustWhen | src/instruction_execution_loop.c:578-632 | While UD2 is measured another exception ends the search, other counters are measured again, the same ones are saved as the baseline |
| StepTable.ExecutesTheCandidate | src/instruction_execution_loop.c:982-1009 | What a step executes: 0F 0B while measuring, then the buffer up to the length |
| Provenance.RecordsWereExecuted | src/instruction_execution_loop.c:892-914 | Every record of a run has the bytes, exception, counters and extra value of an execution of that run, and the type that this execution gives |
| Coverage.ReachableCandidatesAreSound | src/instruction_execution_loop.c:214-224 | In every reachable running state the pointer is below the length, the length at most 15, all bytes after the pointer zero, and the filter accepts the bytes up to the pointer |
| Coverage.AdvanceShape | src/instruction_execution_loop.c:956-971 | An advance leaves a length of pointer plus one, an accepted candidate, the malformed flag of that candidate, and a larger buffer value |
| Coverage.ReachableCountIsBounded | src/instruction_execution_loop.c:360-385 | In every reachable state, in every mode and for every limit, at most `MAX_PREFIXES` + 2 and at most ten prefixes are counted, and the count does not depend on memory after the buffer |
| Coverage.ClassifiedInOrder | src/instruction_execution_loop.c:919-971 | Classified instructions padded with zeros come in strictly increasing order |
| Coverage.StepMakesProgress | src/instruction_execution_loop.c:216-223 | Every step raises the buffer value or, for the same value, the length, except a rerun, which keeps the candidate |
| Coverage.SearchTerminates | src/instruction_execution_loop.c:939-971 | In any run all but fewer than 16 * 256^15 steps are reruns |
| Coverage.ShippedLimitNeverExpectsUd | src/instruction_execution_loop.c:387-388 | With `MAX_PREFIXES` of 1 no reachable candidate is expected to raise #UD for a malformed VEX prefix |
| ExactLength.TrackedLengthIsExact | src/instruction_execution_loop.c:760-769 | If fetch faults mean incomplete instructions, at every classification all shorter beginnings are incomplete and the whole is complete or 15 bytes long |
| ExactLength.NoInstructionIsPrefixOfAnother | src/instruction_execution_loop.c:939-971 | On such a processor no classified instruction is a prefix of another |
| ExactLength.EveryInstructionIsAccountedFor | src/instruction_execution_loop.c:939-971 | On such a processor, when done, each 15-byte string is rejected, or exactly the instruction it decodes to was classified, or it was tunnelled over |
| Growth.ClassifiedThoughRejected | src/instruction_execution_loop.c:214-224 | In any run, a classified instruction is one the filter rejects at its length exactly when it grew past its pointer to the end of the payload of an EVEX or VEX prefix |
| Growth.SomeRunClassifiesRejected | src/instruction_execution_loop.c:214-224 | Some run classifies an instruction its filter rejects exactly when `MAX_PREFIXES` is not 0, in every mode |
| Evidence.CountsJustWhen | src/instruction_execution_loop.c:826-834 | A step counts its candidate as hidden behind #UD exactly when the search has a baseline, #UD is raised with the remembered counters, these are not the baseline, and XED does not know the bytes |
| Evidence.UnconfirmedJustWhen | src/instruction_execution_loop.c:712-732 | On any processor, a count on nonzero counters lacks the confirming execution exactly when the execution before raised no #UD, and a count on zero counters exactly when the execution before was not a #UD of the same candidate |
| Evidence.HiddenBehindUdIsMeasuredTwice | src/instruction_execution_loop.c:826-834 | With a deterministic exception kind, a candidate counts as hidden behind #UD only if XED does not know it, its counters differ from the baseline, and, unless they are zero, the execution just before was the same candidate raising #UD with the same counters |
| Evidence.BaselineIsMeasuredTwice | src/instruction_execution_loop.c:598-613 | The UD2 baseline is zero or was shown by two consecutive UD2 executions, and never changes afterwards |
| Evidence.StaleCountersCanConfirm | src/instruction_execution_loop.c:712-732 | A run in which nonzero counters of one candidate confirm another |
| Evidence.ZeroCountersConfirmThemselves | src/instruction_execution_loop.c:712-732 | A run in which a single execution with zero counters counts as confirmed |
| Conservation.StatisticsAreConserved | src/instruction_execution_loop.c:857-919 | Each type's counter is the number of its records, they sum to the saved count, which never exceeds the executed count; after a failed write the sum is one more exactly when a record failed |
| Conservation.SavedFileDecodes | src/instruction_execution_loop.c:892-914 | In every reachable state the file decodes to the baseline and one record per interesting classification; after a failed write, to all records completed before |
| Conservation.SavedInOrder | src/instruction_execution_loop.c:892-916 | Saved instructions padded with zeros are in strictly increasing order |
| Conservation.ClassificationTable | src/instruction_execution_loop.c:758-855 | For each type, exactly when a candidate gets it, by exception number, XED's length, CS and error code bits |
| Conservation.ExtraTable | src/instruction_execution_loop.c:806-852 | The extra value is the last valid bank for exception 18, CR2 for exception 14 with error code bit 2 clear, and none otherwise |
| Conservation.SavedJustWhenInteresting | src/instruction_execution_loop.c:857-857 | The exact condition for a candidate to be saved |
| Conservation.SavedBeyondTheDocumented | README.md:20-24 | Every documented criterion leads to saving, and exactly what is saved besides |
| Conservation.ShippedLimitCountsNoMalformedVex | src/instruction_execution_loop.c:788-791 | With `MAX_PREFIXES` of 1 the malformed-VEX statistic stays zero in every run |
| Candidates.NextCandidateIsLeast | src/instruction_execution_loop.c:942-971 | No string that the filter accepts and that lies above the start is passed over by the advance |
| Candidates.NextCandidateShape | src/instruction_execution_loop.c:942-971 | The advance first changes, and raises, the byte its pointer ends on, zeroes the rest, and ends on an accepted candidate or on all zeros |
| Candidates.AdvanceSkipsOnlyRejected | src/instruction_execution_loop.c:964-971 | Every 15-byte string the advance passes over is one the filter rejects |
| PrefixFilter.ContainsInvalidCountOfPrefixes | src/instruction_execution_loop.c:389-567 | The scan returns true exactly for strings the grammar rejects (repeated group, legacy prefix after REX, prefix at or past the limit, 66/F2/F3 before VEX, REX before C4, payload bits) and raises the malformed flag exactly for accepted VEX after LOCK, or C5 after REX |
| PrefixFilter.MaskReadings | src/instruction_execution_loop.c:326-372 | The masks on a prefix byte select exactly the values used in the grammar |
| PrefixFilter.PayloadMasks | src/instruction_execution_loop.c:515-558 | The masks on EVEX and VEX payload bytes are exactly what the filter asks of each |
| FilterGrammar.KindsListed | src/instruction_execution_loop.c:404-500 | Which byte values open which kind, in each mode |
| FilterGrammar.AcceptedJustInShape | src/instruction_execution_loop.c:389-567 | The filter accepts exactly the strings made of a run of different prefixes within the limit, REX last, and then nothing, an opcode, or EVEX or VEX with the payload and the prefixes it may have; the malformed flag is raised exactly for VEX after LOCK, or C5 after REX; the run is unique |
| FilterGrammar.EvexPayload | src/instruction_execution_loop.c:515-533 | In 64-bit mode a four-byte EVEX string is rejected exactly when one of the three masks fails |
| FilterGrammar.VexPayload | src/instruction_execution_loop.c:538-558 | So for C4 with two payload bytes and C5 with one |
| FilterGrammar.CountIsListed | src/instruction_execution_loop.c:323-385 | The count is the number of leading listed prefix bytes, ended by C4 or C5, with the byte values and the look-ahead for 62 written out |
| FilterGrammar.OneByteCounts | src/instruction_execution_loop.c:323-358 | Which bytes count as a prefix on their own, in each mode |
| PrefixFilterProperties.PruningIsSound | src/instruction_execution_loop.c:404-566 | A string rejected at one length is rejected at every longer length however it continues, for every mode and limit |
| PrefixFilterProperties.FilterReadsOnlyLength | src/instruction_execution_loop.c:389-567 | The verdict depends on the bytes inside the length only |
| PrefixFilterProperties.FilterBoundsTheCount | src/instruction_execution_loop.c:360-385 | A candidate accepted up to its pointer and zero after it counts, at any length, at most two prefixes more than the limit or, if that is less, than one more than there are kinds of prefix |
| PrefixFilterProperties.RejectedAfterGrowth | src/instruction_execution_loop.c:504-562 | A candidate accepted up to its pointer is rejected at a greater length exactly when that length reaches the last checked payload byte of an EVEX or VEX prefix and the pointer does not |
| PrefixFilterProperties.BoundIsReached | src/instruction_execution_loop.c:508-513 | In every mode and for every limit of at least 1 that bound is reached, by a 15-byte buffer of distinct prefixes, an EVEX byte and two payload bytes not checked yet |
| PrefixFilterProperties.MalformedNeedsTwoPrefixes | src/instruction_execution_loop.c:481-482 | Some accepted candidate is expected to raise #UD exactly when `MAX_PREFIXES` is at least 2 |
| PrefixFilterProperties.CountPrefixes | src/instruction_execution_loop.c:360-385 | The loop counts the run of prefixes that a VEX prefix closes |
| PrefixFilterProperties.PrefixCountIsUnique | src/instruction_execution_loop.c:360-385 | That description fixes the count |
| PrefixFilterProperties.CountIgnoresBeyond | src/instruction_execution_loop.c:366-366 | A count that ends short of the buffer's end does not depend on the byte after it |
| Engine.SearchEngine.HandleException | src/instruction_execution_loop.c:982-1009 | One exception does exactly one step of the state machine |
| Engine.SearchEngine.CheckLastInstruction | src/instruction_execution_loop.c:753-972 | Growing, rerunning or concluding a candidate as the machine does |
| Engine.SearchEngine.ConcludeInstruction | src/instruction_execution_loop.c:857-971 | Counting, saving and advancing, with the whole new state |
| Engine.SearchEngine.CheckUd2Measurements | src/instruction_execution_loop.c:578-632 | The baseline measurement, its repetition and its failure cases |
| Engine.SearchEngine.AdvanceCandidate | src/instruction_execution_loop.c:939-963 | The choice between the last byte and the byte pointed to, then the next candidate |
| Engine.SearchEngine.SeekCandidate | src/instruction_execution_loop.c:942-971 | The two loops and the goto between them find what `Candidates.NextCandidate` says, and leave the malformed flag as the filter last set it |
| Engine.SearchEngine.RestartOnUnstableCountersValues | src/instruction_execution_loop.c:712-732 | Reruns exactly when the counters differ from the last ones, and stores them, or zeros when confirmed |
| Engine.SearchEngine.ClassifyException | src/instruction_execution_loop.c:804-855 | The type and extra information after looking at the exception |
| Engine.SearchEngine.FindType | src/instruction_execution_loop.c:758-802 | The type found before looking at the exception |
| Engine.SearchEngine.IncrementInstructionLengthAndRetryExec | src/instruction_execution_loop.c:214-224 | The length grows by one exactly below 15 |
| Engine.SearchEngine.PerfCountersValuesMatch | src/instruction_execution_loop.c:734-747 | True exactly for equal counters |
| Engine.SearchEngine.CollectMachineCheck | src/instruction_execution_loop.c:843-852 | The loop over the banks reports what `SearchMachine.LastValidBank` describes |
| SearchMachine.LastValidBankIs | src/instruction_execution_loop.c:843-852 | The bank reported is the last valid one, and 0 if none is valid |
| SearchMachine.BankValidOnWords | src/instruction_execution_loop.c:843-852 | A bank is valid exactly when bit 63 of its status is set |
| SaveFormat.IntRoundTrip | src/save_file.c:134-148 | Decoding an encoded integer followed by anything returns the integer and what follows |
| SaveFormat.IntIsShortest | src/save_file.c:134-148 | No byte string decoding to a value is shorter than its code, and only the code is as short (unsigned LEB128, section 7.6 of DWARF Version 5) |
| SaveFormat.IntExamples | src/save_file.c:134-148 | The examples of section 7.6 of DWARF Version 5 |
| SaveFormat.IntLength | src/save_file.c:136-136 | `n` bytes suffice exactly for values below 128^n |
| SaveFormat.WordFitsBuffer | src/save_file.c:136-136 | No 64-bit value needs more than the ten bytes of the buffer |
| SaveFormat.IntIsPrefixFree | src/save_file.c:134-148 | No proper beginning of a code decodes |
| SaveFormat.IntsRoundTrip | src/save_file.c:150-161 | An array decodes to its values, whatever follows |
| SaveFormat.RecordRoundTrip | src/save_file.c:164-240 | A record decodes to every field written, whatever follows, exactly when its exception number is below 128 |
| SaveFormat.RecordLayout | src/save_file.c:164-240 | Where each field stands in a record, with the bit before an extra value and the number of each type |
| SaveFormat.RecordIsPrefixFree | src/save_file.c:164-240 | No cut-off record decodes as one |
| SaveFormat.FileRoundTrip | src/save_file.c:150-240 | A file decodes to its baseline and all its records, also when a last record is cut off anywhere |
| SaveFormat.FileIsInjective | src/save_file.c:150-240 | Different baselines or records give different files |
| SaveFile.ErrorCodeIsNeverWritten | src/save_file.c:189-198 | What is written does not depend on the error code |
| SaveFile.IntendedJustWithoutErrorCode | src/save_file.c:189-198 | It is what the guard on the shifted bit would write exactly for exceptions other than 8, 10 to 14, 17 and 21 |
| SaveFile.ExceptionsWithErrorCode | src/exception_context.h:47-47 | The mask and the shifted bit select exactly these exceptions |
| SaveFile.PageFaultLosesItsErrorCode | src/save_file.c:189-198 | For exception 14 fewer bytes are written than that guard asks for |
| SaveFile.PutInPieces | src/save_file.c:129-132 | Writing in pieces until one fails stores what one write would |
| SaveFile.OutputFile.SaveUint64 | src/save_file.c:134-148 | The shifting loop writes the integer code, and succeeds exactly when it fits |
| SaveFile.OutputFile.SaveUint64Array | src/save_file.c:150-161 | The codes of all elements in order, up to a failure |
| SaveFile.OutputFile.SaveInstructionData | src/save_file.c:164-240 | The whole record, or a beginning of it when a write fails |
| RemapTheorems.RemapFrame | src/remap.c:69-117 | After success every page but the target, after failure every page, keeps its frame and its rights are not narrowed; the tables stay a tree |
| PageTables.WalkEndsInPage | src/remap.c:87-100 | The processor's walk: frame and offset of 4 KB, 2 MB and 1 GB pages (Intel SDM Vol. 3A, section 4.5) |
| RemapTheorems.RemapTarget | src/remap.c:49-117 | The target maps to the frame, writable and user exactly as asked, executable exactly when asked and no entry on the way keeps NX |
| RemapTheorems.RemapAgain | src/remap.c:69-117 | After success the same call changes nothing, and any call for that page allocates nothing |
| RemapTheorems.AliasedPages | src/main.c:158-172 | Mapping one page writable and then another executable to the same frame: both translate to it with exactly those rights, the second call leaving the first mapping alone, except that the second page is not executable exactly when an entry on its own part of the way led to a table and had NX and USER before both calls |
| RemapTheorems.StartupAlias | src/main.c:158-172 | The two start-up calls give a writable supervisor page and a read-only user alias of the same frame, executable exactly under that condition on the tables at the start, and always when both lie in one page table |
| RemapTheorems.ExecutableInVain | src/remap.c:106-106 | Tables in which a page mapped as executable is not |
| RemapTheorems.StartupAliasInVain | src/main.c:158-172 | Tables in which the start-up calls leave an alias that is not executable |
| RemapTheorems.EmptyRootNeedsTables | src/remap.c:79-85 | With an empty root table a call fails when no page is granted, and succeeds when three are |
| RemapTheorems.AdjacentPaths | src/remap.c:51-57 | Adjacent pages differ in the last index, and in no other unless the first ends its table |
| RemapTheorems.PathAddressesPage | src/remap.c:51-57 | The indices of an address, read in base 512, are its page number within 48 or 57 bits |
| RemapTheorems.SamePathSamePage | src/remap.c:51-57 | Two addresses have the same indices exactly when they lie in the same page |
| RemapTheorems.RemapOneAddress | src/remap.c:42-125 | After success every address of the page asked for translates to the frame with the rights asked for, the NX corner aside, and every other address as before with rights not narrowed |
| RemapProperties.RemapKeeps | src/remap.c:69-117 | The frame property from any table on the way |
| RemapProperties.RemapHits | src/remap.c:69-117 | The target property from any table on the way |
| RemapProperties.RemapSettles | src/remap.c:69-117 | A success leaves nothing to change on the way |
| RemapProperties.RemapSucceedsWhen | src/remap.c:79-85 | A call succeeds exactly when the allocator grants as many pages as tables are missing on the way, and then takes exactly those |
| RemapProperties.BlockedAfterData | src/remap.c:106-111 | After a call without EXEC, the way to another page keeps an unnoticed NX exactly when it had one beyond where the two ways part |
| RemapProperties.SplitKeepsTranslation | src/remap.c:87-100 | Splitting a huge page keeps all translations inside it exactly when its base is aligned |
| RemapPage.PageTableEditor.RemapPage | src/remap.c:42-125 | The loop does what the specification says; it succeeds, and restores CR0.WP, exactly when every table missing on the way is granted |
| RemapPage.PageTableEditor.SplitPage | src/remap.c:87-100 | The loop fills a table with the 512 entries of the split page |
| RemapPage.PageTableEditor.AllocateZeroedPage | src/remap.c:15-24 | A page of empty entries, or failure with memory unchanged |
| EntryWords.TestOnWords | src/remap.c:106-106 | The masked comparison of words is the test on fields |
| EntryWords.FlagsOnWords | src/remap.c:77-111 | The bits of an entry by their masks, the test for a missing or huge entry, and the mask that leaves the address |
| EntryWords.PointerOnWords | src/remap.c:102-102 | The word that leads to a new page holds its address and allows everything |
| EntryWords.UpdateOnWords | src/remap.c:108-111 | The update of the word is the update of fields and keeps the address |
| EntryWords.SplitSmallOnWords | src/remap.c:93-99 | Adding multiples of 4K to an aligned 2 MB entry changes address bits only |
| EntryWords.SplitLargeOnWords | src/remap.c:93-99 | Adding multiples of 2 MB to an aligned 1 GB entry changes address bits only |
| EntryWords.LeafOnWords | src/remap.c:117-117 | The word written for the page holds the physical address exactly when that is page-aligned and below 2^52, and then has the flags asked for |
| Formatter.Vsnprintf | src/print.c:56-165 | The buffer holds the first units of the unbounded text that fit before a NUL, then the NUL, and is untouched after it |
| Formatter.HexParsesBack | src/print.c:130-147 | A hex field parses back to the argument modulo its width |
| Formatter.TextShown | src/print.c:84-97 | `%s` and `%S` show a text up to its NUL |
| Formatter.WordShown | src/print.c:108-147 | `%x` and `%X` show eight digits that parse back to the argument |
| Formatter.SizedShown | src/print.c:98-147 | `%hx` shows the two low digits and `%lx` all sixteen, in either case of the letters |
| Formatter.OthersShown | src/print.c:150-161 | Any other unit stands for itself, also after a percent sign |
| Formatter.PutArgument | src/print.c:84-149 | A text or hex field writes its argument, cut at the bound, and the rest of the format remains |
| Formatter.PutField | src/print.c:75-156 | A field writes its text, cut at the bound, and the rest of the format remains |
| Formatter.PutHex | src/print.c:130-147 | Digits from the first one down, cut at the bound |

## Left out

- Inline assembly, MSR and control-register access, `rdpmc`, cache flushing, `enter_user.S` and `exception_handlers.S`: hardware effects; their outcomes are model inputs.
- The choice of the stack frame layout from the exception number (`src/instruction_execution_loop.c:755-756`): an event carries the frame the processor pushed.
- Intel XED (`src/disasm.c`): its result is an input, different at every execution if need be.
- `print_init`, `dump_stats`, messages on the console, opening, flushing and closing the file, and UEFI protocols: input and output.
- `src/system_tables_setup.c`, `src/uarch_config.c`, `src/string.c` and the rest of `src/main.c`: constants and wrappers that would only add easy members.
- `COUNT_NOPS` and `COUNT_IDQ` builds: they repeat the UD2 measurement or only add counters.
- Wrap-around of the `size_t` statistics: they are unbounded here.
- A write that stores all its data and still reports failure: a failing write stores a proper part.
- RemapPage.PageTableEditor.RemapPage: memory is a map from frames to tables that the loop reassigns, so pages that are not tables, and the mapping of the tables themselves, are not part of it; an address sum past bit 51 is not modelled.
- TLB and cache behaviour, and speculation: not decided by this code.
