/**
  The save-file format (src/save_file.c:129-240): an integer code, a packed record, and the
  file as a UD2 baseline followed by records. The decoders are this project's own.
*/
module SaveFormat {
  import opened Bytes
  import opened Wrappers

  // ----- the integer code -----

  function EncodeInt(v: nat): (s: seq<byte>)
    ensures s != []
  {
    if v < 128 then [v] else [128 + v % 128] + EncodeInt(v / 128)
  }

  /** Unsigned LEB128, section 7.6 of DWARF Version 5: the value and the unread rest. */
  function DecodeInt(s: seq<byte>): (r: Option<(nat, seq<byte>)>)
    ensures r.Some? ==> |r.value.1| < |s| && s[|s| - |r.value.1|..] == r.value.1
  {
    if s == [] then None
    else if s[0] < 128 then Some((s[0], s[1..]))
    else
      match DecodeInt(s[1..])
      case None => None
      case Some((v, rest)) => Some((v * 128 + (s[0] - 128), rest))
  }

  lemma {:induction false} IntRoundTrip(v: nat, rest: seq<byte>)
    ensures DecodeInt(EncodeInt(v) + rest) == Some((v, rest))
  {
    var s := EncodeInt(v) + rest;
    if v < 128 {
      assert s[1..] == rest;
    } else {
      assert s[1..] == EncodeInt(v / 128) + rest;
      IntRoundTrip(v / 128, rest);
    }
  }

  lemma {:induction false} IntIsPrefixFree(v: nat, k: nat)
    requires k < |EncodeInt(v)|
    ensures DecodeInt(EncodeInt(v)[..k]) == None
  {
    if v >= 128 && k > 0 {
      assert EncodeInt(v)[..k][1..] == EncodeInt(v / 128)[..k - 1];
      IntIsPrefixFree(v / 128, k - 1);
    }
  }

  /** No byte string that decodes to a value is shorter than the value's code, and only the code is as short. */
  lemma {:induction false} IntIsShortest(s: seq<byte>)
    requires DecodeInt(s).Some?
    ensures var (v, rest) := DecodeInt(s).value; var used := |s| - |rest|;
            && |EncodeInt(v)| <= used
            && (|EncodeInt(v)| == used <==> s[..used] == EncodeInt(v))
  {
    var (v, rest) := DecodeInt(s).value;
    if s[0] >= 128 {
      IntIsShortest(s[1..]);
      var (w, _) := DecodeInt(s[1..]).value;
      var used := |s| - |rest|;
      assert s[..used] == [s[0]] + s[1..][..used - 1];
      if v >= 128 {
        assert v / 128 == w && v % 128 == s[0] - 128;
        assert EncodeInt(v) == [s[0]] + EncodeInt(w);
      }
    }
  }

  ghost function Pow128(n: nat): nat { if n == 0 then 1 else 128 * Pow128(n - 1) }

  /** `n` bytes suffice exactly for the values below 128 to the power `n`. */
  lemma {:induction false} IntLength(v: nat, n: nat)
    requires n > 0
    ensures |EncodeInt(v)| <= n <==> v < Pow128(n)
  {
    if n == 1 {
      assert Pow128(1) == 128 * Pow128(0);
    } else if v >= 128 {
      IntLength(v / 128, n - 1);
      assert v / 128 < Pow128(n - 1) <==> v < 128 * Pow128(n - 1);
    } else {
      IntLength(v, n - 1);
    }
  }

  /** A 64-bit value never overruns the ten-byte buffer of src/save_file.c:136. */
  lemma WordFitsBuffer(v: u64)
    ensures |EncodeInt(v)| <= 10
  {
    IntLength(v, 10);
    assert Pow128(10) == 128 * 128 * 128 * 128 * 128 * Pow128(5);
    assert Pow128(5) == 128 * 128 * 128 * 128 * 128;
  }

  /** The examples of DWARF Version 5, section 7.6. */
  lemma IntExamples()
    ensures EncodeInt(2) == [2] && EncodeInt(127) == [127]
    ensures EncodeInt(128) == [0x80, 1] && EncodeInt(129) == [0x81, 1] && EncodeInt(12857) == [57 + 0x80, 100]
  {
    assert EncodeInt(100) == [100];
  }

  // ----- arrays of integers -----

  function EncodeInts(values: seq<u64>): seq<byte>
  {
    if values == [] then [] else EncodeInt(values[0]) + EncodeInts(values[1..])
  }

  function DecodeInts(n: nat, s: seq<byte>): (r: Option<(seq<nat>, seq<byte>)>)
    ensures r.Some? ==> |r.value.1| <= |s|
  {
    if n == 0 then Some(([], s))
    else
      match DecodeInt(s)
      case None => None
      case Some((v, rest)) =>
        match DecodeInts(n - 1, rest)
        case None => None
        case Some((vs, end)) => Some(([v] + vs, end))
  }

  lemma DecodeFirst(n: nat, s: seq<byte>, v: nat, tail: seq<byte>, values: seq<nat>, rest: seq<byte>)
    requires DecodeInt(s) == Some((v, tail)) && DecodeInts(n, tail) == Some((values, rest))
    ensures DecodeInts(n + 1, s) == Some(([v] + values, rest))
  {
    hide DecodeInt;
  }

  lemma {:induction false} IntsRoundTrip(values: seq<u64>, rest: seq<byte>)
    ensures DecodeInts(|values|, EncodeInts(values) + rest) == Some((values, rest))
  {
    hide EncodeInt, DecodeInt;
    if values == [] {
      assert EncodeInts(values) + rest == rest;
    } else {
      var tail := EncodeInts(values[1..]) + rest;
      assert EncodeInts(values) + rest == EncodeInt(values[0]) + tail;
      IntRoundTrip(values[0], tail);
      IntsRoundTrip(values[1..], rest);
      DecodeFirst(|values| - 1, EncodeInts(values) + rest, values[0], tail, values[1..], rest);
      assert values == [values[0]] + values[1..];
    }
  }

  lemma {:induction false} IntsArePrefixFree(values: seq<u64>, k: nat)
    requires k < |EncodeInts(values)|
    ensures DecodeInts(|values|, EncodeInts(values)[..k]) == None
  {
    hide EncodeInt, DecodeInt;
    var head, s := EncodeInt(values[0]), EncodeInts(values)[..k];
    if k < |head| {
      assert s == head[..k];
      IntIsPrefixFree(values[0], k);
    } else {
      assert s == head + EncodeInts(values[1..])[..k - |head|];
      IntRoundTrip(values[0], EncodeInts(values[1..])[..k - |head|]);
      IntsArePrefixFree(values[1..], k - |head|);
    }
  }

  lemma {:induction false} EncodeIntsAppend(values: seq<u64>, v: u64)
    ensures EncodeInts(values + [v]) == EncodeInts(values) + EncodeInt(v)
  {
    if values == [] {
      assert EncodeInts([v]) == EncodeInt(v) + EncodeInts([]);
    } else {
      assert (values + [v])[1..] == values[1..] + [v];
      EncodeIntsAppend(values[1..], v);
    }
  }

  // ----- records -----

  /** enum instruction_type of src/save_file.h:9-22, built without COUNT_NOPS. */
  datatype InstructionType =
    | NotInteresting | KernelException | KernelPageFault | MachineCheck
    | UndocumentedUd | UndocumentedNotUd | VexMalformedButAccepted | XedLengthMismatch

  function TypeCode(t: InstructionType): (c: nat)
    ensures c < 8
  {
    match t
    case NotInteresting => 0
    case KernelException => 1
    case KernelPageFault => 2
    case MachineCheck => 3
    case UndocumentedUd => 4
    case UndocumentedNotUd => 5
    case VexMalformedButAccepted => 6
    case XedLengthMismatch => 7
  }

  function TypeOfCode(c: nat): InstructionType
  {
    if c == 0 then NotInteresting else if c == 1 then KernelException
    else if c == 2 then KernelPageFault else if c == 3 then MachineCheck
    else if c == 4 then UndocumentedUd else if c == 5 then UndocumentedNotUd
    else if c == 6 then VexMalformedButAccepted else XedLengthMismatch
  }

  /** An instruction is at most 15 bytes long (src/save_file.c:218-222). */
  type Instruction = s: seq<byte> | |s| <= 15

  datatype Record = Record(exception: u64, extra: Option<u64>, counters: seq<u64>, kind: InstructionType,
      bytes: Instruction)

  /** The comment at src/save_file.c:174 relies on less than this of exception numbers. */
  predicate Valid(n: nat, r: Record) { |r.counters| == n && r.exception < 128 }

  ghost predicate AllValid(n: nat, rs: seq<Record>) { forall i :: 0 <= i < |rs| ==> Valid(n, rs[i]) }

  /** The exception number cast to a byte, with bit 7 raised when extra data follows. */
  function HeaderByte(exception: u64, flagged: bool): byte
  {
    if flagged then exception % 128 + 128 else exception % 256
  }

  function LengthByte(length: nat, kind: InstructionType): byte
    requires length <= 15
  {
    length + 16 * TypeCode(kind)
  }

  function EncodeExtra(extra: Option<u64>): seq<byte>
  {
    match extra case None => [] case Some(v) => EncodeInt(v)
  }

  function EncodeTail(r: Record): (s: seq<byte>)
    ensures s != []
  {
    EncodeInts(r.counters) + ([LengthByte(|r.bytes|, r.kind)] + r.bytes)
  }

  function EncodeRecord(r: Record): (s: seq<byte>)
    ensures s != []
  {
    [HeaderByte(r.exception, r.extra.Some?)] + (EncodeExtra(r.extra) + EncodeTail(r))
  }

  /**
    Where things stand in a record: the exception number in a byte with bit 7 raised before an extra
    value, the extra value, the counters, the length with the number of the type above it, the bytes.
  */
  lemma RecordLayout(r: Record)
    ensures var s, n := EncodeRecord(r), |r.bytes|;
            var at := |s| - n - 1;
            && at > 0 && s[at + 1..] == r.bytes
            && s[1..at] == (match r.extra case None => [] case Some(v) => EncodeInt(v)) + EncodeInts(r.counters)
            && s[0] == (if r.extra == None then r.exception % 0x100 else 0x80 + r.exception % 0x80)
            && s[at] == n + match r.kind
                            case NotInteresting => 0x00
                            case KernelException => 0x10
                            case KernelPageFault => 0x20
                            case MachineCheck => 0x30
                            case UndocumentedUd => 0x40
                            case UndocumentedNotUd => 0x50
                            case VexMalformedButAccepted => 0x60
                            case XedLengthMismatch => 0x70
  {
    hide EncodeInt, EncodeInts;
    var head, middle := [HeaderByte(r.exception, r.extra.Some?)], EncodeExtra(r.extra) + EncodeInts(r.counters);
    assert EncodeRecord(r) == head + (middle + ([LengthByte(|r.bytes|, r.kind)] + r.bytes));
  }

  /** What a reader recovers: values of any size, so that reading needs no range check. */
  datatype Reading = Reading(exception: nat, extra: Option<nat>, counters: seq<nat>, kind: InstructionType,
      bytes: seq<byte>)

  function Read(r: Record): Reading
  {
    Reading(r.exception, match r.extra { case None => None case Some(v) => Some(v) }, r.counters, r.kind, r.bytes)
  }

  function DecodeBody(s: seq<byte>): (r: Option<(InstructionType, seq<byte>, seq<byte>)>)
    ensures r.Some? ==> |r.value.2| < |s|
  {
    if s == [] || |s| - 1 < s[0] % 16 || s[0] >= 128 then None
    else Some((TypeOfCode(s[0] / 16), s[1..1 + s[0] % 16], s[1 + s[0] % 16..]))
  }

  function DecodeExtra(flagged: bool, s: seq<byte>): (r: Option<(Option<nat>, seq<byte>)>)
    ensures r.Some? ==> |r.value.1| <= |s|
  {
    if !flagged then Some((None, s))
    else match DecodeInt(s) case None => None case Some((v, rest)) => Some((Some(v), rest))
  }

  function DecodeTail(n: nat, s: seq<byte>, exception: nat, extra: Option<nat>): (r: Option<(Reading, seq<byte>)>)
    ensures r.Some? ==> |r.value.1| < |s| && r.value.0.exception == exception
  {
    match DecodeInts(n, s)
    case None => None
    case Some((counters, rest)) =>
      match DecodeBody(rest)
      case None => None
      case Some((kind, bytes, end)) => Some((Reading(exception, extra, counters, kind, bytes), end))
  }

  function DecodeRecord(n: nat, s: seq<byte>): (r: Option<(Reading, seq<byte>)>)
    ensures r.Some? ==> |r.value.1| < |s| && r.value.0.exception < 128
  {
    if s == [] then None
    else
      match DecodeExtra(s[0] >= 128, s[1..])
      case None => None
      case Some((extra, rest)) => DecodeTail(n, rest, s[0] % 128, extra)
  }

  lemma BodyRoundTrip(r: Record, rest: seq<byte>)
    ensures DecodeBody(([LengthByte(|r.bytes|, r.kind)] + r.bytes) + rest) == Some((r.kind, r.bytes, rest))
  {
    var s := ([LengthByte(|r.bytes|, r.kind)] + r.bytes) + rest;
    assert s[0] % 16 == |r.bytes| && s[0] / 16 == TypeCode(r.kind);
    assert s[1..1 + |r.bytes|] == r.bytes && s[1 + |r.bytes|..] == rest;
  }

  lemma TailRoundTrip(r: Record, rest: seq<byte>, extra: Option<nat>)
    ensures DecodeTail(|r.counters|, EncodeTail(r) + rest, r.exception, extra)
            == Some((Read(r).(extra := extra), rest))
  {
    hide EncodeInts, DecodeInts, DecodeBody;
    var body := [LengthByte(|r.bytes|, r.kind)] + r.bytes;
    assert EncodeTail(r) + rest == EncodeInts(r.counters) + (body + rest);
    IntsRoundTrip(r.counters, body + rest);
    BodyRoundTrip(r, rest);
  }

  lemma TailIsPrefixFree(r: Record, k: nat, exception: nat, extra: Option<nat>)
    requires k < |EncodeTail(r)|
    ensures DecodeTail(|r.counters|, EncodeTail(r)[..k], exception, extra) == None
  {
    hide EncodeInts, DecodeInts;
    var ints, body := EncodeInts(r.counters), [LengthByte(|r.bytes|, r.kind)] + r.bytes;
    if k < |ints| {
      assert EncodeTail(r)[..k] == ints[..k];
      IntsArePrefixFree(r.counters, k);
    } else {
      assert EncodeTail(r)[..k] == ints + body[..k - |ints|];
      IntsRoundTrip(r.counters, body[..k - |ints|]);
    }
  }

  lemma ExtraRoundTrip(extra: Option<u64>, rest: seq<byte>)
    ensures DecodeExtra(extra.Some?, EncodeExtra(extra) + rest)
            == Some((match extra { case None => None case Some(v) => Some(v) }, rest))
  {
    match extra
    case None => assert EncodeExtra(extra) + rest == rest;
    case Some(v) => IntRoundTrip(v, rest);
  }

  lemma ExtraIsPrefixFree(extra: Option<u64>, k: nat)
    requires k < |EncodeExtra(extra)|
    ensures DecodeExtra(extra.Some?, EncodeExtra(extra)[..k]) == None
  {
    IntIsPrefixFree(extra.value, k);
  }

  /** A record decodes to every field written, whatever follows it, just when its exception number fits seven bits. */
  lemma RecordRoundTrip(r: Record, rest: seq<byte>)
    ensures DecodeRecord(|r.counters|, EncodeRecord(r) + rest) == Some((Read(r), rest)) <==> r.exception < 128
  {
    hide EncodeTail, DecodeTail, EncodeExtra, DecodeExtra;
    if r.exception < 128 {
      var s := EncodeRecord(r) + rest;
      assert s[1..] == EncodeExtra(r.extra) + (EncodeTail(r) + rest);
      assert s[0] == HeaderByte(r.exception, r.extra.Some?);
      ExtraRoundTrip(r.extra, EncodeTail(r) + rest);
      TailRoundTrip(r, rest, Read(r).extra);
    }
  }

  /** No cut-off record decodes as a record. */
  lemma RecordIsPrefixFree(r: Record, k: nat)
    requires r.exception < 128 && k < |EncodeRecord(r)|
    ensures DecodeRecord(|r.counters|, EncodeRecord(r)[..k]) == None
  {
    hide EncodeTail, DecodeTail, DecodeExtra, EncodeInt, DecodeInt;
    if k > 0 {
      var extra, s := EncodeExtra(r.extra), EncodeRecord(r)[..k];
      assert s[0] == HeaderByte(r.exception, r.extra.Some?);
      if k - 1 < |extra| {
        assert s[1..] == extra[..k - 1];
        ExtraIsPrefixFree(r.extra, k - 1);
      } else {
        var cut := k - 1 - |extra|;
        assert s[1..] == extra + EncodeTail(r)[..cut];
        ExtraRoundTrip(r.extra, EncodeTail(r)[..cut]);
        TailIsPrefixFree(r, cut, s[0] % 128, Read(r).extra);
      }
    }
  }

  // ----- the file -----

  function EncodeRecords(rs: seq<Record>): seq<byte>
  {
    if rs == [] then [] else EncodeRecord(rs[0]) + EncodeRecords(rs[1..])
  }

  lemma {:induction false} EncodeRecordsAppend(rs: seq<Record>, r: Record)
    ensures EncodeRecords(rs + [r]) == EncodeRecords(rs) + EncodeRecord(r)
  {
    if rs == [] {
      assert EncodeRecords([r]) == EncodeRecord(r) + EncodeRecords([]);
    } else {
      assert (rs + [r])[1..] == rs[1..] + [r];
      EncodeRecordsAppend(rs[1..], r);
    }
  }

  function EncodeFile(baseline: seq<u64>, rs: seq<Record>): seq<byte>
  {
    EncodeInts(baseline) + EncodeRecords(rs)
  }

  /** All complete records from the front, and what is left over. */
  function DecodeRecords(n: nat, s: seq<byte>): (seq<Reading>, seq<byte>)
    decreases |s|
  {
    match DecodeRecord(n, s)
    case None => ([], s)
    case Some((r, rest)) =>
      var (rs, end) := DecodeRecords(n, rest);
      ([r] + rs, end)
  }

  function DecodeFile(n: nat, s: seq<byte>): Option<(seq<nat>, seq<Reading>, seq<byte>)>
  {
    match DecodeInts(n, s)
    case None => None
    case Some((baseline, rest)) =>
      var (rs, end) := DecodeRecords(n, rest);
      Some((baseline, rs, end))
  }

  function ReadAll(rs: seq<Record>): seq<Reading> { seq(|rs|, i requires 0 <= i < |rs| => Read(rs[i])) }

  lemma {:induction false} RecordsRoundTrip(n: nat, rs: seq<Record>, tail: seq<byte>)
    requires AllValid(n, rs)
    requires DecodeRecord(n, tail) == None
    ensures DecodeRecords(n, EncodeRecords(rs) + tail) == (ReadAll(rs), tail)
  {
    hide EncodeRecord, DecodeRecord;
    if rs == [] {
      assert EncodeRecords(rs) + tail == tail;
    } else {
      var rest := EncodeRecords(rs[1..]) + tail;
      assert EncodeRecords(rs) + tail == EncodeRecord(rs[0]) + rest;
      RecordRoundTrip(rs[0], rest);
      RecordsRoundTrip(n, rs[1..], tail);
      assert ReadAll(rs) == [Read(rs[0])] + ReadAll(rs[1..]);
    }
  }

  /** The beginning of a record that is not all there. */
  ghost predicate CutRecord(n: nat, tail: seq<byte>)
  {
    exists r: Record, k: nat :: Valid(n, r) && k < |EncodeRecord(r)| && tail == EncodeRecord(r)[..k]
  }

  /** A file decodes to its baseline and all its records, also when a last record was cut off at any point. */
  lemma FileRoundTrip(n: nat, baseline: seq<u64>, rs: seq<Record>, tail: seq<byte>)
    requires |baseline| == n && AllValid(n, rs)
    requires tail == [] || CutRecord(n, tail)
    ensures DecodeFile(n, EncodeFile(baseline, rs) + tail) == Some((baseline, ReadAll(rs), tail))
  {
    if tail != [] {
      var r: Record, k: nat :| Valid(n, r) && k < |EncodeRecord(r)| && tail == EncodeRecord(r)[..k];
      RecordIsPrefixFree(r, k);
    }
    assert EncodeFile(baseline, rs) + tail == EncodeInts(baseline) + (EncodeRecords(rs) + tail);
    IntsRoundTrip(baseline, EncodeRecords(rs) + tail);
    RecordsRoundTrip(n, rs, tail);
  }

  /** Different contents give different files. */
  lemma FileIsInjective(n: nat, b1: seq<u64>, rs1: seq<Record>, b2: seq<u64>, rs2: seq<Record>)
    requires |b1| == n == |b2| && AllValid(n, rs1) && AllValid(n, rs2)
    requires EncodeFile(b1, rs1) == EncodeFile(b2, rs2)
    ensures b1 == b2 && rs1 == rs2
  {
    FileRoundTrip(n, b1, rs1, []);
    FileRoundTrip(n, b2, rs2, []);
    assert EncodeFile(b1, rs1) + [] == EncodeFile(b1, rs1) && EncodeFile(b2, rs2) + [] == EncodeFile(b2, rs2);
    assert |rs1| == |ReadAll(rs1)| == |rs2|;
    forall i | 0 <= i < |rs1| ensures rs1[i] == rs2[i] {
      assert ReadAll(rs1)[i] == Read(rs1[i]) && ReadAll(rs2)[i] == Read(rs2[i]);
    }
  }
}
