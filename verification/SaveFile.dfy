/** The writers of src/save_file.c:129-240 over a file whose writes may fail. */
module SaveFile {
  import opened Bytes
  import opened Wrappers
  import opened SaveFormat

  /** A file on a medium with room for so many more bytes; the write that does not fit fails. */
  datatype Disk = Disk(contents: seq<byte>, room: nat)

  predicate Fits(d: Disk, data: seq<byte>) { |data| <= d.room }

  /** A failing write may have stored the part of its data that still fitted. */
  function Put(d: Disk, data: seq<byte>): Disk
  {
    if Fits(d, data) then Disk(d.contents + data, d.room - |data|)
    else Disk(d.contents + data[..d.room], 0)
  }

  /** Writing in two pieces, or stopping after a first piece that failed, stores what one write would. */
  lemma PutInPieces(d: Disk, a: seq<byte>, b: seq<byte>)
    ensures Fits(d, a) ==> Put(Put(d, a), b) == Put(d, a + b) && (Fits(Put(d, a), b) <==> Fits(d, a + b))
    ensures !Fits(d, a) ==> Put(d, a) == Put(d, a + b) && !Fits(d, a + b)
  {
    if !Fits(d, a) {
      assert (a + b)[..d.room] == a[..d.room];
    } else if !Fits(d, a + b) {
      assert (a + b)[..d.room] == a + b[..d.room - |a|];
      assert d.contents + (a + b)[..d.room] == d.contents + a + b[..d.room - |a|];
    } else {
      assert d.contents + (a + b) == d.contents + a + b;
    }
  }

  lemma PutNothing(d: Disk)
    ensures Put(d, []) == d && Fits(d, [])
  {
    assert d.contents + [] == d.contents;
  }

  /** Having come from `start` to `now`, writing `rest` completes the writing of `all`. */
  ghost predicate Remaining(start: Disk, all: seq<byte>, now: Disk, rest: seq<byte>)
  {
    Put(now, rest) == Put(start, all) && (Fits(now, rest) <==> Fits(start, all))
  }

  lemma WriteNext(start: Disk, all: seq<byte>, now: Disk, piece: seq<byte>, rest: seq<byte>)
    requires Remaining(start, all, now, piece + rest)
    ensures Fits(now, piece) ==> Remaining(start, all, Put(now, piece), rest)
    ensures !Fits(now, piece) ==> Put(now, piece) == Put(start, all) && !Fits(start, all)
  {
    PutInPieces(now, piece, rest);
  }

  /** EXCEPTIONS_WITH_ERROR_CODE_MASK of src/exception_context.h:47. */
  const EXCEPTIONS_WITH_ERROR_CODE: bv64 := 0x227d00

  /** The guard at src/save_file.c:189, as written: it masks the exception number cast to a byte. */
  predicate ErrorCodeGuard(exceptionByte: byte)
  {
    ((exceptionByte as bv8) as bv64) & EXCEPTIONS_WITH_ERROR_CODE != 0
  }

  function EncodeErrorCode(exceptionByte: byte, errorCode: u64): seq<byte>
  {
    var code := EncodeInt(errorCode);
    if ErrorCodeGuard(exceptionByte) then code else []
  }

  /** What the writer emits for a record and the error code the processor pushed. */
  function EncodeWithErrorCode(r: Record, errorCode: u64): seq<byte>
  {
    var header := HeaderByte(r.exception, r.extra.Some?);
    [header] + (EncodeErrorCode(header, errorCode) + (EncodeExtra(r.extra) + EncodeTail(r)))
  }

  /** All bits of the mask lie above a byte, so no error code is ever written: it is lost. */
  lemma ErrorCodeIsNeverWritten(r: Record, errorCode: u64)
    ensures EncodeWithErrorCode(r, errorCode) == EncodeRecord(r)
  {
    GuardNeverHolds(HeaderByte(r.exception, r.extra.Some?) as bv8);
  }

  lemma GuardNeverHolds(b: bv8)
    ensures (b as bv64) & EXCEPTIONS_WITH_ERROR_CODE == 0
  {
  }

  /** The guard in the form of src/instruction_execution_loop.c:755: it shifts a bit to the exception number. */
  predicate IntendedGuard(exception: u64)
  {
    exception < 64 && ((1 as bv64) << exception) & EXCEPTIONS_WITH_ERROR_CODE != 0
  }

  /** What the writer would emit under that guard. */
  function EncodeIntended(r: Record, errorCode: u64): seq<byte>
  {
    var code := if IntendedGuard(r.exception) then EncodeInt(errorCode) else [];
    [HeaderByte(r.exception, r.extra.Some?)] + (code + (EncodeExtra(r.extra) + EncodeTail(r)))
  }

  /** The exceptions that push an error code: #DF, #TS, #NP, #SS, #GP, #PF, #AC and #CP. */
  lemma ExceptionsWithErrorCode(exception: u64)
    ensures IntendedGuard(exception) <==> exception in {8, 10, 11, 12, 13, 14, 17, 21}
  {
    if exception < 64 {
      MaskedShift(exception as bv64);
    }
  }

  lemma MaskedShift(n: bv64)
    requires n < 64
    ensures ((1 as bv64) << n) & EXCEPTIONS_WITH_ERROR_CODE != 0 <==>
            n == 8 || n == 10 || n == 11 || n == 12 || n == 13 || n == 14 || n == 17 || n == 21
  {
  }

  /** The writer emits what it should just for the exceptions that push no error code. */
  lemma IntendedJustWithoutErrorCode(r: Record, errorCode: u64)
    ensures EncodeWithErrorCode(r, errorCode) == EncodeIntended(r, errorCode) <==>
            r.exception !in {8, 10, 11, 12, 13, 14, 17, 21}
  {
    hide EncodeInt, EncodeExtra, EncodeTail, IntendedGuard, ErrorCodeGuard;
    ErrorCodeIsNeverWritten(r, errorCode);
    ExceptionsWithErrorCode(r.exception);
  }

  /** A page fault's error code, always pushed, is missing from the file. */
  lemma PageFaultLosesItsErrorCode(r: Record, errorCode: u64)
    requires r.exception == 14
    ensures |EncodeWithErrorCode(r, errorCode)| < |EncodeIntended(r, errorCode)|
  {
    hide EncodeInt, EncodeExtra, EncodeTail, IntendedGuard, ErrorCodeGuard;
    ErrorCodeIsNeverWritten(r, errorCode);
    ExceptionsWithErrorCode(r.exception);
  }

  /** Taking the low seven bits off what is left to encode leaves the same code. */
  lemma ShiftOut(done: seq<byte>, rest: nat)
    requires rest >= 128
    ensures done + [128 + rest % 128] + EncodeInt(rest / 128) == done + EncodeInt(rest)
  {
  }

  lemma ShiftLast(done: seq<byte>, rest: nat)
    requires rest < 128
    ensures done + [rest] == done + EncodeInt(rest)
  {
  }

  class OutputFile {
    var contents: seq<byte>
    var room: nat

    constructor (capacity: nat)
      ensures View() == Disk([], capacity)
    {
      contents, room := [], capacity;
    }

    function View(): Disk
      reads this
    {
      Disk(contents, room)
    }

    method SaveData(data: seq<byte>) returns (ok: bool)
      modifies this
      ensures View() == Put(old(View()), data)
      ensures ok <==> Fits(old(View()), data)
    {
      ok := |data| <= room;
      if ok {
        contents, room := contents + data, room - |data|;
      } else {
        contents, room := contents + data[..room], 0;
      }
    }

    /** The code is shifted out byte by byte into a buffer of ten, then written at once. */
    method SaveUint64(value: u64) returns (ok: bool)
      modifies this
      ensures View() == Put(old(View()), EncodeInt(value))
      ensures ok <==> Fits(old(View()), EncodeInt(value))
    {
      hide Put, Fits, EncodeInt;
      var outValue := new byte[10](_ => 0);
      var size, rest := 0, value;
      WordFitsBuffer(value);
      while rest >= 128
        invariant size <= 10 && 0 <= rest && View() == old(View())
        invariant outValue[..size] + EncodeInt(rest) == EncodeInt(value)
        decreases rest
      {
        ghost var done := outValue[..size];
        var low, high := rest % 128, rest / 128;
        ShiftOut(done, rest);
        assert |done + EncodeInt(rest)| <= 10;
        outValue[size] := 128 + low;
        assert outValue[..size + 1] == done + [128 + low];
        size, rest := size + 1, high;
      }
      ShiftLast(outValue[..size], rest);
      assert |outValue[..size] + EncodeInt(rest)| <= 10;
      outValue[size] := rest;
      size := size + 1;
      assert outValue[..size] == EncodeInt(value);
      ok := SaveData(outValue[..size]);
    }

    method SaveUint64Array(values: seq<u64>) returns (ok: bool)
      modifies this
      ensures View() == Put(old(View()), EncodeInts(values))
      ensures ok <==> Fits(old(View()), EncodeInts(values))
    {
      hide Put, Fits, EncodeInt, EncodeInts;
      PutNothing(View());
      assert EncodeInts(values[..0]) == [] by { EncodeNoInts(); }
      for i := 0 to |values|
        invariant View() == Put(old(View()), EncodeInts(values[..i]))
        invariant Fits(old(View()), EncodeInts(values[..i]))
      {
        ghost var done, tail := values[..i], values[i + 1..];
        assert values[..i + 1] == done + [values[i]] && values == values[..i + 1] + tail;
        EncodeIntsAppend(done, values[i]);
        EncodeIntsConcat(values[..i + 1], tail);
        PutInPieces(old(View()), EncodeInts(done), EncodeInt(values[i]));
        PutInPieces(old(View()), EncodeInts(values[..i + 1]), EncodeInts(tail));
        ok := SaveUint64(values[i]);
        if !ok {
          return;
        }
      }
      assert values[..|values|] == values;
      ok := true;
    }

    /** Whatever write fails, the file has grown by a beginning of the record. */
    method SaveInstructionData(exception: u64, errorCode: u64, kind: InstructionType, bytes: Instruction,
                               extra: Option<u64>, counters: seq<u64>) returns (ok: bool)
      modifies this
      ensures var data := EncodeWithErrorCode(Record(exception, extra, counters, kind, bytes), errorCode);
              View() == Put(old(View()), data) && (ok <==> Fits(old(View()), data))
    {
      hide Put, Fits, Remaining, EncodeInts, EncodeInt, ErrorCodeGuard;
      var header: byte := exception % 256;
      if extra.Some? {
        header := header % 128 + 128;
      }
      var lengthByte := LengthByte(|bytes|, kind);
      ghost var start := View();
      ghost var body := [lengthByte] + bytes;
      ghost var tail := EncodeInts(counters) + body;
      ghost var code := EncodeErrorCode(header, errorCode);
      ghost var all := [header] + (code + (EncodeExtra(extra) + tail));
      assert all == EncodeWithErrorCode(Record(exception, extra, counters, kind, bytes), errorCode);
      WriteAllOf(start, all);

      WriteNext(start, all, View(), [header], code + (EncodeExtra(extra) + tail));
      ok := SaveData([header]);
      if !ok { return; }

      if ErrorCodeGuard(header) {
        WriteNext(start, all, View(), code, EncodeExtra(extra) + tail);
        ok := SaveUint64(errorCode);
        if !ok { return; }
      } else {
        assert code + (EncodeExtra(extra) + tail) == EncodeExtra(extra) + tail;
      }

      if extra.Some? {
        WriteNext(start, all, View(), EncodeExtra(extra), tail);
        ok := SaveUint64(extra.value);
        if !ok { return; }
      } else {
        assert EncodeExtra(extra) + tail == tail;
      }

      WriteNext(start, all, View(), EncodeInts(counters), body);
      ok := SaveUint64Array(counters);
      if !ok { return; }

      WriteNext(start, all, View(), [lengthByte], bytes);
      ok := SaveData([lengthByte]);
      if !ok { return; }

      WriteLast(start, all, View(), bytes);
      ok := SaveData(bytes);
    }
  }

  lemma WriteAllOf(d: Disk, all: seq<byte>)
    ensures Remaining(d, all, d, all)
  {
  }

  lemma WriteLast(start: Disk, all: seq<byte>, now: Disk, last: seq<byte>)
    requires Remaining(start, all, now, last)
    ensures Put(now, last) == Put(start, all) && (Fits(now, last) <==> Fits(start, all))
  {
  }

  lemma EncodeNoInts()
    ensures EncodeInts([]) == []
  {
  }

  lemma {:induction false} EncodeIntsConcat(a: seq<u64>, b: seq<u64>)
    ensures EncodeInts(a + b) == EncodeInts(a) + EncodeInts(b)
  {
    if a == [] {
      assert a + b == b;
    } else {
      assert (a + b)[1..] == a[1..] + b;
      EncodeIntsConcat(a[1..], b);
    }
  }
}
