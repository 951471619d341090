/** What the prefix filter guarantees the search: sound pruning, and a short prefix count. */
module PrefixFilterProperties {
  import opened Bytes
  import opened PrefixFilter

  // ----- pruning -----

  /** A byte that is no opcode inside a length keeps its kind when the string is extended. */
  lemma KindSurvivesExtension(mode: CpuMode, b: seq<byte>, length: nat, x: seq<byte>, longer: nat, i: nat)
    requires i < length <= |b| && length <= longer <= |x|
    requires Agree(b, x, length)
    requires KindAt(mode, b, length, i) != Opcode
    ensures KindAt(mode, x, longer, i) == KindAt(mode, b, length, i)
  {
  }

  lemma SeenSurvivesExtension(mode: CpuMode, b: seq<byte>, length: nat, x: seq<byte>, longer: nat, i: nat, k: Kind)
    requires i < length <= |b| && length <= longer <= |x|
    requires Agree(b, x, length)
    requires k != Opcode && Seen(mode, b, length, i, k)
    ensures Seen(mode, x, longer, i, k)
  {
    var j :| 0 <= j < i && KindAt(mode, b, length, j) == k;
    KindSurvivesExtension(mode, b, length, x, longer, j);
  }

  /** What the filter rejects at one length it rejects however the bytes are continued. */
  lemma PruningIsSound(cfg: FilterConfig, b: seq<byte>, length: nat, x: seq<byte>, longer: nat)
    requires length <= |b| && length <= longer <= |x|
    requires Agree(b, x, length)
    requires Rejected(cfg, b, length)
    ensures Rejected(cfg, x, longer)
  {
    var i :| 0 <= i < length && RejectedAt(cfg, b, length, i);
    forall j | 0 <= j < i ensures KindAt(cfg.mode, x, longer, j).Plain() {
      KindSurvivesExtension(cfg.mode, b, length, x, longer, j);
    }
    KindSurvivesExtension(cfg.mode, b, length, x, longer, i);
    forall k: Kind | k != Opcode && Seen(cfg.mode, b, length, i, k)
      ensures Seen(cfg.mode, x, longer, i, k)
    {
      SeenSurvivesExtension(cfg.mode, b, length, x, longer, i, k);
    }
    assert RejectedAt(cfg, x, longer, i);
  }

  /** The filter looks at nothing past the length. */
  lemma FilterReadsOnlyLength(cfg: FilterConfig, b: seq<byte>, x: seq<byte>, length: nat)
    requires length <= |b| && length <= |x|
    requires Agree(b, x, length)
    ensures Rejected(cfg, b, length) <==> Rejected(cfg, x, length)
  {
    if Rejected(cfg, b, length) {
      PruningIsSound(cfg, b, length, x, length);
    }
    if Rejected(cfg, x, length) {
      PruningIsSound(cfg, x, length, b, length);
    }
  }

  // ----- growing -----

  /** The last payload byte the filter checks behind the EVEX or VEX prefix at `i`. */
  function PayloadEnd(b: seq<byte>, i: nat): nat
    requires i < |b|
  {
    if b[i] == 0x62 then i + 3 else if b[i] == 0xc4 then i + 2 else i + 1
  }

  /** An EVEX or VEX prefix after plain ones whose payload ends past the pointer, but inside the length. */
  ghost predicate ZeroPayloadAt(mode: CpuMode, b: seq<byte>, pointer: nat, length: nat, i: nat)
    requires i <= pointer < length <= |b|
  {
    var k := KindAt(mode, b, pointer + 1, i);
    && AllPlain(mode, b, pointer + 1, i)
    && (k.Evex? || k.Vex?)
    && pointer < PayloadEnd(b, i) < length
  }

  /** With zeros behind the pointer, a length past it changes no kind up to the pointer. */
  lemma KindSurvivesGrowth(mode: CpuMode, b: seq<byte>, pointer: nat, length: nat, i: nat)
    requires i <= pointer < length <= |b|
    requires forall j :: pointer < j < |b| ==> b[j] == 0
    ensures KindAt(mode, b, length, i) == KindAt(mode, b, pointer + 1, i)
  {
  }

  lemma SeenSurvivesGrowth(mode: CpuMode, b: seq<byte>, pointer: nat, length: nat, i: nat)
    requires i <= pointer < length <= |b|
    requires forall j :: pointer < j < |b| ==> b[j] == 0
    ensures forall k :: Seen(mode, b, length, i, k) <==> Seen(mode, b, pointer + 1, i, k)
    ensures AllPlain(mode, b, length, i) <==> AllPlain(mode, b, pointer + 1, i)
  {
    var inside := pointer + 1;
    forall j | 0 <= j < i ensures KindAt(mode, b, length, j) == KindAt(mode, b, inside, j) {
      KindSurvivesGrowth(mode, b, pointer, length, j);
    }
  }

  /** Where growth makes the difference: payload bytes that were not looked at are zeros, which no payload allows. */
  lemma RejectedAtAfterGrowth(cfg: FilterConfig, b: seq<byte>, pointer: nat, length: nat, i: nat)
    requires i <= pointer < length <= |b|
    requires forall j :: pointer < j < |b| ==> b[j] == 0
    requires !RejectedAt(cfg, b, pointer + 1, i)
    ensures RejectedAt(cfg, b, length, i) <==> ZeroPayloadAt(cfg.mode, b, pointer, length, i)
  {
    hide Seen, AllPlain;
    KindSurvivesGrowth(cfg.mode, b, pointer, length, i);
    SeenSurvivesGrowth(cfg.mode, b, pointer, length, i);
  }

  /**
    The filter is not applied again when a candidate grows. A candidate it accepted up to its pointer
    is rejected at a greater length just when the growth reached the end of a payload begun before.
  */
  lemma RejectedAfterGrowth(cfg: FilterConfig, b: seq<byte>, pointer: nat, length: nat)
    requires pointer < length <= |b|
    requires forall j :: pointer < j < |b| ==> b[j] == 0
    requires !Rejected(cfg, b, pointer + 1)
    ensures Rejected(cfg, b, length) <==>
            exists i :: 0 <= i <= pointer && ZeroPayloadAt(cfg.mode, b, pointer, length, i)
  {
    hide RejectedAt, ZeroPayloadAt;
    forall i | 0 <= i <= pointer
      ensures RejectedAt(cfg, b, length, i) <==> ZeroPayloadAt(cfg.mode, b, pointer, length, i)
    {
      assert !RejectedAt(cfg, b, pointer + 1, i);
      RejectedAtAfterGrowth(cfg, b, pointer, length, i);
    }
    forall i | pointer < i < length ensures !RejectedAt(cfg, b, length, i) {
      ZeroBreaksNoRule(cfg, b, length, i);
    }
  }

  lemma ZeroBreaksNoRule(cfg: FilterConfig, b: seq<byte>, length: nat, i: nat)
    requires i < length <= |b| && b[i] == 0
    ensures !RejectedAt(cfg, b, length, i)
  {
  }

  // ----- the malformed-VEX expectation -----

  /** An accepted candidate can be expected to raise #UD just when two prefixes fit before the limit. */
  lemma MalformedNeedsTwoPrefixes(cfg: FilterConfig)
    ensures (exists b: seq<byte>, length: nat :: length <= |b| && Malformed(cfg, b, length)) <==> cfg.maxPrefixes >= 2
  {
    if cfg.maxPrefixes >= 2 {
      var b: seq<byte> := [0xf0, 0xc5, 0xf8];
      assert KindAt(cfg.mode, b, 3, 0) == Legacy(Lock);
      assert KindAt(cfg.mode, b, 3, 1) == Vex;
      forall i | 0 <= i < 3 ensures !RejectedAt(cfg, b, 3, i) {
        if i == 2 { assert !KindAt(cfg.mode, b, 3, 1).Plain(); }
      }
      assert OddVexAt(cfg, b, 3, 1);
      assert Malformed(cfg, b, 3);
    } else {
      forall b: seq<byte>, length: nat | length <= |b| && Malformed(cfg, b, length) ensures false {
        var i :| 0 <= i < length && OddVexAt(cfg, b, length, i);
        assert RejectedAt(cfg, b, length, i);
      }
    }
  }

  // ----- counting prefixes -----

  /** src/instruction_execution_loop.c:323-358 */
  predicate IsPrefix(mode: CpuMode, b: byte, next: byte)
  {
    || IsSegmentByte(b)
    || (mode.Mode64? && IsRexByte(b))
    || (b == 0x62 && (mode.Mode64? || next >= 0xc0))
    || b / 2 == 0x66 / 2
    || b / 2 == 0x64 / 2
    || IsVexByte(b)
    || b / 2 == 0xf2 / 2
    || b == 0xf0
  }

  /** The byte the look-ahead finds after position `i`: past the end, whatever memory holds there. */
  function Following(b: seq<byte>, beyond: byte, i: nat): byte
    requires i < |b|
  {
    if i + 1 < |b| then b[i + 1] else beyond
  }

  predicate PrefixAt(cfg: FilterConfig, b: seq<byte>, i: nat)
    requires i < |b|
  {
    IsPrefix(cfg.mode, b[i], Following(b, cfg.beyond, i))
  }

  /** `n` leading bytes count as prefixes: a run that a VEX prefix closes. */
  ghost predicate IsPrefixCount(cfg: FilterConfig, b: seq<byte>, length: nat, n: nat)
    requires length <= |b|
  {
    && n <= length
    && (forall i :: 0 <= i < n ==> PrefixAt(cfg, b, i))
    && (forall i :: 0 <= i < n - 1 ==> !IsVexByte(b[i]))
    && (n == length || !PrefixAt(cfg, b, n) || (n > 0 && IsVexByte(b[n - 1])))
  }

  lemma PrefixCountIsUnique(cfg: FilterConfig, b: seq<byte>, length: nat, m: nat, n: nat)
    requires length <= |b|
    requires IsPrefixCount(cfg, b, length, m) && IsPrefixCount(cfg, b, length, n)
    ensures m == n
  {
  }

  function CountFrom(cfg: FilterConfig, b: seq<byte>, length: nat, from: nat): (n: nat)
    requires from <= length <= |b|
    ensures from <= n <= length
    ensures forall i :: from <= i < n ==> PrefixAt(cfg, b, i)
    ensures forall i :: from <= i < n - 1 ==> !IsVexByte(b[i])
    ensures n == length || !PrefixAt(cfg, b, n) || (n > from && IsVexByte(b[n - 1]))
    decreases length - from
  {
    if from < length && PrefixAt(cfg, b, from) then
      if IsVexByte(b[from]) then from + 1 else CountFrom(cfg, b, length, from + 1)
    else from
  }

  function PrefixCount(cfg: FilterConfig, b: seq<byte>, length: nat): (n: nat)
    requires length <= |b|
    ensures IsPrefixCount(cfg, b, length, n)
  {
    CountFrom(cfg, b, length, 0)
  }

  /** The loop of src/instruction_execution_loop.c:360-385; its look-ahead guard is always true. */
  method CountPrefixes(cfg: FilterConfig, bytes: array<byte>, length: nat) returns (prefixes: nat)
    requires length <= bytes.Length
    ensures IsPrefixCount(cfg, bytes[..], length, prefixes)
  {
    prefixes := 0;
    while prefixes < length
      invariant prefixes <= length
      invariant forall i :: 0 <= i < prefixes ==> PrefixAt(cfg, bytes[..], i) && !IsVexByte(bytes[i])
    {
      var byteAt := bytes[prefixes];
      var nextByte := if prefixes + 1 < bytes.Length then bytes[prefixes + 1] else cfg.beyond;
      if IsPrefix(cfg.mode, byteAt, nextByte) {
        prefixes := prefixes + 1;
        if IsVexByte(byteAt) { break; }
      } else {
        break;
      }
    }
  }

  /** A byte that counts as a prefix, but opens no VEX form, is a prefix to the filter too. */
  lemma PrefixKinds(cfg: FilterConfig, b: seq<byte>, length: nat, i: nat)
    requires i + 1 < length <= |b|
    requires PrefixAt(cfg, b, i) && !IsVexByte(b[i])
    ensures KindAt(cfg.mode, b, length, i).Plain() || KindAt(cfg.mode, b, length, i) == Evex
  {
  }

  /** No second EVEX payload byte the filter lets through looks like a prefix. */
  lemma PrefixIsNoEvexPayload(cfg: FilterConfig, b: seq<byte>, i: nat)
    requires i < |b| && PrefixAt(cfg, b, i)
    ensures b[i] % 128 >= 8
  {
  }

  // ----- the bound on the count -----

  /** The kinds of plain prefix there are: six legacy groups and, in 64-bit mode, REX. */
  function PlainKinds(mode: CpuMode): set<Kind>
  {
    {Legacy(Segment), Legacy(OperandSize), Legacy(AddressSize), Legacy(Lock), Legacy(Repne), Legacy(Rep)} +
    if mode.Mode64? then {Rex} else {}
  }

  function PlainKindCount(mode: CpuMode): nat { if mode.Mode64? then 7 else 6 }

  lemma CountPlainKinds(mode: CpuMode)
    ensures |PlainKinds(mode)| == PlainKindCount(mode)
  {
    var legacy := {Legacy(Segment), Legacy(OperandSize), Legacy(AddressSize), Legacy(Lock), Legacy(Repne), Legacy(Rep)};
    assert |legacy| == 6;
    if mode.Mode64? { assert PlainKinds(mode) == legacy + {Rex}; } else { assert PlainKinds(mode) == legacy; }
  }

  lemma {:induction false} SubsetIsNoLarger<T>(a: set<T>, b: set<T>)
    requires a <= b
    ensures |a| <= |b|
  {
    if a == {} {
    } else {
      var x :| x in a;
      SubsetIsNoLarger(a - {x}, b - {x});
    }
  }

  /** A run of plain prefixes that breaks no rule repeats no kind, so there are as many kinds as prefixes. */
  lemma {:induction false} RunHasDistinctKinds(cfg: FilterConfig, b: seq<byte>, length: nat, i: nat)
    returns (kinds: set<Kind>)
    requires i <= length <= |b| && CleanBefore(cfg, b, length, i)
    ensures |kinds| == i && kinds <= PlainKinds(cfg.mode)
    ensures forall k :: k in kinds ==> Seen(cfg.mode, b, length, i, k)
  {
    if i == 0 {
      kinds := {};
    } else {
      var k := KindAt(cfg.mode, b, length, i - 1);
      var before := RunHasDistinctKinds(cfg, b, length, i - 1);
      assert k.Plain() && !Violation(cfg, b, length, i - 1);
      kinds := before + {k};
      forall x | x in kinds ensures Seen(cfg.mode, b, length, i, x) {
        SeenNext(cfg.mode, b, length, i - 1, x);
      }
    }
  }

  /** Such a run is as short as the limit asks, and never longer than there are kinds. */
  lemma RunIsShort(cfg: FilterConfig, b: seq<byte>, length: nat, i: nat)
    requires i <= length <= |b| && CleanBefore(cfg, b, length, i)
    ensures i <= PlainKindCount(cfg.mode) && i <= cfg.maxPrefixes
  {
    var kinds := RunHasDistinctKinds(cfg, b, length, i);
    CountPlainKinds(cfg.mode);
    SubsetIsNoLarger(kinds, PlainKinds(cfg.mode));
    if i > 0 { assert !Violation(cfg, b, length, i - 1); }
  }

  /** What an accepted candidate can count at most: a run of plain prefixes, an EVEX byte, two payload bytes. */
  function MostPrefixes(cfg: FilterConfig): nat
  {
    var kinds := PlainKindCount(cfg.mode);
    (if cfg.maxPrefixes <= kinds then cfg.maxPrefixes else kinds + 1) + 2
  }

  /**
    A candidate the filter accepted up to the pointer byte, zero after it, never counts more
    prefixes than that, whatever the limit and however far it has grown since.
  */
  lemma FilterBoundsTheCount(cfg: FilterConfig, b: seq<byte>, pointer: nat, length: nat)
    requires pointer < length <= |b|
    requires forall i :: pointer < i < |b| ==> b[i] == 0
    requires !Rejected(cfg, b, pointer + 1)
    ensures PrefixCount(cfg, b, length) <= MostPrefixes(cfg)
  {
    hide PlainKinds;
    var n, inside := PrefixCount(cfg, b, length), pointer + 1;
    assert n <= inside by {
      assert n == 0 || PrefixAt(cfg, b, n - 1);
    }
    var stop := FirstNotPlain(cfg, b, inside, pointer);
    forall j | 0 <= j <= stop ensures !Violation(cfg, b, inside, j) {
      assert !RejectedAt(cfg, b, inside, j);
    }
    assert CleanBefore(cfg, b, inside, stop);
    RunIsShort(cfg, b, inside, stop);
    var kind := KindAt(cfg.mode, b, inside, stop);
    if kind.Plain() {
      assert CleanBefore(cfg, b, inside, stop + 1);
      RunIsShort(cfg, b, inside, stop + 1);
    } else if n > stop + 1 {
      PrefixKinds(cfg, b, inside, stop);
      assert kind == Evex && !Violation(cfg, b, inside, stop);
      assert n <= stop + 3 by {
        if n > stop + 3 { PrefixIsNoEvexPayload(cfg, b, stop + 2); }
      }
    }
  }

  /** The first of the positions up to `last` that is no plain prefix, or `last` itself. */
  lemma FirstNotPlain(cfg: FilterConfig, b: seq<byte>, length: nat, last: nat) returns (stop: nat)
    requires last < length <= |b|
    ensures stop <= last && AllPlain(cfg.mode, b, length, stop)
    ensures stop < last ==> !KindAt(cfg.mode, b, length, stop).Plain()
  {
    stop := 0;
    while stop < last && KindAt(cfg.mode, b, length, stop).Plain()
      invariant stop <= last && AllPlain(cfg.mode, b, length, stop)
    {
      stop := stop + 1;
    }
  }

  /** Plain prefixes of all kinds, REX last. */
  const ONE_OF_EACH: seq<byte> := [0x26, 0x66, 0x67, 0xf0, 0xf2, 0xf3, 0x40]

  /** As many of them as the limit leaves room for, an EVEX byte, and two payload bytes not checked yet. */
  function Longest(cfg: FilterConfig): (b: seq<byte>)
    requires cfg.maxPrefixes > 0
    ensures |b| == 15
  {
    ONE_OF_EACH[..MostPrefixes(cfg) - 3] + [0x62, 0xf0, 0x66] + seq(15 - MostPrefixes(cfg), _ => 0)
  }

  function KindOfEach(i: nat): Kind
    requires i < 7
  {
    [Legacy(Segment), Legacy(OperandSize), Legacy(AddressSize), Legacy(Lock), Legacy(Repne), Legacy(Rep), Rex][i]
  }

  lemma LongestKinds(cfg: FilterConfig, i: nat)
    requires cfg.maxPrefixes > 0 && i + 2 < MostPrefixes(cfg)
    ensures var b, n := Longest(cfg), MostPrefixes(cfg);
            && KindAt(cfg.mode, b, n, i) == (if i + 3 == n then Evex else KindOfEach(i))
            && PrefixAt(cfg, b, i) && !IsVexByte(b[i])
  {
  }

  lemma LongestBreaksNoRule(cfg: FilterConfig, i: nat)
    requires cfg.maxPrefixes > 0 && i + 2 < MostPrefixes(cfg)
    ensures !Violation(cfg, Longest(cfg), MostPrefixes(cfg), i)
  {
    hide KindAt, Longest, EvexPayloadAllowed, VexConflict;
    var b, n := Longest(cfg), MostPrefixes(cfg);
    forall j | 0 <= j <= i ensures KindAt(cfg.mode, b, n, j) == if j + 3 == n then Evex else KindOfEach(j) {
      LongestKinds(cfg, j);
    }
  }

  /** The bound is reached in every mode and for every limit of at least one, by a candidate that has not grown. */
  lemma BoundIsReached(cfg: FilterConfig)
    requires cfg.maxPrefixes > 0
    ensures var b, n := Longest(cfg), MostPrefixes(cfg);
            && (forall i :: n <= i < 15 ==> b[i] == 0)
            && !Rejected(cfg, b, n) && PrefixCount(cfg, b, n) == n
  {
    hide KindAt, Violation;
    var b, n := Longest(cfg), MostPrefixes(cfg);
    LongestKinds(cfg, n - 3);
    forall i | 0 <= i < n ensures !RejectedAt(cfg, b, n, i) && PrefixAt(cfg, b, i) {
      if i + 2 < n {
        LongestKinds(cfg, i);
        LongestBreaksNoRule(cfg, i);
      } else {
        assert !KindAt(cfg.mode, b, n, n - 3).Plain();
      }
    }
    forall i | 0 <= i < n - 1 ensures !IsVexByte(b[i]) {
      if i + 2 < n { LongestKinds(cfg, i); }
    }
    PrefixCountIsUnique(cfg, b, n, n, PrefixCount(cfg, b, n));
  }

  /** A count that stays short of the buffer's end does not depend on what follows the buffer. */
  lemma CountIgnoresBeyond(cfg: FilterConfig, other: FilterConfig, b: seq<byte>, length: nat)
    requires length <= |b| && other == cfg.(beyond := other.beyond)
    requires PrefixCount(cfg, b, length) + 1 < |b|
    ensures PrefixCount(other, b, length) == PrefixCount(cfg, b, length)
  {
    var n := PrefixCount(cfg, b, length);
    forall i | 0 <= i <= n && i < length ensures PrefixAt(other, b, i) == PrefixAt(cfg, b, i) {
      assert Following(b, cfg.beyond, i) == Following(b, other.beyond, i);
    }
    PrefixCountIsUnique(other, b, length, n, PrefixCount(other, b, length));
  }
}
