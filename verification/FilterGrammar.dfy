/**
  The prefix filter and the prefix count once more, with the bytes and masks of the source written
  out: the shape of an accepted string, independent of the rules the scan applies one by one.
*/
module FilterGrammar {
  import opened Bytes
  import opened PrefixFilter
  import opened PrefixFilterProperties

  // ----- bytes -----

  predicate SegmentOverride(x: byte) { x in {0x26, 0x2e, 0x36, 0x3e, 0x64, 0x65} }

  predicate LegacyPrefix(x: byte) { SegmentOverride(x) || x in {0x66, 0x67, 0xf0, 0xf2, 0xf3} }

  predicate RexPrefix(mode: CpuMode, x: byte) { mode == Mode64 && 0x40 <= x <= 0x4f }

  /** Outside 64-bit mode 62, C4 and C5 are BOUND, LES and LDS unless the byte after them is at least C0. */
  predicate Escapes(mode: CpuMode, b: seq<byte>, length: nat, i: nat)
    requires i < length <= |b|
  {
    mode == Mode64 || (i + 1 < length && b[i + 1] >= 0xc0)
  }

  lemma KindsListed(mode: CpuMode, b: seq<byte>, length: nat, i: nat)
    requires i < length <= |b|
    ensures var k, x, escapes := KindAt(mode, b, length, i), b[i], Escapes(mode, b, length, i);
            && (k == Legacy(Segment) <==> SegmentOverride(x))
            && (k == Legacy(OperandSize) <==> x == 0x66)
            && (k == Legacy(AddressSize) <==> x == 0x67)
            && (k == Legacy(Lock) <==> x == 0xf0)
            && (k == Legacy(Repne) <==> x == 0xf2)
            && (k == Legacy(Rep) <==> x == 0xf3)
            && (k == Rex <==> RexPrefix(mode, x))
            && (k == Evex <==> x == 0x62 && escapes)
            && (k == Vex <==> x in {0xc4, 0xc5} && escapes)
            && (k.Plain() <==> LegacyPrefix(x) || RexPrefix(mode, x))
  {
  }

  // ----- the shape of an accepted string -----

  predicate Repeats(x: byte, y: byte) { x == y || (SegmentOverride(x) && SegmentOverride(y)) }

  /** Different legacy prefixes, of the segment overrides at most one, and at most one REX prefix, last. */
  ghost predicate PrefixRun(mode: CpuMode, b: seq<byte>, n: nat)
    requires n <= |b|
  {
    && (forall i :: 0 <= i < n ==> LegacyPrefix(b[i]) || RexPrefix(mode, b[i]))
    && (forall i, j :: 0 <= i < j < n ==> !Repeats(b[i], b[j]) && !RexPrefix(mode, b[i]))
  }

  /** EVEX payload bytes have the form 1111xxxx, x0000xxx, 0xx01000; looked at if all three are inside the length. */
  predicate EvexPayloadPasses(b: seq<byte>, length: nat, i: nat)
    requires i < length <= |b|
  {
    i + 3 < length ==> b[i + 1] >= 0xf0 && b[i + 2] % 0x80 < 8 && b[i + 3] % 0x20 == 8 && b[i + 3] < 0x80
  }

  /** VEX payload bytes have the form 111xxxxx, x1111xxx after C4 and 11111xxx after C5. */
  predicate VexPayloadPasses(b: seq<byte>, length: nat, i: nat)
    requires i < length <= |b|
  {
    if b[i] == 0xc4 then i + 2 < length ==> b[i + 1] >= 0xe0 && b[i + 2] % 0x80 >= 0x78
    else i + 1 < length ==> b[i + 1] >= 0xf8
  }

  /** A run of `n` prefixes within the limit, and after it the end, an opcode, or EVEX or VEX as the filter wants it. */
  ghost predicate Shape(cfg: FilterConfig, b: seq<byte>, length: nat, n: nat)
    requires length <= |b|
  {
    && n <= length && n <= cfg.maxPrefixes && PrefixRun(cfg.mode, b, n)
    && (n < length ==> !LegacyPrefix(b[n]) && !RexPrefix(cfg.mode, b[n]))
    && (n < length && b[n] == 0x62 && Escapes(cfg.mode, b, length, n) ==>
          n < cfg.maxPrefixes && EvexPayloadPasses(b, length, n))
    && (n < length && b[n] in {0xc4, 0xc5} && Escapes(cfg.mode, b, length, n) ==>
          && n < cfg.maxPrefixes && VexPayloadPasses(b, length, n)
          && 0x66 !in b[..n] && 0xf2 !in b[..n] && 0xf3 !in b[..n]
          && (b[n] == 0xc4 && n > 0 ==> !RexPrefix(cfg.mode, b[n - 1])))
  }

  // ----- the filter accepts just these -----

  lemma PayloadsListed(b: seq<byte>, length: nat, i: nat)
    requires i < length <= |b|
    ensures EvexAllowed(b, length, i) <==> EvexPayloadPasses(b, length, i)
    ensures b[i] in {0xc4, 0xc5} ==> (VexPayloadAllowed(b, length, i) <==> VexPayloadPasses(b, length, i))
  {
  }

  /** The kinds before `n` are plain, and so far break no rule, just when they form a run within the limit. */
  lemma RunsListed(cfg: FilterConfig, b: seq<byte>, length: nat, n: nat)
    requires n <= length <= |b|
    ensures CleanBefore(cfg, b, length, n) <==> PrefixRun(cfg.mode, b, n) && n <= cfg.maxPrefixes
    decreases n
  {
    hide KindAt, EvexAllowed, VexConflict, VexPayloadAllowed;
    forall i | 0 <= i < n ensures KindAt(cfg.mode, b, length, i).Plain() <==>
                                  LegacyPrefix(b[i]) || RexPrefix(cfg.mode, b[i]) {
      KindsListed(cfg.mode, b, length, i);
    }
    if n > 0 {
      RunsListed(cfg, b, length, n - 1);
      if LegacyPrefix(b[n - 1]) || RexPrefix(cfg.mode, b[n - 1]) {
        PlainRules(cfg, b, length, n - 1);
      }
    }
  }

  /** What the rules say of a plain prefix at `i`. */
  lemma PlainRules(cfg: FilterConfig, b: seq<byte>, length: nat, i: nat)
    requires i < length <= |b| && (LegacyPrefix(b[i]) || RexPrefix(cfg.mode, b[i]))
    ensures !Violation(cfg, b, length, i) <==>
            i < cfg.maxPrefixes && forall j :: 0 <= j < i ==> !Repeats(b[j], b[i]) && !RexPrefix(cfg.mode, b[j])
  {
    hide KindAt, EvexAllowed, VexConflict, VexPayloadAllowed;
    KindsListed(cfg.mode, b, length, i);
    var k := KindAt(cfg.mode, b, length, i);
    forall j | 0 <= j < i
      ensures KindAt(cfg.mode, b, length, j) == Rex <==> RexPrefix(cfg.mode, b[j])
      ensures k.Legacy? ==> (KindAt(cfg.mode, b, length, j) == k <==> Repeats(b[j], b[i]))
    {
      KindsListed(cfg.mode, b, length, j);
    }
  }

  /** What they say of the byte after a run. */
  lemma EndRules(cfg: FilterConfig, b: seq<byte>, length: nat, n: nat)
    requires n < length <= |b| && PrefixRun(cfg.mode, b, n) && n <= cfg.maxPrefixes
    requires !LegacyPrefix(b[n]) && !RexPrefix(cfg.mode, b[n])
    ensures !Violation(cfg, b, length, n) <==> Shape(cfg, b, length, n)
    ensures OddVexAt(cfg, b, length, n) <==> OddVex(cfg.mode, b, length, n)
  {
    hide KindAt, EvexAllowed, VexPayloadAllowed, EvexPayloadPasses, VexPayloadPasses;
    RunsListed(cfg, b, length, n);
    PayloadsListed(b, length, n);
    KindsListed(cfg.mode, b, length, n);
    forall j | 0 <= j < n
      ensures KindAt(cfg.mode, b, length, j) == Rex <==> RexPrefix(cfg.mode, b[j])
      ensures KindAt(cfg.mode, b, length, j) == Legacy(OperandSize) <==> b[j] == 0x66
      ensures KindAt(cfg.mode, b, length, j) == Legacy(Repne) <==> b[j] == 0xf2
      ensures KindAt(cfg.mode, b, length, j) == Legacy(Rep) <==> b[j] == 0xf3
      ensures KindAt(cfg.mode, b, length, j) == Legacy(Lock) <==> b[j] == 0xf0
      ensures b[..n][j] == b[j]
    {
      KindsListed(cfg.mode, b, length, j);
    }
  }

  /** VEX after a run with LOCK in it or, in the two-byte form, right after REX: the manuals promise #UD. */
  ghost predicate OddVex(mode: CpuMode, b: seq<byte>, length: nat, n: nat)
    requires n < length <= |b|
  {
    && b[n] in {0xc4, 0xc5} && Escapes(mode, b, length, n)
    && (0xf0 in b[..n] || (b[n] == 0xc5 && n > 0 && RexPrefix(mode, b[n - 1])))
  }

  /** A string has at most one run to speak of: the longest. */
  lemma LongestRun(cfg: FilterConfig, b: seq<byte>, length: nat) returns (n: nat)
    requires length <= |b|
    ensures n <= length && (forall i :: 0 <= i < n ==> LegacyPrefix(b[i]) || RexPrefix(cfg.mode, b[i]))
    ensures n < length ==> !LegacyPrefix(b[n]) && !RexPrefix(cfg.mode, b[n])
  {
    n := 0;
    while n < length && (LegacyPrefix(b[n]) || RexPrefix(cfg.mode, b[n]))
      invariant n <= length && forall i :: 0 <= i < n ==> LegacyPrefix(b[i]) || RexPrefix(cfg.mode, b[i])
    {
      n := n + 1;
    }
  }

  /** In terms of the rules: some byte of the run breaks one, or the byte after it. */
  lemma RejectedInRun(cfg: FilterConfig, b: seq<byte>, length: nat, n: nat)
    requires n <= length <= |b|
    requires forall i :: 0 <= i < n ==> LegacyPrefix(b[i]) || RexPrefix(cfg.mode, b[i])
    requires n < length ==> !LegacyPrefix(b[n]) && !RexPrefix(cfg.mode, b[n])
    ensures !Rejected(cfg, b, length) <==>
            CleanBefore(cfg, b, length, n) && (n < length ==> !Violation(cfg, b, length, n))
    ensures (exists i :: 0 <= i < length && OddVexAt(cfg, b, length, i)) <==> n < length && OddVexAt(cfg, b, length, n)
  {
    hide KindAt, Violation;
    forall i | 0 <= i <= n && i < length
      ensures KindAt(cfg.mode, b, length, i).Plain() <==> i < n
      ensures !KindAt(cfg.mode, b, length, i).Plain() ==> i == n
    {
      KindsListed(cfg.mode, b, length, i);
    }
    assert AllPlain(cfg.mode, b, length, n);
    forall i | n < i < length ensures !AllPlain(cfg.mode, b, length, i) {
      assert !KindAt(cfg.mode, b, length, n).Plain();
    }
    forall i | 0 <= i < length && i != n ensures !OddVexAt(cfg, b, length, i) {
    }
    forall i | 0 <= i < length
      ensures RejectedAt(cfg, b, length, i) <==> i <= n && Violation(cfg, b, length, i)
    {
    }
  }

  /**
    The filter accepts just the strings of that shape, and expects #UD just for those whose run ends
    in an odd VEX prefix; a string has the shape for at most one length of the run.
  */
  lemma AcceptedJustInShape(cfg: FilterConfig, b: seq<byte>, length: nat)
    requires length <= |b|
    ensures !Rejected(cfg, b, length) <==> exists n :: 0 <= n <= length && Shape(cfg, b, length, n)
    ensures Malformed(cfg, b, length) <==>
            exists n :: 0 <= n < length && Shape(cfg, b, length, n) && OddVex(cfg.mode, b, length, n)
    ensures forall m, n :: 0 <= m <= length && Shape(cfg, b, length, m) && 0 <= n <= length && Shape(cfg, b, length, n)
              ==> m == n
  {
    hide KindAt, Violation, Rejected, OddVexAt, OddVex, EvexPayloadPasses, VexPayloadPasses, CleanBefore;
    var n := LongestRun(cfg, b, length);
    forall m | 0 <= m <= length && Shape(cfg, b, length, m) ensures m == n {
    }
    RejectedInRun(cfg, b, length, n);
    RunsListed(cfg, b, length, n);
    if n < length && CleanBefore(cfg, b, length, n) {
      EndRules(cfg, b, length, n);
    }
    assert !Rejected(cfg, b, length) <==> Shape(cfg, b, length, n);
  }

  // ----- payloads on their own -----

  /** A string that begins with EVEX or VEX stands or falls with its payload. */
  lemma PayloadDecides(cfg: FilterConfig, b: seq<byte>, length: nat)
    requires cfg.mode == Mode64 && cfg.maxPrefixes > 0 && 0 < length <= |b|
    ensures b[0] == 0x62 ==> (Rejected(cfg, b, length) <==> !EvexPayloadPasses(b, length, 0))
    ensures b[0] in {0xc4, 0xc5} ==> (Rejected(cfg, b, length) <==> !VexPayloadPasses(b, length, 0))
  {
    hide Rejected, EvexPayloadPasses, VexPayloadPasses;
    AcceptedJustInShape(cfg, b, length);
    if b[0] in {0x62, 0xc4, 0xc5} {
      forall n | 0 < n <= length ensures !Shape(cfg, b, length, n) {
        assert !LegacyPrefix(b[0]) && !RexPrefix(cfg.mode, b[0]);
      }
      assert Shape(cfg, b, length, 0) <==> !Rejected(cfg, b, length);
      assert b[..0] == [] && PrefixRun(cfg.mode, b, 0);
    }
  }

  /** With the masks of src/instruction_execution_loop.c:515-533. */
  lemma EvexPayload(cfg: FilterConfig, p0: bv8, p1: bv8, p2: bv8)
    requires cfg.mode == Mode64 && cfg.maxPrefixes > 0
    ensures Rejected(cfg, [0x62, p0 as byte, p1 as byte, p2 as byte], 4) <==>
            !(p0 & 0xf0 == 0xf0 && p1 & 0x78 == 0 && p2 & 0x9f == 0x08)
  {
    hide Rejected, EvexPayload0Allowed, EvexPayload1Allowed, EvexPayload2Allowed, EvexPayloadPasses;
    var b: seq<byte> := [0x62, p0 as byte, p1 as byte, p2 as byte];
    PayloadDecides(cfg, b, 4);
    PayloadsListed(b, 4, 0);
    PayloadMasks(p0);
    PayloadMasks(p1);
    PayloadMasks(p2);
  }

  /** With the masks of src/instruction_execution_loop.c:538-558. */
  lemma VexPayload(cfg: FilterConfig, b1: bv8, b2: bv8)
    requires cfg.mode == Mode64 && cfg.maxPrefixes > 0
    ensures Rejected(cfg, [0xc4, b1 as byte, b2 as byte], 3) <==> !(b1 & 0xe0 == 0xe0 && b2 & 0x78 == 0x78)
    ensures Rejected(cfg, [0xc5, b1 as byte], 2) <==> !(b1 & 0xf8 == 0xf8)
  {
    hide Rejected, Vex3Payload1Allowed, Vex3Payload2Allowed, Vex2PayloadAllowed, VexPayloadPasses;
    var three: seq<byte>, two: seq<byte> := [0xc4, b1 as byte, b2 as byte], [0xc5, b1 as byte];
    PayloadDecides(cfg, three, 3);
    PayloadDecides(cfg, two, 2);
    PayloadsListed(three, 3, 0);
    PayloadsListed(two, 2, 0);
    PayloadMasks(b1);
    PayloadMasks(b2);
  }

  // ----- counting prefixes -----

  predicate Counted(cfg: FilterConfig, b: seq<byte>, i: nat)
    requires i < |b|
  {
    || b[i] in {0x26, 0x2e, 0x36, 0x3e, 0x64, 0x65, 0x66, 0x67, 0xf0, 0xf2, 0xf3, 0xc4, 0xc5}
    || (cfg.mode == Mode64 && (0x40 <= b[i] <= 0x4f || b[i] == 0x62))
    || (b[i] == 0x62 && (if i + 1 < |b| then b[i + 1] else cfg.beyond) >= 0xc0)
  }

  /** The count stops at the length, at the first byte that is no listed prefix, or after C4 or C5. */
  lemma CountIsListed(cfg: FilterConfig, b: seq<byte>, length: nat, n: nat)
    requires length <= |b|
    ensures PrefixCount(cfg, b, length) == n <==>
              && n <= length
              && (forall i :: 0 <= i < n ==> Counted(cfg, b, i))
              && (forall i :: 0 <= i < n - 1 ==> b[i] !in {0xc4, 0xc5})
              && (n == length || !Counted(cfg, b, n) || (n > 0 && b[n - 1] in {0xc4, 0xc5}))
  {
    hide Counted, PrefixAt, PrefixCount;
    forall i | 0 <= i < length
      ensures PrefixAt(cfg, b, i) <==> Counted(cfg, b, i)
      ensures Counted(cfg, b, i) <==> PrefixAt(cfg, b, i)
      ensures IsVexByte(b[i]) <==> b[i] in {0xc4, 0xc5}
    {
      PrefixIsListed(cfg, b, i);
    }
    var count := PrefixCount(cfg, b, length);
    if IsPrefixCount(cfg, b, length, n) {
      PrefixCountIsUnique(cfg, b, length, n, count);
    }
  }

  lemma PrefixIsListed(cfg: FilterConfig, b: seq<byte>, i: nat)
    requires i < |b|
    ensures PrefixAt(cfg, b, i) <==> Counted(cfg, b, i)
  {
  }

  /** A byte on its own, outside 64-bit mode with the byte after it. */
  lemma OneByteCounts(cfg: FilterConfig, b: seq<byte>)
    requires |b| > 1
    ensures PrefixCount(cfg, b, 1) == 1 <==>
              || b[0] in {0x26, 0x2e, 0x36, 0x3e, 0x64, 0x65, 0x66, 0x67, 0xf0, 0xf2, 0xf3, 0xc4, 0xc5}
              || (cfg.mode == Mode64 && (0x40 <= b[0] <= 0x4f || b[0] == 0x62))
              || (cfg.mode != Mode64 && b[0] == 0x62 && b[1] >= 0xc0)
  {
    CountIsListed(cfg, b, 1, 1);
  }
}
