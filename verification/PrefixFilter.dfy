/**
  The prefix filter of the search (src/instruction_execution_loop.c:323-567): which byte
  strings may start an instruction worth executing, and how many leading bytes count as
  prefixes. The scanning methods keep the source's loops; `Rejected` is the grammar they decide.
*/
module PrefixFilter {
  import opened Bytes

  datatype CpuMode = Mode16 | Mode32 | Mode64

  /** CPU_MODE, MAX_PREFIXES, and whatever byte follows the 15-byte buffer in memory. */
  datatype FilterConfig = FilterConfig(mode: CpuMode, maxPrefixes: nat, beyond: byte)

  datatype Group = Segment | OperandSize | AddressSize | Lock | Repne | Rep

  datatype Kind = Legacy(group: Group) | Rex | Evex | Vex | Opcode
  {
    /** Legacy and REX prefixes may be followed by further prefixes. */
    predicate Plain() { Legacy? || Rex? }
  }

  // ----- masks of the source, read as arithmetic on byte values -----

  predicate IsRexByte(b: byte) { b / 16 == 4 }

  predicate IsSegmentByte(b: byte) { b == 0x26 || b == 0x2e || b == 0x36 || b == 0x3e }

  predicate IsVexByte(b: byte) { b / 2 == 0xc4 / 2 }

  predicate EvexPayload0Allowed(x: byte) { x >= 0xf0 }

  predicate EvexPayload1Allowed(x: byte) { x % 128 < 8 }

  predicate EvexPayload2Allowed(x: byte) { x % 32 == 8 && x < 128 }

  predicate EvexPayloadAllowed(p0: byte, p1: byte, p2: byte)
  {
    EvexPayload0Allowed(p0) && EvexPayload1Allowed(p1) && EvexPayload2Allowed(p2)
  }

  predicate Vex3Payload1Allowed(x: byte) { x >= 0xe0 }

  predicate Vex3Payload2Allowed(x: byte) { x % 128 >= 120 }

  predicate Vex3PayloadAllowed(b1: byte, b2: byte) { Vex3Payload1Allowed(b1) && Vex3Payload2Allowed(b2) }

  predicate Vex2PayloadAllowed(b1: byte) { b1 >= 0xf8 }

  /** Every mask test of the source, on 8-bit words, says what the arithmetic form above says. */
  lemma MaskReadings(b: bv8)
    ensures b & 0xf0 == 0x40 <==> IsRexByte(b as byte)
    ensures b & !(0x26 ^ 0x3e) == 0x26 <==> IsSegmentByte(b as byte)
    ensures b & 0xfe == 0xc4 <==> IsVexByte(b as byte)
  {
  }

  /** And so with the payload masks of EVEX (src/instruction_execution_loop.c:515-533) and VEX (538-558). */
  lemma PayloadMasks(b: bv8)
    ensures EvexPayload0Allowed(b as byte) <==> b & 0xf0 == 0xf0
    ensures EvexPayload1Allowed(b as byte) <==> b & 0x78 == 0
    ensures EvexPayload2Allowed(b as byte) <==> b & 0x9f == 0x08
    ensures Vex3Payload1Allowed(b as byte) <==> b & 0xe0 == 0xe0
    ensures Vex3Payload2Allowed(b as byte) <==> b & 0x78 == 0x78
    ensures Vex2PayloadAllowed(b as byte) <==> b & 0xf8 == 0xf8
  {
    hide EvexPayload0Allowed, EvexPayload1Allowed, EvexPayload2Allowed, Vex3Payload1Allowed, Vex3Payload2Allowed,
        Vex2PayloadAllowed;
    EvexPayload1Masks(b);
    EvexPayload2Masks(b);
    Vex3Payload2Masks(b);
    UpperMasks(b);
  }

  lemma EvexPayload1Masks(b: bv8)
    ensures EvexPayload1Allowed(b as byte) <==> b & 0x78 == 0
  {
  }

  lemma EvexPayload2Masks(b: bv8)
    ensures EvexPayload2Allowed(b as byte) <==> b & 0x9f == 0x08
  {
  }

  lemma Vex3Payload2Masks(b: bv8)
    ensures Vex3Payload2Allowed(b as byte) <==> b & 0x78 == 0x78
  {
  }

  lemma UpperMasks(b: bv8)
    ensures EvexPayload0Allowed(b as byte) <==> b & 0xf0 == 0xf0
    ensures Vex3Payload1Allowed(b as byte) <==> b & 0xe0 == 0xe0
    ensures Vex2PayloadAllowed(b as byte) <==> b & 0xf8 == 0xf8
  {
  }

  // ----- the grammar the filter decides -----

  /** What the byte at `i` opens, looking no further than the `length` bytes under test. */
  function KindAt(mode: CpuMode, b: seq<byte>, length: nat, i: nat): Kind
    requires i < length <= |b|
  {
    var wide := mode.Mode64? || (i + 1 < length && b[i + 1] >= 0xc0);
    if IsSegmentByte(b[i]) || b[i] == 0x64 || b[i] == 0x65 then Legacy(Segment)
    else if b[i] == 0x66 then Legacy(OperandSize)
    else if b[i] == 0x67 then Legacy(AddressSize)
    else if b[i] == 0xf0 then Legacy(Lock)
    else if b[i] == 0xf2 then Legacy(Repne)
    else if b[i] == 0xf3 then Legacy(Rep)
    else if b[i] == 0x62 then if wide then Evex else Opcode
    else if IsVexByte(b[i]) then if wide then Vex else Opcode
    else if mode.Mode64? && IsRexByte(b[i]) then Rex
    else Opcode
  }

  ghost predicate Seen(mode: CpuMode, b: seq<byte>, length: nat, i: nat, kind: Kind)
    requires i <= length <= |b|
  {
    exists j :: 0 <= j < i && KindAt(mode, b, length, j) == kind
  }

  ghost predicate AllPlain(mode: CpuMode, b: seq<byte>, length: nat, i: nat)
    requires i <= length <= |b|
  {
    forall j :: 0 <= j < i ==> KindAt(mode, b, length, j).Plain()
  }

  /** 66, F2 or F3 before any VEX prefix, or REX before the three-byte form. */
  ghost predicate VexConflict(mode: CpuMode, b: seq<byte>, length: nat, i: nat)
    requires i < length <= |b|
  {
    || Seen(mode, b, length, i, Legacy(OperandSize))
    || Seen(mode, b, length, i, Legacy(Repne))
    || Seen(mode, b, length, i, Legacy(Rep))
    || (b[i] == 0xc4 && Seen(mode, b, length, i, Rex))
  }

  /** The payload bytes of the VEX prefix at `i` that lie inside the length are acceptable. */
  predicate VexPayloadAllowed(b: seq<byte>, length: nat, i: nat)
    requires i < length <= |b|
  {
    && (b[i] == 0xc4 && i + 2 < length ==> Vex3PayloadAllowed(b[i + 1], b[i + 2]))
    && (b[i] == 0xc5 && i + 1 < length ==> Vex2PayloadAllowed(b[i + 1]))
  }

  /** So are those of the EVEX prefix at `i`, looked at only if all three lie inside the length. */
  predicate EvexAllowed(b: seq<byte>, length: nat, i: nat)
    requires i < length <= |b|
  {
    i + 3 < length ==> EvexPayloadAllowed(b[i + 1], b[i + 2], b[i + 3])
  }

  /** The byte at `i`, after a run of plain prefixes, breaks one of the filter's rules. */
  ghost predicate Violation(cfg: FilterConfig, b: seq<byte>, length: nat, i: nat)
    requires i < length <= |b|
  {
    var k := KindAt(cfg.mode, b, length, i);
    || (k.Legacy? && (Seen(cfg.mode, b, length, i, k) || Seen(cfg.mode, b, length, i, Rex)))
    || (k.Rex? && Seen(cfg.mode, b, length, i, Rex))
    || (!k.Opcode? && i >= cfg.maxPrefixes)
    || (k.Evex? && !EvexAllowed(b, length, i))
    || (k.Vex? && (VexConflict(cfg.mode, b, length, i) || !VexPayloadAllowed(b, length, i)))
  }

  ghost predicate RejectedAt(cfg: FilterConfig, b: seq<byte>, length: nat, i: nat)
    requires i < length <= |b|
  {
    AllPlain(cfg.mode, b, length, i) && Violation(cfg, b, length, i)
  }

  ghost predicate Rejected(cfg: FilterConfig, b: seq<byte>, length: nat)
    requires length <= |b|
  {
    exists i :: 0 <= i < length && RejectedAt(cfg, b, length, i)
  }

  /** A VEX prefix, reached through plain prefixes, that LOCK or (two-byte form) REX precedes. */
  ghost predicate OddVexAt(cfg: FilterConfig, b: seq<byte>, length: nat, i: nat)
    requires i < length <= |b|
  {
    && AllPlain(cfg.mode, b, length, i)
    && KindAt(cfg.mode, b, length, i).Vex?
    && (Seen(cfg.mode, b, length, i, Legacy(Lock)) || (b[i] == 0xc5 && Seen(cfg.mode, b, length, i, Rex)))
  }

  /** Accepted by the filter, yet the manuals promise #UD. */
  ghost predicate Malformed(cfg: FilterConfig, b: seq<byte>, length: nat)
    requires length <= |b|
  {
    !Rejected(cfg, b, length) && exists i :: 0 <= i < length && OddVexAt(cfg, b, length, i)
  }

  /** src/instruction_execution_loop.c:508-534: payload bytes past the length are not looked at. */
  method CheckEvexPayload(bytes: array<byte>, length: nat, i: nat) returns (invalid: bool)
    requires i < length <= bytes.Length
    ensures invalid <==> !EvexAllowed(bytes[..], length, i)
  {
    if i + 3 >= length { return false; }
    return !EvexPayloadAllowed(bytes[i + 1], bytes[i + 2], bytes[i + 3]);
  }

  /** src/instruction_execution_loop.c:538-559 */
  method CheckVexPayload(bytes: array<byte>, length: nat, i: nat) returns (invalid: bool)
    requires i < length <= bytes.Length && IsVexByte(bytes[i])
    ensures invalid <==> !VexPayloadAllowed(bytes[..], length, i)
  {
    if bytes[i] == 0xc4 && i + 2 < length {
      return !Vex3PayloadAllowed(bytes[i + 1], bytes[i + 2]);
    } else if bytes[i] == 0xc5 && i + 1 < length {
      return !Vex2PayloadAllowed(bytes[i + 1]);
    }
    return false;
  }

  /** The scan of src/instruction_execution_loop.c:389-567 decides the grammar above. */
  method ContainsInvalidCountOfPrefixes(cfg: FilterConfig, bytes: array<byte>, length: nat)
    returns (invalid: bool, malformed: bool)
    requires length <= bytes.Length
    ensures invalid <==> Rejected(cfg, bytes[..], length)
    ensures malformed <==> Malformed(cfg, bytes[..], length)
  {
    hide CleanBefore, Rejected, Malformed, FlagsTrack, EvexAllowed, VexPayloadAllowed, IsSegmentByte, IsRexByte, KindAt;
    var segmentOverrideSeen, operandSizeOverrideSeen, addressSizeOverrideSeen := false, false, false;
    var lockSeen, repneSeen, repSeen, rexSeen := false, false, false, false;
    ghost var b := bytes[..];
    malformed := false;
    ScanStarts(cfg, b, length);
    for i := 0 to length
      invariant b == bytes[..]
      invariant CleanBefore(cfg, b, length, i)
      invariant FlagsTrack(cfg.mode, b, length, i, segmentOverrideSeen, operandSizeOverrideSeen,
                           addressSizeOverrideSeen, lockSeen, repneSeen, repSeen, rexSeen)
    {
      var byteAt := bytes[i];
      var evexSeen, vexSeen, vexInvalid, vexMalformed := false, false, false, false;
      KindOfByte(cfg.mode, b, length, i);
      ScanRound(cfg, b, length, i, segmentOverrideSeen, operandSizeOverrideSeen,
                addressSizeOverrideSeen, lockSeen, repneSeen, repSeen, rexSeen);
      if IsSegmentByte(byteAt) || byteAt == 0x64 || byteAt == 0x65 {
        if rexSeen || segmentOverrideSeen { return true, false; }
        segmentOverrideSeen := true;
      } else if byteAt == 0x62 {
        if cfg.mode != Mode64 && (i + 1 == length || bytes[i + 1] < 0xc0) {
          return false, false;
        }
        evexSeen := true;
      } else if byteAt == 0x66 {
        if rexSeen || operandSizeOverrideSeen { return true, false; }
        operandSizeOverrideSeen := true;
      } else if byteAt == 0x67 {
        if rexSeen || addressSizeOverrideSeen { return true, false; }
        addressSizeOverrideSeen := true;
      } else if byteAt == 0xf0 {
        if rexSeen || lockSeen { return true, false; }
        lockSeen := true;
      } else if byteAt == 0xf2 {
        if rexSeen || repneSeen { return true, false; }
        repneSeen := true;
      } else if byteAt == 0xf3 {
        if rexSeen || repSeen { return true, false; }
        repSeen := true;
      } else if byteAt == 0xc4 || byteAt == 0xc5 {
        if cfg.mode != Mode64 && (i + 1 >= length || bytes[i + 1] < 0xc0) {
          return false, false;
        }
        vexInvalid := (byteAt == 0xc4 && rexSeen) || operandSizeOverrideSeen || repSeen || repneSeen;
        vexMalformed := !vexInvalid && ((byteAt == 0xc5 && rexSeen) || lockSeen);
        vexSeen := true;
      } else if cfg.mode == Mode64 && IsRexByte(byteAt) {
        if rexSeen { return true, false; }
        rexSeen := true;
      } else {
        return false, false;
      }

      if i >= cfg.maxPrefixes { return true, false; }

      if evexSeen {
        invalid := CheckEvexPayload(bytes, length, i);
        return invalid, false;
      }

      if vexSeen {
        var payloadInvalid := CheckVexPayload(bytes, length, i);
        return payloadInvalid || vexInvalid, !payloadInvalid && vexMalformed;
      }
    }
    ScanRunsOut(cfg, b, length);
    return false, false;
  }

  /** Nothing but plain prefixes, and no rule broken, before `i`. */
  ghost predicate CleanBefore(cfg: FilterConfig, b: seq<byte>, length: nat, i: nat)
    requires i <= length <= |b|
  {
    AllPlain(cfg.mode, b, length, i) && forall j :: 0 <= j < i ==> !Violation(cfg, b, length, j)
  }

  lemma ScanStarts(cfg: FilterConfig, b: seq<byte>, length: nat)
    requires length <= |b|
    ensures CleanBefore(cfg, b, length, 0)
    ensures FlagsTrack(cfg.mode, b, length, 0, false, false, false, false, false, false, false)
  {
  }

  lemma ScanRunsOut(cfg: FilterConfig, b: seq<byte>, length: nat)
    requires length <= |b|
    requires CleanBefore(cfg, b, length, length)
    ensures !Rejected(cfg, b, length) && !Malformed(cfg, b, length)
  {
    forall i | 0 <= i < length ensures !OddVexAt(cfg, b, length, i) {
      assert KindAt(cfg.mode, b, length, i).Plain();
    }
  }

  /** Seeing kinds one position further. */
  lemma SeenNext(mode: CpuMode, b: seq<byte>, length: nat, i: nat, k: Kind)
    requires i < length <= |b|
    ensures Seen(mode, b, length, i + 1, k) <==>
            Seen(mode, b, length, i, k) || KindAt(mode, b, length, i) == k
  {
    if Seen(mode, b, length, i + 1, k) {
      var j :| 0 <= j < i + 1 && KindAt(mode, b, length, j) == k;
    }
    if Seen(mode, b, length, i, k) {
      var j :| 0 <= j < i && KindAt(mode, b, length, j) == k;
      assert 0 <= j < i + 1;
    }
  }

  /** The seven flags of the scan say which kinds of plain prefix were seen before `i`. */
  ghost predicate FlagsTrack(mode: CpuMode, b: seq<byte>, length: nat, i: nat,
      segment: bool, operand: bool, address: bool, lock: bool, repne: bool, rep: bool, rex: bool)
    requires i <= length <= |b|
  {
    && (segment <==> Seen(mode, b, length, i, Legacy(Segment)))
    && (operand <==> Seen(mode, b, length, i, Legacy(OperandSize)))
    && (address <==> Seen(mode, b, length, i, Legacy(AddressSize)))
    && (lock <==> Seen(mode, b, length, i, Legacy(Lock)))
    && (repne <==> Seen(mode, b, length, i, Legacy(Repne)))
    && (rep <==> Seen(mode, b, length, i, Legacy(Rep)))
    && (rex <==> Seen(mode, b, length, i, Rex))
  }

  lemma FlagsNext(mode: CpuMode, b: seq<byte>, length: nat, i: nat,
      segment: bool, operand: bool, address: bool, lock: bool, repne: bool, rep: bool, rex: bool)
    requires i < length <= |b|
    requires FlagsTrack(mode, b, length, i, segment, operand, address, lock, repne, rep, rex)
    ensures var k := KindAt(mode, b, length, i);
            FlagsTrack(mode, b, length, i + 1,
              segment || k == Legacy(Segment), operand || k == Legacy(OperandSize),
              address || k == Legacy(AddressSize), lock || k == Legacy(Lock),
              repne || k == Legacy(Repne), rep || k == Legacy(Rep), rex || k == Rex)
  {
    SeenNext(mode, b, length, i, Legacy(Segment));
    SeenNext(mode, b, length, i, Legacy(OperandSize));
    SeenNext(mode, b, length, i, Legacy(AddressSize));
    SeenNext(mode, b, length, i, Legacy(Lock));
    SeenNext(mode, b, length, i, Legacy(Repne));
    SeenNext(mode, b, length, i, Legacy(Rep));
    SeenNext(mode, b, length, i, Rex);
  }

  /** What the flags say of the rules at `i`, kind by kind. */
  lemma FlagsDecide(cfg: FilterConfig, b: seq<byte>, length: nat, i: nat,
      segment: bool, operand: bool, address: bool, lock: bool, repne: bool, rep: bool, rex: bool)
    requires i < length <= |b|
    requires AllPlain(cfg.mode, b, length, i)
    requires FlagsTrack(cfg.mode, b, length, i, segment, operand, address, lock, repne, rep, rex)
    ensures var k, wrong := KindAt(cfg.mode, b, length, i), Violation(cfg, b, length, i);
            var tooMany := i >= cfg.maxPrefixes;
            match k
            case Legacy(Segment) => wrong <==> segment || rex || tooMany
            case Legacy(OperandSize) => wrong <==> operand || rex || tooMany
            case Legacy(AddressSize) => wrong <==> address || rex || tooMany
            case Legacy(Lock) => wrong <==> lock || rex || tooMany
            case Legacy(Repne) => wrong <==> repne || rex || tooMany
            case Legacy(Rep) => wrong <==> rep || rex || tooMany
            case Rex => wrong <==> rex || tooMany
            case Evex => wrong <==> tooMany || !EvexAllowed(b, length, i)
            case Vex =>
              && (wrong <==> tooMany || operand || repne || rep || (b[i] == 0xc4 && rex) ||
                             !VexPayloadAllowed(b, length, i))
              && (OddVexAt(cfg, b, length, i) <==> lock || (b[i] == 0xc5 && rex))
            case Opcode => !wrong
  {
    hide Seen, AllPlain, EvexPayloadAllowed, VexPayloadAllowed;
  }

  /** The kind of a byte by the tests of the scan, in their order. */
  lemma KindOfByte(mode: CpuMode, b: seq<byte>, length: nat, i: nat)
    requires i < length <= |b|
    ensures var x, k := b[i], KindAt(mode, b, length, i);
            var wide := mode == Mode64 || (i + 1 < length && b[i + 1] >= 0xc0);
            if IsSegmentByte(x) || x == 0x64 || x == 0x65 then k == Legacy(Segment)
            else if x == 0x62 then k == if wide then Evex else Opcode
            else if x == 0x66 then k == Legacy(OperandSize)
            else if x == 0x67 then k == Legacy(AddressSize)
            else if x == 0xf0 then k == Legacy(Lock)
            else if x == 0xf2 then k == Legacy(Repne)
            else if x == 0xf3 then k == Legacy(Rep)
            else if x == 0xc4 || x == 0xc5 then k == if wide then Vex else Opcode
            else k == if mode == Mode64 && IsRexByte(x) then Rex else Opcode
  {
  }

  /** One round of the scan: the flags, the limit and the payload decide, or the scan goes on with one flag more. */
  lemma ScanRound(cfg: FilterConfig, b: seq<byte>, length: nat, i: nat,
      segment: bool, operand: bool, address: bool, lock: bool, repne: bool, rep: bool, rex: bool)
    requires i < length <= |b|
    requires CleanBefore(cfg, b, length, i)
    requires FlagsTrack(cfg.mode, b, length, i, segment, operand, address, lock, repne, rep, rex)
    ensures var k := KindAt(cfg.mode, b, length, i);
            var no, odd := Rejected(cfg, b, length), Malformed(cfg, b, length);
            var next := CleanBefore(cfg, b, length, i + 1);
            var m, tooMany := cfg.mode, i >= cfg.maxPrefixes;
            && (no ==> !odd)
            && (tooMany && k != Opcode ==> no)
            && match k
               case Legacy(Segment) => if segment || rex || tooMany then no
                 else next && FlagsTrack(m, b, length, i + 1, true, operand, address, lock, repne, rep, rex)
               case Legacy(OperandSize) => if operand || rex || tooMany then no
                 else next && FlagsTrack(m, b, length, i + 1, segment, true, address, lock, repne, rep, rex)
               case Legacy(AddressSize) => if address || rex || tooMany then no
                 else next && FlagsTrack(m, b, length, i + 1, segment, operand, true, lock, repne, rep, rex)
               case Legacy(Lock) => if lock || rex || tooMany then no
                 else next && FlagsTrack(m, b, length, i + 1, segment, operand, address, true, repne, rep, rex)
               case Legacy(Repne) => if repne || rex || tooMany then no
                 else next && FlagsTrack(m, b, length, i + 1, segment, operand, address, lock, true, rep, rex)
               case Legacy(Rep) => if rep || rex || tooMany then no
                 else next && FlagsTrack(m, b, length, i + 1, segment, operand, address, lock, repne, true, rex)
               case Rex => if rex || tooMany then no
                 else next && FlagsTrack(m, b, length, i + 1, segment, operand, address, lock, repne, rep, true)
               case Evex => !odd && (no <==> tooMany || !EvexAllowed(b, length, i))
               case Vex =>
                 && (no <==> tooMany || operand || repne || rep || (b[i] == 0xc4 && rex) ||
                             !VexPayloadAllowed(b, length, i))
                 && (!no ==> (odd <==> lock || (b[i] == 0xc5 && rex)))
               case Opcode => !no && !odd
  {
    hide Seen, AllPlain, CleanBefore, Violation, Rejected, Malformed, FlagsTrack, VexPayloadAllowed, EvexAllowed;
    ScanEndsAt(cfg, b, length, i);
    FlagsNext(cfg.mode, b, length, i, segment, operand, address, lock, repne, rep, rex);
    FlagsDecide(cfg, b, length, i, segment, operand, address, lock, repne, rep, rex);
  }

  /** Once a position that is not a plain prefix is reached, it alone decides. */
  lemma ScanEndsAt(cfg: FilterConfig, b: seq<byte>, length: nat, i: nat)
    requires i < length <= |b|
    requires CleanBefore(cfg, b, length, i)
    ensures Violation(cfg, b, length, i) ==> Rejected(cfg, b, length)
    ensures KindAt(cfg.mode, b, length, i).Plain() && !Violation(cfg, b, length, i) ==>
              CleanBefore(cfg, b, length, i + 1)
    ensures AllPlain(cfg.mode, b, length, i)
    ensures Rejected(cfg, b, length) ==> !Malformed(cfg, b, length)
    ensures !KindAt(cfg.mode, b, length, i).Plain() ==>
              (Rejected(cfg, b, length) <==> Violation(cfg, b, length, i))
    ensures !KindAt(cfg.mode, b, length, i).Plain() && !Violation(cfg, b, length, i) ==>
              (Malformed(cfg, b, length) <==> OddVexAt(cfg, b, length, i))
  {
    if Violation(cfg, b, length, i) {
      assert RejectedAt(cfg, b, length, i);
    }
    if !KindAt(cfg.mode, b, length, i).Plain() {
      forall j | 0 <= j < length && j != i
        ensures !RejectedAt(cfg, b, length, j) && !OddVexAt(cfg, b, length, j)
      {
      }
    }
  }
}
