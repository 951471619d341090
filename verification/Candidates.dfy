/** The order in which the search visits byte strings (src/instruction_execution_loop.c:939-971). */
module Candidates {
  import opened Bytes
  import opened PrefixFilter
  import opened PrefixFilterProperties

  const CAPACITY: nat := 15

  type Buffer = b: seq<byte> | |b| == CAPACITY witness seq(CAPACITY, _ => 0)

  /** All bytes after the pointer are zero. */
  ghost predicate ZeroAfter(b: Buffer, pointer: nat)
  {
    forall i :: pointer < i < CAPACITY ==> b[i] == 0
  }

  /** Where the advance ends: at a candidate to execute, or carried out of byte 0. */
  datatype Found = Candidate(bytes: Buffer, pointer: nat) | Exhausted(bytes: Buffer, length: nat)

  /**
    Raise the byte under the pointer until the filter accepts the bytes up to it; at 0xff, zero it
    and carry to the byte before. Reaching the `goto` and entering by it come to the same.
  */
  ghost function NextCandidate(cfg: FilterConfig, b: Buffer, pointer: nat, length: nat): (r: Found)
    requires pointer < CAPACITY && 0 < length <= CAPACITY
    ensures r.Candidate? ==> r.pointer <= pointer
    ensures r.Exhausted? ==> 0 < r.length <= CAPACITY
    decreases pointer, 255 - b[pointer]
  {
    if b[pointer] == 255 then
      if pointer == 0 then Exhausted(b[pointer := 0], length)
      else NextCandidate(cfg, b[pointer := 0], pointer - 1, length)
    else
      var raised: Buffer := b[pointer := b[pointer] + 1];
      if Rejected(cfg, raised, pointer + 1) then NextCandidate(cfg, raised, pointer, pointer + 1)
      else Candidate(raised, pointer)
  }

  /** The result differs from the start first where its pointer now stands, is larger there, and passes the filter. */
  lemma {:induction false} NextCandidateShape(cfg: FilterConfig, b: Buffer, pointer: nat, length: nat)
    requires pointer < CAPACITY && 0 < length <= CAPACITY && ZeroAfter(b, pointer)
    ensures match NextCandidate(cfg, b, pointer, length)
            case Candidate(c, k) =>
              Agree(b, c, k) && b[k] < c[k] && ZeroAfter(c, k) && !Rejected(cfg, c, k + 1)
            case Exhausted(z, _) => z[0] == 0 && ZeroAfter(z, 0)
    decreases pointer, 255 - b[pointer]
  {
    hide Rejected;
    if b[pointer] == 255 {
      if pointer > 0 {
        NextCandidateShape(cfg, b[pointer := 0], pointer - 1, length);
      }
    } else {
      var raised: Buffer := b[pointer := b[pointer] + 1];
      if Rejected(cfg, raised, pointer + 1) {
        NextCandidateShape(cfg, raised, pointer, pointer + 1);
      }
    }
  }

  /**
    It is the least: whatever string the filter accepts up to its own last nonzero byte, and that
    lies above all strings sharing the starting bytes up to the pointer, is not passed over.
  */
  lemma {:induction false} NextCandidateIsLeast(cfg: FilterConfig, b: Buffer, pointer: nat, length: nat, x: Buffer,
        p: nat)
    requires pointer < CAPACITY && 0 < length <= CAPACITY && p < CAPACITY
    requires ZeroAfter(x, p) && !Rejected(cfg, x, p + 1)
    requires !AtMost(x, b, pointer + 1)
    ensures var r := NextCandidate(cfg, b, pointer, length);
            r.Candidate? && !Below(x, r.bytes, r.pointer + 1)
    decreases pointer, 255 - b[pointer]
  {
    hide Rejected, Below;
    BelowInit(x, b, pointer);
    if b[pointer] == 255 {
      if pointer > 0 {
        var carried: Buffer := b[pointer := 0];
        SamePrefixSameOrder(x, b, carried, pointer);
        NextCandidateIsLeast(cfg, carried, pointer - 1, length, x, p);
      }
    } else {
      var raised: Buffer := b[pointer := b[pointer] + 1];
      SamePrefixSameOrder(x, b, raised, pointer);
      BelowInit(x, raised, pointer);
      if Rejected(cfg, raised, pointer + 1) {
        if Agree(x, raised, pointer + 1) {
          PruningIsSound(cfg, raised, pointer + 1, x, p + 1);
        }
        NextCandidateIsLeast(cfg, raised, pointer, pointer + 1, x, p);
      }
    }
  }

  lemma SamePrefixSameOrder(x: Buffer, b: Buffer, c: Buffer, k: nat)
    requires k <= CAPACITY && Agree(b, c, k)
    ensures Below(x, b, k) <==> Below(x, c, k)
    ensures Agree(x, b, k) <==> Agree(x, c, k)
  {
    if Below(x, b, k) {
      var j :| 0 <= j < k && Agree(x, b, j) && x[j] < b[j];
      assert Agree(x, c, j);
    }
    if Below(x, c, k) {
      var j :| 0 <= j < k && Agree(x, c, j) && x[j] < c[j];
      assert Agree(x, b, j);
    }
  }

  /** Every 15-byte string the advance passes over is one the filter rejects. */
  lemma AdvanceSkipsOnlyRejected(cfg: FilterConfig, b: Buffer, pointer: nat, length: nat, x: Buffer)
    requires pointer < CAPACITY && 0 < length <= CAPACITY
    requires !AtMost(x, b, pointer + 1)
    ensures match NextCandidate(cfg, b, pointer, length)
            case Candidate(c, k) => Below(x, c, k + 1) ==> Rejected(cfg, x, CAPACITY)
            case Exhausted(_, _) => Rejected(cfg, x, CAPACITY)
  {
    if !Rejected(cfg, x, CAPACITY) {
      NextCandidateIsLeast(cfg, b, pointer, length, x, CAPACITY - 1);
    }
  }
}
