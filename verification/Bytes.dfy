/** Bytes, machine words, and byte strings read as base-256 numbers. */
module Bytes {
  type byte = x: int | 0 <= x < 0x100
  type u64 = x: int | 0 <= x < 0x1_0000_0000_0000_0000

  // ----- the low byte of a word as bits, for masks that select from it -----

  predicate IsLowByte(b: bv8, w: u64) { (b as int) == w % 256 }

  /** Every word has a low byte of bits. */
  lemma LowByteExists(w: u64) returns (b: bv8)
    ensures IsLowByte(b, w)
  {
    b := BitsOf(w % 256);
  }

  lemma {:induction false} BitsOf(n: nat) returns (b: bv8)
    requires n < 256
    ensures (b as int) == n
  {
    if n == 0 {
      b := 0;
    } else {
      b := BitsOf(n - 1);
      NextBits(b);
      b := b + 1;
    }
  }

  lemma NextBits(b: bv8)
    requires (b as int) < 255
    ensures ((b + 1) as int) == (b as int) + 1
  {
  }

  /** The masks 3, 1 << 2 and 1 << 4 as remainders. */
  lemma LowBits(w: u64, b: bv8)
    requires IsLowByte(b, w)
    ensures b & 3 == 3 <==> w % 4 == 3
    ensures b & (1 << 2) == 0 <==> w / 4 % 2 == 0
    ensures b & (1 << 4) != 0 <==> w / 16 % 2 == 1
  {
    BothLowBits(b);
    BitTwo(b);
    BitFour(b);
    LowByteKeepsTwoBits(w);
    LowByteKeepsThreeBits(w);
    LowByteKeepsFiveBits(w);
    BitTwoAsRemainder(w);
    BitFourAsRemainder(w);
  }

  lemma BothLowBits(b: bv8)
    ensures b & 3 == 3 <==> (b as int) % 4 == 3
  {
  }

  lemma BitTwo(b: bv8)
    ensures b & (1 << 2) == 0 <==> (b as int) % 8 < 4
  {
  }

  lemma BitFour(b: bv8)
    ensures b & (1 << 4) != 0 <==> (b as int) % 32 >= 16
  {
  }

  lemma LowByteKeepsTwoBits(w: nat)
    ensures w % 256 % 4 == w % 4
  {
  }

  lemma LowByteKeepsThreeBits(w: nat)
    ensures w % 256 % 8 == w % 8
  {
  }

  lemma LowByteKeepsFiveBits(w: nat)
    ensures w % 256 % 32 == w % 32
  {
  }

  lemma BitTwoAsRemainder(w: nat)
    ensures w % 8 < 4 <==> w / 4 % 2 == 0
  {
  }

  lemma BitFourAsRemainder(w: nat)
    ensures w % 32 >= 16 <==> w / 16 % 2 == 1
  {
  }

  /** The two strings agree on their first `k` bytes. */
  ghost predicate Agree(x: seq<byte>, b: seq<byte>, k: nat)
    requires k <= |x| && k <= |b|
  {
    forall i :: 0 <= i < k ==> x[i] == b[i]
  }

  /** The first `k` bytes of `x` precede those of `b` in lexicographic order. */
  ghost predicate Below(x: seq<byte>, b: seq<byte>, k: nat)
    requires k <= |x| && k <= |b|
  {
    exists j :: 0 <= j < k && Agree(x, b, j) && x[j] < b[j]
  }

  ghost predicate AtMost(x: seq<byte>, b: seq<byte>, k: nat)
    requires k <= |x| && k <= |b|
  {
    Below(x, b, k) || Agree(x, b, k)
  }

  /** 256 to the power `n`. */
  ghost function Pow256(n: nat): (r: nat)
    ensures r > 0
  {
    if n == 0 then 1 else 256 * Pow256(n - 1)
  }

  /** A byte string read as a number, most significant byte first. */
  ghost function Val(b: seq<byte>): (r: nat)
    ensures r < Pow256(|b|)
  {
    if b == [] then 0 else 256 * Val(b[..|b| - 1]) + b[|b| - 1]
  }

  /** Lexicographic order on strings of one length is the order of their values. */
  lemma {:induction false} BelowIsLess(x: seq<byte>, b: seq<byte>)
    requires |x| == |b|
    ensures Below(x, b, |b|) <==> Val(x) < Val(b)
    ensures Agree(x, b, |b|) <==> Val(x) == Val(b)
  {
    if b != [] {
      var n := |b| - 1;
      BelowIsLess(x[..n], b[..n]);
      BelowInit(x, b, n);
    }
  }

  lemma BelowInit(x: seq<byte>, b: seq<byte>, n: nat)
    requires n + 1 <= |x| && n + 1 <= |b|
    ensures Agree(x[..n], b[..n], n) <==> Agree(x, b, n)
    ensures Below(x[..n], b[..n], n) <==> Below(x, b, n)
    ensures Below(x, b, n + 1) <==> Below(x, b, n) || (Agree(x, b, n) && x[n] < b[n])
    ensures Agree(x, b, n + 1) <==> Agree(x, b, n) && x[n] == b[n]
  {
  }

  /** Replacing position `k` by a larger byte raises the value, whatever follows. */
  lemma RaiseAt(b: seq<byte>, c: seq<byte>, k: nat)
    requires |b| == |c| && k < |b|
    requires Agree(b, c, k) && b[k] < c[k]
    ensures Val(b) < Val(c)
  {
    assert Below(b, c, |c|);
    BelowIsLess(b, c);
  }
}
