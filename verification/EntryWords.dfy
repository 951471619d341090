/** Page-table entries as the 64-bit words src/remap.c computes with, against the fields of `PageTables.Entry`. */
module EntryWords {
  import opened PageTables
  import opened Remap

  const PAGE_PRESENT: bv64 := 0x1
  const PAGE_WRITABLE: bv64 := 0x2
  const PAGE_USER: bv64 := 0x4
  const PAGE_SIZE: bv64 := 0x80
  const PAGE_NOEXECUTE: bv64 := 0x8000_0000_0000_0000
  const ADDRESS: bv64 := 0x000f_ffff_ffff_f000

  predicate Has(w: bv64, bit: bv64) { w & bit != 0 }

  /** The word has the flags of the entry. */
  predicate Flags(w: bv64, e: Entry)
  {
    && Has(w, PAGE_PRESENT) == e.present && Has(w, PAGE_WRITABLE) == e.writable && Has(w, PAGE_USER) == e.user
    && Has(w, PAGE_SIZE) == e.pageSize && Has(w, PAGE_NOEXECUTE) == e.noExecute
  }

  /** The bits, with their masks written out; the test of src/remap.c:77; and the address of the next table. */
  lemma FlagsOnWords(w: bv64, e: Entry)
    requires Flags(w, e)
    ensures (w & 1 != 0) == e.present && (w & 2 != 0) == e.writable && (w & 4 != 0) == e.user
    ensures (w & 0x80 != 0) == e.pageSize && (w & 0x8000_0000_0000_0000 != 0) == e.noExecute
    ensures NeedsTable(e) <==> w & 1 == 0 || w & 0x80 != 0
    ensures w & 0x7ff0_0000_0000_0000 == 0 ==> w & !(0xfff | 0x8000_0000_0000_0000) == w & ADDRESS
  {
  }

  /** The word of src/remap.c:102 leads to the new page, with everything allowed. */
  lemma PointerOnWords(page: bv64, frame: nat)
    requires page & 0xfff == 0 && page < 0x10_0000_0000_0000
    ensures (page | 7) & ADDRESS == page && Flags(page | 7, Pointer(frame))
  {
  }

  /** src/remap.c:59-67 */
  function ProtWord(prot: Prot): bv64
  {
    PAGE_PRESENT | (if prot.write then PAGE_WRITABLE else 0) | (if prot.user then PAGE_USER else 0)
    | (if prot.execute then 0 else PAGE_NOEXECUTE)
  }

  /** The test of src/remap.c:106 is `Satisfies`. */
  lemma TestOnWords(w: bv64, e: Entry, prot: Prot)
    requires Flags(w, e)
    ensures w & ProtWord(prot) == ProtWord(prot) & !PAGE_NOEXECUTE <==> Satisfies(e, prot)
  {
    TestWord(w, ProtWord(prot));
    ProtBits(prot);
  }

  lemma TestWord(w: bv64, p: bv64)
    requires p & !0x8000_0000_0000_0007 == 0 && p & 1 == 1
    ensures w & p == p & !PAGE_NOEXECUTE <==>
            && w & 1 != 0 && (p & 2 != 0 ==> w & 2 != 0) && (p & 4 != 0 ==> w & 4 != 0)
            && (p & PAGE_NOEXECUTE != 0 ==> w & PAGE_NOEXECUTE == 0)
  {
  }

  lemma ProtBits(prot: Prot)
    ensures var p := ProtWord(prot);
            && p & !0x8000_0000_0000_0007 == 0 && p & 1 == 1
            && (p & 2 != 0 <==> prot.write) && (p & 4 != 0 <==> prot.user)
                && (p & PAGE_NOEXECUTE != 0 <==> !prot.execute)
  {
  }

  /** The update of src/remap.c:108 is `Widen`, and keeps the address. */
  lemma UpdateOnWords(w: bv64, e: Entry, prot: Prot)
    requires Flags(w, e) && !Satisfies(e, prot)
    ensures var after := (w | ProtWord(prot)) & !PAGE_NOEXECUTE;
            Flags(after, Widen(e, prot)) && after & ADDRESS == w & ADDRESS
  {
    UpdateWord(w, ProtWord(prot));
    ProtBits(prot);
  }

  lemma UpdateWord(w: bv64, p: bv64)
    requires p & !0x8000_0000_0000_0007 == 0 && p & 1 == 1
    ensures var after := (w | p) & !PAGE_NOEXECUTE;
            && after & 1 != 0 && after & PAGE_NOEXECUTE == 0
            && (after & 2 != 0 <==> w & 2 != 0 || p & 2 != 0)
            && (after & 4 != 0 <==> w & 4 != 0 || p & 4 != 0)
            && after & PAGE_SIZE == w & PAGE_SIZE && after & ADDRESS == w & ADDRESS
  {
  }

  /**
    The sum of src/remap.c:98 on the word of an aligned 2 MB page carries nowhere: it sets address bits and
    keeps the rest.
  */
  lemma SplitSmallOnWords(w: bv64, j: bv64)
    requires j < 512 && w & 0x1f_f000 == 0
    ensures w + 0x1000 * j == w | (j << 12)
  {
    assert 0x1000 * j == j << 12;
  }

  /** The same for an aligned 1 GB page. */
  lemma SplitLargeOnWords(w: bv64, j: bv64)
    requires j < 512 && w & 0x3fff_f000 == 0
    ensures w + 0x20_0000 * j == w | (j << 21)
  {
    assert 0x20_0000 * j == j << 21;
  }

  /**
    The word of src/remap.c:117 holds the address it was given just when that is a page-aligned
    address below 2^52, and then it has the flags of the leaf.
  */
  lemma LeafOnWords(phys: bv64, frame: nat, prot: Prot)
    ensures (phys | ProtWord(prot)) & ADDRESS == phys <==> phys & 0xfff == 0 && phys < 0x10_0000_0000_0000
    ensures phys & 0xfff == 0 && phys < 0x10_0000_0000_0000 ==> Flags(phys | ProtWord(prot), Leaf(frame, prot))
  {
    LeafWord(phys, ProtWord(prot));
    ProtBits(prot);
  }

  lemma LeafWord(phys: bv64, p: bv64)
    requires p & !0x8000_0000_0000_0007 == 0
    ensures (phys | p) & ADDRESS == phys <==> phys & 0xfff == 0 && phys < 0x10_0000_0000_0000
    ensures phys & 0xfff == 0 && phys < 0x10_0000_0000_0000 ==> (phys | p) & 0x8000_0000_0000_0087 == p
  {
  }
}
