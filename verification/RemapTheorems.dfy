/** Whole calls of remap_page, seen through the processor's page walk. */
module RemapTheorems {
  import opened Bytes
  import opened Wrappers
  import opened PageTables
  import opened Remap
  import opened RemapProperties
  import opened RemapPage

  /** The tables a call starts from: a tree under the root, and free pages that hold none of it. */
  ghost predicate Ready(mem: Memory, pool: seq<Option<nat>>, pos: map<nat, Path>, root: nat, depth: nat)
  {
    depth > 0 && Tree(mem, pos, root, depth) && FreshPool(pool, pos)
  }

  /**
    After a successful call every page but the target, and after a failed one every page, translates
    as before, under the same own rights and rights along the way that are never narrower. The
    tables are still a tree, so calls compose.
  */
  lemma RemapFrame(mem: Memory, pool: seq<Option<nat>>, pos: map<nat, Path>, root: nat, depth: nat,
                   target: Path, frame: nat, prot: Prot)
    requires Ready(mem, pool, pos, root, depth) && |target| == depth
    ensures var r := RemapFrom(mem, pool, root, target, frame, prot);
            && (exists pos' :: Ready(r.memory, r.pool, pos', root, depth))
            && (forall q: Path :: |q| == depth && (r.ok ==> q != target) ==>
                  Widened(Walk(mem, root, q), Walk(r.memory, root, q)))
  {
    hide RemapFrom, Walk;
    var r := RemapFrom(mem, pool, root, target, frame, prot);
    RootOnLevel(mem, pos, root, depth, target);
    var pos' := RemapKeeps(mem, pool, pos, root, depth, root, target, frame, prot);
    assert Ready(r.memory, r.pool, pos', root, depth);
    assert [] + target == target;
    forall q: Path | |q| == depth && (r.ok ==> q != target)
      ensures Widened(Walk(mem, root, q), Walk(r.memory, root, q))
    {
      RootOnLevel(mem, pos, root, depth, q);
      assert [] + q == q;
    }
  }

  /**
    After a successful call the target maps to the frame with the rights asked for, execution barred only by an
    NX that line 106 of the source passes over.
  */
  lemma RemapTarget(mem: Memory, pool: seq<Option<nat>>, pos: map<nat, Path>, root: nat, depth: nat,
                    target: Path, frame: nat, prot: Prot)
    requires Ready(mem, pool, pos, root, depth) && |target| == depth
    requires RemapFrom(mem, pool, root, target, frame, prot).ok
    ensures Walk(RemapFrom(mem, pool, root, target, frame, prot).memory, root, target) ==
            Mapped(frame, Rights(prot.write, prot.user, prot.execute),
                   Rights(prot.write, prot.user, prot.execute && !Blocked(mem, root, target, prot)))
  {
    RootOnLevel(mem, pos, root, depth, target);
    RemapHits(mem, pool, pos, root, depth, root, target, frame, prot);
  }

  /** After a success, the same call changes nothing and any call for the page succeeds without allocating. */
  lemma RemapAgain(mem: Memory, pool: seq<Option<nat>>, pos: map<nat, Path>, root: nat, depth: nat,
                   target: Path, frame: nat, prot: Prot, pool2: seq<Option<nat>>, frame2: nat, prot2: Prot)
    requires Ready(mem, pool, pos, root, depth) && |target| == depth
    requires RemapFrom(mem, pool, root, target, frame, prot).ok
    ensures var after := RemapFrom(mem, pool, root, target, frame, prot).memory;
            && RemapFrom(after, pool2, root, target, frame, prot) == Outcome(true, after, pool2)
            && RemapFrom(after, pool2, root, target, frame2, prot2).ok
            && RemapFrom(after, pool2, root, target, frame2, prot2).pool == pool2
  {
    hide RemapFrom, Settled, Built;
    var after := RemapFrom(mem, pool, root, target, frame, prot).memory;
    RootOnLevel(mem, pos, root, depth, target);
    RemapSettles(mem, pool, pos, root, depth, root, target, frame, prot);
    SettledStays(after, pool2, root, target, frame, prot);
    var pos' := RemapKeeps(mem, pool, pos, root, depth, root, target, frame, prot);
    RootOnLevel(after, pos', root, depth, target);
    BuiltNeedsNoPages(after, pool2, pos', root, depth, root, target, frame2, prot2);
  }

  // ----- the page a virtual address names -----

  /** The path of an address, read as a number of frames, is its page number within the address space. */
  lemma PathAddressesPage(virt: u64, la57: bool)
    ensures Offset(PathOf(virt, la57)) == virt / 0x1000 % if la57 then 0x2000_0000_0000 else 0x10_0000_0000
  {
    ShiftsNest(virt);
    var page := virt / 0x1000;
    assert TableIndices(virt) == [page / 512 / 512 / 512 / 512 % 512, page / 512 / 512 / 512 % 512,
                                  page / 512 / 512 % 512, page / 512 % 512, page % 512];
    hide TableIndices;
    if la57 {
      OffsetOfFive(PathOf(virt, true));
    } else {
      OffsetOfFour(PathOf(virt, false));
    }
    DigitsOfPage(page);
  }

  /** So two addresses are remapped by the same entries just when they lie in the same page. */
  lemma SamePathSamePage(v: u64, w: u64, la57: bool)
    ensures PathOf(v, la57) == PathOf(w, la57) <==>
            var pages := if la57 then 0x2000_0000_0000 else 0x10_0000_0000;
            v / 0x1000 % pages == w / 0x1000 % pages
  {
    PathAddressesPage(v, la57);
    PathAddressesPage(w, la57);
    if Offset(PathOf(v, la57)) == Offset(PathOf(w, la57)) {
      OffsetIsInjective(PathOf(v, la57), PathOf(w, la57));
    }
  }

  lemma OffsetOfFour(p: Path)
    requires |p| == 4
    ensures Offset(p) == FourDigits(p[0], p[1], p[2], p[3])
  {
    OffsetUnfolds(p);
    OffsetUnfolds(p[1..]);
    OffsetUnfolds(p[2..]);
    OffsetUnfolds(p[3..]);
    assert p[1..][1..] == p[2..] && p[2..][1..] == p[3..] && p[3..][1..] == [];
  }

  lemma OffsetOfFive(p: Path)
    requires |p| == 5
    ensures Offset(p) == Frames(5, p[0]) + FourDigits(p[1], p[2], p[3], p[4])
  {
    OffsetUnfolds(p);
    OffsetOfFour(p[1..]);
  }

  function FourDigits(a: nat, b: nat, c: nat, d: nat): nat
  {
    0x800_0000 * a + 0x4_0000 * b + 0x200 * c + d
  }

  /** A page number in base 512. */
  lemma DigitsOfPage(n: nat)
    ensures var n1 := n / 512; var n2 := n1 / 512; var n3 := n2 / 512; var n4 := n3 / 512;
            var low := FourDigits(n3 % 512, n2 % 512, n1 % 512, n % 512);
            low == n % 0x10_0000_0000 && 0x10_0000_0000 * (n4 % 512) + low == n % 0x2000_0000_0000
  {
    var n1 := n / 512;
    var n2 := n1 / 512;
    var n3 := n2 / 512;
    var n4 := n3 / 512;
    var n5, low := n4 / 512, FourDigits(n3 % 512, n2 % 512, n1 % 512, n % 512);
    assert n == 0x10_0000_0000 * n4 + low;
    assert n == 0x2000_0000_0000 * n5 + (0x10_0000_0000 * (n4 % 512) + low);
    RemainderIs(n, 0x10_0000_0000, n4, low);
    RemainderIs(n, 0x2000_0000_0000, n5, 0x10_0000_0000 * (n4 % 512) + low);
  }

  lemma RemainderIs(n: nat, m: nat, q: nat, r: nat)
    requires m == 0x10_0000_0000 || m == 0x2000_0000_0000
    requires n == m * q + r && r < m
    ensures n % m == r
  {
  }

  lemma {:induction false} OffsetIsInjective(p: Path, q: Path)
    requires |p| == |q| <= 5 && Offset(p) == Offset(q)
    ensures p == q
  {
    if p != [] {
      OffsetIsSmall(p[1..]);
      OffsetIsSmall(q[1..]);
      assert p[0] == q[0];
      OffsetIsInjective(p[1..], q[1..]);
      assert p == [p[0]] + p[1..] && q == [q[0]] + q[1..];
    }
  }

  lemma {:induction false} OffsetIsSmall(p: Path)
    requires |p| <= 4
    ensures p == [] ==> Offset(p) == 0
    ensures p != [] ==> Offset(p) < Frames(|p| + 1, 1)
  {
    if p != [] { OffsetIsSmall(p[1..]); }
  }

  /**
    A successful call for one address: every address of its page translates to the frame as asked,
    and every other address as before, its rights along the way never narrower.
  */
  lemma RemapOneAddress(mem: Memory, pool: seq<Option<nat>>, pos: map<nat, Path>, root: nat, la57: bool,
                        virt: u64, phys: u64, prot: Prot, v: u64)
    requires Ready(mem, pool, pos, root, Depth(la57))
    requires RemapFrom(mem, pool, root, PathOf(virt, la57), phys / 0x1000, prot).ok
    ensures var after := RemapFrom(mem, pool, root, PathOf(virt, la57), phys / 0x1000, prot).memory;
            var pages := if la57 then 0x2000_0000_0000 else 0x10_0000_0000;
            if v / 0x1000 % pages == virt / 0x1000 % pages then
              Walk(after, root, PathOf(v, la57)) ==
                Mapped(phys / 0x1000, Rights(prot.write, prot.user, prot.execute),
                       Rights(prot.write, prot.user,
                              prot.execute && !Blocked(mem, root, PathOf(virt, la57), prot)))
            else Widened(Walk(mem, root, PathOf(v, la57)), Walk(after, root, PathOf(v, la57)))
  {
    hide RemapFrom, Walk, Blocked, PathOf, Tree, FreshPool;
    SamePathSamePage(v, virt, la57);
    RemapTarget(mem, pool, pos, root, Depth(la57), PathOf(virt, la57), phys / 0x1000, prot);
    RemapFrame(mem, pool, pos, root, Depth(la57), PathOf(virt, la57), phys / 0x1000, prot);
  }

  // ----- the two calls at start-up, src/main.c:158-172 -----

  const READ_WRITE := Prot(true, false, false)
  const EXEC_USER := Prot(false, true, true)

  /**
    Adjacent pages have different paths, alike but for the last index unless the first is the last page of its
    table.
  */
  lemma AdjacentPaths(virt: u64, la57: bool)
    requires virt % 0x1000 == 0 && virt + 0x1000 < 0x1_0000_0000_0000_0000
    ensures var p, q := PathOf(virt, la57), PathOf(virt + 0x1000, la57); var n := Depth(la57);
            && p[n - 1] != q[n - 1]
            && (virt / 0x1000 % 512 != 511 ==> p[..n - 1] == q[..n - 1])
  {
    AdjacentIndices(virt);
    var p, q := TableIndices(virt), TableIndices(virt + 0x1000);
    if virt / 0x1000 % 512 != 511 {
      assert p[..PT] == q[..PT];
      assert p[PML4..][..PT - 1] == p[..PT][PML4..] == q[..PT][PML4..] == q[PML4..][..PT - 1];
    }
  }

  lemma AdjacentIndices(virt: u64)
    requires virt % 0x1000 == 0 && virt + 0x1000 < 0x1_0000_0000_0000_0000
    ensures TableIndex(virt, 0x1000) != TableIndex(virt + 0x1000, 0x1000)
    ensures virt / 0x1000 % 512 != 511 ==>
              && TableIndex(virt, 0x20_0000) == TableIndex(virt + 0x1000, 0x20_0000)
              && TableIndex(virt, 0x4000_0000) == TableIndex(virt + 0x1000, 0x4000_0000)
              && TableIndex(virt, 0x80_0000_0000) == TableIndex(virt + 0x1000, 0x80_0000_0000)
              && TableIndex(virt, 0x1_0000_0000_0000) == TableIndex(virt + 0x1000, 0x1_0000_0000_0000)
  {
    var next := virt + 0x1000;
    ShiftsNest(virt);
    ShiftsNest(next);
    assert next / 0x1000 == virt / 0x1000 + 1;
    if virt / 0x1000 % 512 != 511 {
      assert next / 0x1000 / 512 == virt / 0x1000 / 512;
    }
  }

  lemma ShiftsNest(v: nat)
    ensures v / 0x20_0000 == v / 0x1000 / 512
    ensures v / 0x4000_0000 == v / 0x20_0000 / 512
    ensures v / 0x80_0000_0000 == v / 0x4000_0000 / 512
    ensures v / 0x1_0000_0000_0000 == v / 0x80_0000_0000 / 512
  {
  }

  /**
    Mapping one page for data and then another to the same frame for code: both translate to the
    frame; the first writable, supervisor-only and not executable, untouched by the second call; the
    second for user code and not writable. It is executable unless, in the tables as they were before
    both calls, an entry on its way beyond where the two part leads to a table and has NX and USER.
  */
  lemma AliasedPages(mem: Memory, pool: seq<Option<nat>>, pos: map<nat, Path>, root: nat, depth: nat,
                     data: Path, code: Path, frame: nat)
    requires Ready(mem, pool, pos, root, depth) && |data| == depth == |code| && data != code
    requires var r := RemapFrom(mem, pool, root, data, frame, READ_WRITE);
             r.ok && RemapFrom(r.memory, r.pool, root, code, frame, EXEC_USER).ok
    ensures var r := RemapFrom(mem, pool, root, data, frame, READ_WRITE);
            var after := RemapFrom(r.memory, r.pool, root, code, frame, EXEC_USER).memory;
            && Walk(after, root, data) == Mapped(frame, Rights(true, false, false), Rights(true, false, false))
            && Walk(after, root, code) ==
                 Mapped(frame, Rights(false, true, true),
                        Rights(false, true, !BlockedApart(mem, root, data, code, EXEC_USER)))
  {
    hide RemapFrom, Walk, Blocked, BlockedApart, Tree, FreshPool;
    var r := RemapFrom(mem, pool, root, data, frame, READ_WRITE);
    RemapTarget(mem, pool, pos, root, depth, data, frame, READ_WRITE);
    RemapFrame(mem, pool, pos, root, depth, data, frame, READ_WRITE);
    var pos' :| Ready(r.memory, r.pool, pos', root, depth);
    RemapTarget(r.memory, r.pool, pos', root, depth, code, frame, EXEC_USER);
    RemapFrame(r.memory, r.pool, pos', root, depth, code, frame, EXEC_USER);
    EffectiveWithinOwn(RemapFrom(r.memory, r.pool, root, code, frame, EXEC_USER).memory, root, data);
    RootOnLevel(mem, pos, root, depth, data);
    BlockedAfterData(mem, pool, pos, root, depth, root, data, code, frame, READ_WRITE, EXEC_USER);
  }

  /**
    The start-up calls alias a page and the page after it. The alias is executable just when no entry
    on its own part of the way had NX and USER at the start, and always when both lie in one page table.
  */
  lemma StartupAlias(mem: Memory, pool: seq<Option<nat>>, pos: map<nat, Path>, root: nat, la57: bool, page: u64)
    requires Ready(mem, pool, pos, root, Depth(la57))
    requires page % 0x1000 == 0 && page + 0x1000 < 0x1_0000_0000_0000_0000
    ensures var data, code, frame := PathOf(page, la57), PathOf(page + 0x1000, la57), page / 0x1000;
            var r := RemapFrom(mem, pool, root, data, frame, READ_WRITE);
            var r2 := RemapFrom(r.memory, r.pool, root, code, frame, EXEC_USER);
            r.ok && r2.ok ==>
              var runs := !BlockedApart(mem, root, data, code, EXEC_USER);
              && Walk(r2.memory, root, data) == Mapped(frame, Rights(true, false, false), Rights(true, false, false))
              && Walk(r2.memory, root, code) == Mapped(frame, Rights(false, true, true), Rights(false, true, runs))
              && (frame % 512 != 511 ==> runs)
  {
    hide RemapFrom, Walk, BlockedApart, PathOf, Tree, FreshPool;
    AdjacentPaths(page, la57);
    var data, code, frame := PathOf(page, la57), PathOf(page + 0x1000, la57), page / 0x1000;
    var r := RemapFrom(mem, pool, root, data, frame, READ_WRITE);
    if r.ok && RemapFrom(r.memory, r.pool, root, code, frame, EXEC_USER).ok {
      AliasedPages(mem, pool, pos, root, Depth(la57), data, code, frame);
      if frame % 512 != 511 {
        SharedWayNeverBlocks(mem, root, data, code, EXEC_USER);
      }
    }
  }

  // ----- inputs that reach the failures -----

  /** With nothing mapped, a call needs a table for every level below the root, and without them it fails. */
  lemma EmptyRootNeedsTables(target: Path, frame: nat, prot: Prot)
    requires |target| == 4
    ensures var mem: Memory := map[0 := seq(512, _ => EMPTY)];
            && Ready(mem, [], map[0 := []], 0, 4)
            && Missing(mem, 0, target) == 3
            && !RemapFrom(mem, [], 0, target, frame, prot).ok
            && RemapFrom(mem, [Some(1), Some(2), Some(3)], 0, target, frame, prot).ok
  {
    hide RemapFrom;
    var mem: Memory := map[0 := seq(512, _ => EMPTY)];
    var pos: map<nat, Path> := map[0 := []];
    assert Missing(mem, 0, target) == 3;
    assert Tree(mem, pos, 0, 4);
    RemapSucceedsWhen(mem, [], pos, 0, 4, 0, target, frame, prot);
    RemapSucceedsWhen(mem, [Some(1), Some(2), Some(3)], pos, 0, 4, 0, target, frame, prot);
  }

  /** A table that is empty but for its first two entries. */
  function TableWith(first: Entry, second: Entry): Table
  {
    seq(512, k => if k == 0 then first else if k == 1 then second else EMPTY)
  }

  /** An upper entry that firmware marked as not executable. */
  const DATA_ONLY := Entry(true, true, true, false, true, 4, 0)

  /** Two page tables side by side, the second reached through an entry with NX. */
  const GUARDED: Memory := map[
    0 := TableWith(Pointer(1), EMPTY), 1 := TableWith(Pointer(2), EMPTY),
    2 := TableWith(Pointer(3), DATA_ONLY),
    3 := TableWith(EMPTY, EMPTY), 4 := TableWith(EMPTY, EMPTY)
  ]

  const GUARDED_PLACES: map<nat, Path> := map[0 := [], 1 := [0], 2 := [0, 0], 3 := [0, 0, 0], 4 := [0, 0, 1]]

  lemma GuardedIsReady()
    ensures Ready(GUARDED, [], GUARDED_PLACES, 0, 4)
  {
    forall t, k | t in GUARDED_PLACES && 0 <= k < 512 ensures SlotSound(GUARDED, GUARDED_PLACES, 4, t, k) {
      assert t in {0, 1, 2, 3, 4};
    }
  }

  lemma GuardedWays()
    ensures Missing(GUARDED, 0, [0, 0, 0, 511]) == 0 && Missing(GUARDED, 0, [0, 0, 1, 0]) == 0
    ensures Blocked(GUARDED, 0, [0, 0, 1, 0], EXEC_USER)
    ensures BlockedApart(GUARDED, 0, [0, 0, 0, 511], [0, 0, 1, 0], EXEC_USER)
  {
  }

  /** A page mapped executable that then is not. */
  lemma ExecutableInVain(frame: nat)
    ensures var r := RemapFrom(GUARDED, [], 0, [0, 0, 1, 0], frame, EXEC_USER);
            && Ready(GUARDED, [], GUARDED_PLACES, 0, 4) && r.ok
            && Walk(r.memory, 0, [0, 0, 1, 0]) == Mapped(frame, Rights(false, true, true), Rights(false, true, false))
  {
    hide RemapFrom, Walk, Tree, FreshPool, Missing, Blocked, BlockedApart;
    GuardedIsReady();
    GuardedWays();
    RootOnLevel(GUARDED, GUARDED_PLACES, 0, 4, [0, 0, 1, 0]);
    RemapSucceedsWhen(GUARDED, [], GUARDED_PLACES, 0, 4, 0, [0, 0, 1, 0], frame, EXEC_USER);
    RemapTarget(GUARDED, [], GUARDED_PLACES, 0, 4, [0, 0, 1, 0], frame, EXEC_USER);
  }

  /** Start-up pages across the end of a page table, whose alias cannot be executed. */
  lemma StartupAliasInVain()
    ensures var page: u64 := 0x1f_f000;
            var data, code := PathOf(page, false), PathOf(page + 0x1000, false);
            var r := RemapFrom(GUARDED, [], 0, data, page / 0x1000, READ_WRITE);
            var r2 := RemapFrom(r.memory, r.pool, 0, code, page / 0x1000, EXEC_USER);
            && Ready(GUARDED, [], GUARDED_PLACES, 0, 4) && r.ok && r2.ok
            && Walk(r2.memory, 0, code) == Mapped(page / 0x1000, Rights(false, true, true), Rights(false, true, false))
  {
    hide RemapFrom, Walk, Tree, FreshPool, Missing, Blocked, BlockedApart;
    var data, code, frame: nat := [0, 0, 0, 511], [0, 0, 1, 0], 0x1ff;
    GuardedIsReady();
    GuardedWays();
    assert PathOf(0x1f_f000, false) == data && PathOf(0x20_0000, false) == code;
    RootOnLevel(GUARDED, GUARDED_PLACES, 0, 4, data);
    RemapSucceedsWhen(GUARDED, [], GUARDED_PLACES, 0, 4, 0, data, frame, READ_WRITE);
    var r := RemapFrom(GUARDED, [], 0, data, frame, READ_WRITE);
    var pos' := RemapKeeps(GUARDED, [], GUARDED_PLACES, 0, 4, 0, data, frame, READ_WRITE);
    StillThere(frame);
    RootOnLevel(r.memory, pos', 0, 4, code);
    RemapSucceedsWhen(r.memory, r.pool, pos', 0, 4, 0, code, frame, EXEC_USER);
    AliasedPages(GUARDED, [], GUARDED_PLACES, 0, 4, data, code, frame);
  }

  /** The first call leaves all tables on the way to the alias. */
  lemma StillThere(frame: nat)
    ensures Missing(RemapFrom(GUARDED, [], 0, [0, 0, 0, 511], frame, READ_WRITE).memory, 0, [0, 0, 1, 0]) == 0
  {
    hide RemapFrom;
    var mem, data := GUARDED, [0, 0, 0, 511];
    RemapRound(mem, [], 0, data, frame, READ_WRITE);
    RemapRound(mem, [], 1, data[1..], frame, READ_WRITE);
    RemapRound(mem, [], 2, data[2..], frame, READ_WRITE);
    RemapRound(mem, [], 3, data[3..], frame, READ_WRITE);
    WriteBack(mem, 0, 0);
    WriteBack(mem, 1, 0);
    WriteBack(mem, 2, 0);
  }
}
