/** What remapping a page does to it, and to every other page. */
module RemapProperties {
  import opened Wrappers
  import opened PageTables
  import opened Remap

  // ----- one round of the loop -----

  lemma SplitEntryWalk(mem: Memory, e: Entry, page: nat, path: Path)
    requires page in mem && 2 <= |path| <= 3 && mem[page] == NewTable(e, |path|)
    requires e.present && e.pageSize
    ensures WalkEntry(mem, Pointer(page), path) ==
            Mapped(Base(e.frame + Frames(|path| - 1, path[1]), |path| - 1) + Offset(path[2..]), Own(e), Own(e))
  {
    var rest := path[1..];
    var s := SplitEntry(e, |path|, rest[0]);
    assert mem[page][rest[0]] == s;
    assert rest[1..] == path[2..];
    assert WalkEntry(mem, s, rest) == Mapped(Base(s.frame, |rest|) + Offset(path[2..]), Own(e), Own(e));
  }

  /**
    Splitting a page keeps every translation inside it just when its base, PAT bit 12 included, fits the smaller
    size too.
  */
  lemma SplitKeepsTranslation(mem: Memory, e: Entry, page: nat, path: Path)
    requires page in mem && 2 <= |path| <= 3 && mem[page] == NewTable(e, |path|)
    requires e.present && e.pageSize
    ensures WalkEntry(mem, Pointer(page), path) == WalkEntry(mem, e, path) <==>
            Base(e.frame, |path| - 1) == Base(e.frame, |path|)
  {
    hide Base, Frames, Offset;
    SplitEntryWalk(mem, e, page, path);
    BaseShift(e.frame, |path| - 1, path[1]);
    OffsetUnfolds(path[1..]);
    assert path[1..][1..] == path[2..];
  }

  lemma BaseShift(frame: nat, levels: nat, j: nat)
    requires 1 <= levels <= 2
    ensures Base(frame + Frames(levels, j), levels) == Base(frame, levels) + Frames(levels, j)
  {
  }

  lemma OffsetUnfolds(path: Path)
    requires path != []
    ensures Offset(path) == Frames(|path|, path[0]) + Offset(path[1..])
  {
  }

  lemma {:induction false} HangKeeps(mem: Memory, pos: map<nat, Path>, root: nat, depth: nat, t: nat, k: Index,
        page: nat, s: nat, q: Path)
    requires Tree(mem, pos, root, depth) && t in pos && |pos[t]| + 2 <= depth && page !in pos
    requires NeedsTable(mem[t][k]) && OnLevel(pos, depth, s, q)
    ensures Walk(Hang(mem, t, k, depth - |pos[t]|, page), s, q) == Walk(mem, s, q)
    decreases |q|
  {
    hide Base, Frames, Offset;
    var after := Hang(mem, t, k, depth - |pos[t]|, page);
    var e := mem[s][q[0]];
    assert SlotSound(mem, pos, depth, s, q[0]);
    if s == t && q[0] == k {
      assert after[t][k] == Pointer(page);
      if e.present {
        BaseOfBase(e.frame, |q|);
        SplitKeepsTranslation(after, e, page, q);
      } else {
        assert !after[page][q[1]].present;
        assert Walk(after, page, q[1..]) == Unmapped;
      }
    } else {
      assert after[s][q[0]] == e;
      if e.present && |q| > 1 && !e.pageSize {
        HangKeeps(mem, pos, root, depth, t, k, page, e.frame, q[1..]);
      }
    }
  }

  lemma BaseOfBase(frame: nat, levels: nat)
    requires frame == Base(frame, levels) && 2 <= levels <= 3
    ensures Base(frame, levels - 1) == frame
  {
  }

  lemma HangTree(mem: Memory, pos: map<nat, Path>, root: nat, depth: nat, t: nat, k: Index, page: nat)
    requires Tree(mem, pos, root, depth) && t in pos && |pos[t]| + 2 <= depth && page !in pos
    requires NeedsTable(mem[t][k])
    ensures Tree(Hang(mem, t, k, depth - |pos[t]|, page), pos[page := pos[t] + [k]], root, depth)
  {
    hide Base, Frames;
    var after, pos' := Hang(mem, t, k, depth - |pos[t]|, page), pos[page := pos[t] + [k]];
    var e, levels := mem[t][k], depth - |pos[t]|;
    assert SlotSound(mem, pos, depth, t, k);
    forall s, j | s in pos' && 0 <= j < 512 ensures SlotSound(after, pos', depth, s, j) {
      if s == page {
        if e.present {
          BaseOfBase(e.frame, levels);
          if levels == 3 { BaseShift(e.frame, 2, j); }
        }
      } else {
        assert SlotSound(mem, pos, depth, s, j);
      }
    }
  }

  lemma {:induction false} WidenKeeps(mem: Memory, pos: map<nat, Path>, root: nat, depth: nat, t: nat, k: Index,
        prot: Prot, s: nat, q: Path)
    requires Tree(mem, pos, root, depth) && t in pos && |pos[t]| + 2 <= depth
    requires !NeedsTable(mem[t][k]) && OnLevel(pos, depth, s, q)
    ensures Widened(Walk(mem, s, q), Walk(WidenSlot(mem, t, k, prot), s, q))
    decreases |q|
  {
    hide Base, Frames, Offset;
    var after := WidenSlot(mem, t, k, prot);
    var e := mem[s][q[0]];
    assert SlotSound(mem, pos, depth, s, q[0]);
    assert after[s][q[0]] == if s == t && q[0] == k then Widen(e, prot) else e;
    if e.present && |q| > 1 && !e.pageSize {
      WidenKeeps(mem, pos, root, depth, t, k, prot, e.frame, q[1..]);
    }
  }

  lemma WidenTree(mem: Memory, pos: map<nat, Path>, root: nat, depth: nat, t: nat, k: Index, prot: Prot)
    requires Tree(mem, pos, root, depth) && t in pos && !NeedsTable(mem[t][k])
    ensures Tree(WidenSlot(mem, t, k, prot), pos, root, depth)
  {
    var after := WidenSlot(mem, t, k, prot);
    forall s, j | s in pos && 0 <= j < 512 ensures SlotSound(after, pos, depth, s, j) {
      assert SlotSound(mem, pos, depth, s, j);
    }
  }

  lemma {:induction false} LeafKeeps(mem: Memory, pos: map<nat, Path>, root: nat, depth: nat, t: nat, k: Index,
        leaf: Entry, s: nat, q: Path)
    requires Tree(mem, pos, root, depth) && t in pos && |pos[t]| + 1 == depth && OnLevel(pos, depth, s, q)
    requires pos[s] + q != pos[t] + [k]
    ensures Walk(mem[t := mem[t][k := leaf]], s, q) == Walk(mem, s, q)
    decreases |q|
  {
    hide Base, Frames, Offset;
    var e := mem[s][q[0]];
    assert SlotSound(mem, pos, depth, s, q[0]);
    if s == t {
      assert q == [q[0]];
    }
    if e.present && |q| > 1 && !e.pageSize {
      assert (pos[s] + [q[0]]) + q[1..] == pos[s] + q;
      LeafKeeps(mem, pos, root, depth, t, k, leaf, e.frame, q[1..]);
    }
  }

  lemma LeafTree(mem: Memory, pos: map<nat, Path>, root: nat, depth: nat, t: nat, k: Index, leaf: Entry)
    requires Tree(mem, pos, root, depth) && t in pos && |pos[t]| + 1 == depth
    ensures Tree(mem[t := mem[t][k := leaf]], pos, root, depth)
  {
    var after := mem[t := mem[t][k := leaf]];
    forall s, j | s in pos && 0 <= j < 512 ensures SlotSound(after, pos, depth, s, j) {
      assert SlotSound(mem, pos, depth, s, j);
    }
  }

  // ----- the whole call -----

  ghost predicate Extends(pos: map<nat, Path>, pos': map<nat, Path>)
  {
    forall s :: s in pos ==> s in pos' && pos'[s] == pos[s]
  }

  /**
    Every page but, on success, the target keeps its frame and own rights, and its effective rights are not
    narrowed.
  */
  ghost predicate OthersKept(mem: Memory, r: Outcome, pos: map<nat, Path>, depth: nat, target: Path)
  {
    forall s, q :: OnLevel(pos, depth, s, q) && (!r.ok || pos[s] + q != target) ==>
      Widened(Walk(mem, s, q), Walk(r.memory, s, q))
  }

  ghost predicate ShallowKept(mem: Memory, r: Outcome, pos: map<nat, Path>, level: nat)
  {
    forall s :: s in pos && s in mem && |pos[s]| < level ==> s in r.memory && r.memory[s] == mem[s]
  }

  lemma {:induction false} RemapKeeps(mem: Memory, pool: seq<Option<nat>>, pos: map<nat, Path>, root: nat, depth: nat,
                                      t: nat, path: Path, frame: nat, prot: Prot) returns (pos': map<nat, Path>)
    requires Tree(mem, pos, root, depth) && FreshPool(pool, pos) && OnLevel(pos, depth, t, path)
    ensures var r := RemapFrom(mem, pool, t, path, frame, prot);
            && Tree(r.memory, pos', root, depth) && FreshPool(r.pool, pos') && Extends(pos, pos')
            && OthersKept(mem, r, pos, depth, pos[t] + path)
            && ShallowKept(mem, r, pos, |pos[t]|)
    decreases |path|, 0
  {
    hide Walk, WalkEntry, NewTable, Widen, SlotSound;
    var e, k := mem[t][path[0]], path[0];
    var r := RemapFrom(mem, pool, t, path, frame, prot);
    pos' := pos;
    if |path| == 1 {
      assert path == [k];
      LeafTree(mem, pos, root, depth, t, k, Leaf(frame, prot));
      forall s, q | OnLevel(pos, depth, s, q) && pos[s] + q != pos[t] + path
        ensures Widened(Walk(mem, s, q), Walk(r.memory, s, q))
      {
        LeafKeeps(mem, pos, root, depth, t, k, Leaf(frame, prot), s, q);
        WidenedIsReflexive(Walk(mem, s, q));
      }
    } else if NeedsTable(e) {
      if PoolEmpty(pool) {
        forall s, q | OnLevel(pos, depth, s, q) ensures Widened(Walk(mem, s, q), Walk(r.memory, s, q)) {
          WidenedIsReflexive(Walk(mem, s, q));
        }
      } else {
        var page := pool[0].value;
        var mid := Hang(mem, t, k, |path|, page);
        HangTree(mem, pos, root, depth, t, k, page);
        forall s, q | OnLevel(pos, depth, s, q) ensures Widened(Walk(mem, s, q), Walk(mid, s, q)) {
          HangKeeps(mem, pos, root, depth, t, k, page, s, q);
          WidenedIsReflexive(Walk(mem, s, q));
        }
        pos' := RemapRest(mem, mid, pool[1..], pos, pos[page := pos[t] + [k]], root, depth, t, page, path, frame, prot);
      }
    } else {
      var mid := WidenSlot(mem, t, k, prot);
      WidenTree(mem, pos, root, depth, t, k, prot);
      forall s, q | OnLevel(pos, depth, s, q) ensures Widened(Walk(mem, s, q), Walk(mid, s, q)) {
        WidenKeeps(mem, pos, root, depth, t, k, prot, s, q);
      }
      assert SlotSound(mem, pos, depth, t, k);
      ChildOnLevel(mem, pos, depth, t, k);
      pos' := RemapRest(mem, mid, pool, pos, pos, root, depth, t, e.frame, path, frame, prot);
    }
  }

  lemma WidenedIsReflexive(m: Mapping)
    ensures Widened(m, m)
  {
  }

  lemma ChildOnLevel(mem: Memory, pos: map<nat, Path>, depth: nat, t: nat, k: Index)
    requires t in pos && t in mem && |pos[t]| + 1 < depth && SlotSound(mem, pos, depth, t, k) && !NeedsTable(mem[t][k])
    ensures mem[t][k].frame in pos && pos[mem[t][k].frame] == pos[t] + [k]
  {
  }

  /** From the state after one round, the remaining levels do the rest. */
  lemma {:induction false} RemapRest(mem: Memory, mid: Memory, pool: seq<Option<nat>>, pos: map<nat, Path>,
                                     pos1: map<nat, Path>, root: nat, depth: nat, t: nat, next: nat,
                                     path: Path, frame: nat, prot: Prot)
      returns (pos': map<nat, Path>)
    requires t in pos && |path| > 1 && |pos[t]| + |path| == depth
    requires Tree(mid, pos1, root, depth) && FreshPool(pool, pos1) && Extends(pos, pos1)
    requires next in pos1 && pos1[next] == pos[t] + [path[0]]
    requires forall s, q :: OnLevel(pos, depth, s, q) ==> Widened(Walk(mem, s, q), Walk(mid, s, q))
    requires forall s :: s in pos && s in mem && |pos[s]| < |pos[t]| ==> s in mid && mid[s] == mem[s]
    ensures var r := RemapFrom(mid, pool, next, path[1..], frame, prot);
            && Tree(r.memory, pos', root, depth) && FreshPool(r.pool, pos') && Extends(pos, pos')
            && OthersKept(mem, r, pos, depth, pos[t] + path)
            && ShallowKept(mem, r, pos, |pos[t]|)
    decreases |path| - 1, 1
  {
    hide Walk, WalkEntry, SlotSound, Tree, FreshPool, RemapFrom;
    pos' := RemapKeeps(mid, pool, pos1, root, depth, next, path[1..], frame, prot);
    var r := RemapFrom(mid, pool, next, path[1..], frame, prot);
    assert pos1[next] + path[1..] == pos[t] + path;
    forall s, q | OnLevel(pos, depth, s, q) && (!r.ok || pos[s] + q != pos[t] + path)
      ensures Widened(Walk(mem, s, q), Walk(r.memory, s, q))
    {
      assert OnLevel(pos1, depth, s, q);
    }
  }

  // ----- the target -----

  /** Some entry on the way, present and leading to a table, keeps NX because it has every other bit asked for. */
  predicate Blocked(mem: Memory, table: nat, path: Path, prot: Prot)
    decreases |path|
  {
    if |path| <= 1 || table !in mem then false
    else
      var e := mem[table][path[0]];
      !NeedsTable(e) && ((e.noExecute && Satisfies(e, prot)) || Blocked(mem, e.frame, path[1..], prot))
  }

  /** Changing one table does not matter to the tables below it. */
  lemma {:induction false} BlockedBelow(mem: Memory, mid: Memory, pos: map<nat, Path>, root: nat, depth: nat, t: nat,
                                        s: nat, path: Path, prot: Prot)
    requires Tree(mem, pos, root, depth) && t in pos && OnLevel(pos, depth, s, path) && |pos[s]| > |pos[t]|
    requires forall u :: u in pos && u != t ==> u in mid && mid[u] == mem[u]
    ensures Blocked(mid, s, path, prot) == Blocked(mem, s, path, prot)
    decreases |path|
  {
    var e := mem[s][path[0]];
    assert SlotSound(mem, pos, depth, s, path[0]);
    if |path| > 1 && !NeedsTable(e) {
      BlockedBelow(mem, mid, pos, root, depth, t, e.frame, path[1..], prot);
    }
  }

  lemma NewTableNeverBlocks(mem: Memory, e: Entry, page: nat, path: Path, prot: Prot, levels: nat)
    requires page in mem && levels >= 2 && |path| + 1 == levels && mem[page] == NewTable(e, levels)
    requires NeedsTable(e) && EntrySound(e, levels)
    ensures !Blocked(mem, page, path, prot)
  {
  }

  /**
    On success the target page maps to the frame, writable and user exactly as asked; executable
    just when EXEC was asked for and no entry on the way keeps NX.
  */
  lemma {:induction false} RemapHits(mem: Memory, pool: seq<Option<nat>>, pos: map<nat, Path>, root: nat, depth: nat,
                                     t: nat, path: Path, frame: nat, prot: Prot)
    requires Tree(mem, pos, root, depth) && FreshPool(pool, pos) && OnLevel(pos, depth, t, path)
    requires RemapFrom(mem, pool, t, path, frame, prot).ok
    ensures Walk(RemapFrom(mem, pool, t, path, frame, prot).memory, t, path) ==
            Mapped(frame, Rights(prot.write, prot.user, prot.execute),
                   Rights(prot.write, prot.user, prot.execute && !Blocked(mem, t, path, prot)))
    decreases |path|
  {
    hide SlotSound, NewTable;
    var e, k := mem[t][path[0]], path[0];
    if |path| > 1 {
      if NeedsTable(e) {
        var page := pool[0].value;
        var mid, pos1 := Hang(mem, t, k, |path|, page), pos[page := pos[t] + [k]];
        HangTree(mem, pos, root, depth, t, k, page);
        SlotIsSound(mem, pos, root, depth, t, k);
        NewTableNeverBlocks(mid, e, page, path[1..], prot, |path|);
        RemapHits(mid, pool[1..], pos1, root, depth, page, path[1..], frame, prot);
        var _ := RemapKeeps(mid, pool[1..], pos1, root, depth, page, path[1..], frame, prot);
        assert t in mid && mid[t][k] == Pointer(page);
      } else {
        var mid := WidenSlot(mem, t, k, prot);
        WidenTree(mem, pos, root, depth, t, k, prot);
        SlotIsSound(mem, pos, root, depth, t, k);
        ChildOnLevel(mem, pos, depth, t, k);
        BlockedBelow(mem, mid, pos, root, depth, t, e.frame, path[1..], prot);
        RemapHits(mid, pool, pos, root, depth, e.frame, path[1..], frame, prot);
        var _ := RemapKeeps(mid, pool, pos, root, depth, e.frame, path[1..], frame, prot);
        assert mid[t][k] == Widen(e, prot);
      }
    }
  }

  lemma SlotIsSound(mem: Memory, pos: map<nat, Path>, root: nat, depth: nat, t: nat, k: Index)
    requires Tree(mem, pos, root, depth) && t in pos
    ensures SlotSound(mem, pos, depth, t, k)
    ensures EntrySound(mem[t][k], depth - |pos[t]|)
  {
  }

  // ----- success -----

  /** Tables a call has to allocate: from the first entry on the way that leads to none, one for each level left. */
  function Missing(mem: Memory, table: nat, path: Path): nat
    decreases |path|
  {
    if |path| <= 1 || table !in mem then 0
    else if NeedsTable(mem[table][path[0]]) then |path| - 1
    else Missing(mem, mem[table][path[0]].frame, path[1..])
  }

  /** The allocator's next `n` answers are all pages. */
  predicate Granted(pool: seq<Option<nat>>, n: nat)
  {
    n <= |pool| && forall i :: 0 <= i < n ==> pool[i].Some?
  }

  lemma {:induction false} MissingBelow(mem: Memory, mid: Memory, pos: map<nat, Path>, root: nat, depth: nat, t: nat,
                                        s: nat, path: Path)
    requires Tree(mem, pos, root, depth) && t in pos && OnLevel(pos, depth, s, path) && |pos[s]| > |pos[t]|
    requires forall u :: u in pos && u != t ==> u in mid && mid[u] == mem[u]
    ensures Missing(mid, s, path) == Missing(mem, s, path)
    decreases |path|
  {
    if |path| > 1 && !NeedsTable(mem[s][path[0]]) {
      SlotIsSound(mem, pos, root, depth, s, path[0]);
      MissingBelow(mem, mid, pos, root, depth, t, mem[s][path[0]].frame, path[1..]);
    }
  }

  /** Every level below a table the call made needs another: it is empty, or full of pages still to be split. */
  lemma NewTableMissesAll(mem: Memory, e: Entry, page: nat, path: Path, levels: nat)
    requires page in mem && levels >= 2 && |path| + 1 == levels && mem[page] == NewTable(e, levels)
    ensures Missing(mem, page, path) == |path| - 1
  {
  }

  /**
    A call succeeds just when the allocator grants every table missing on the way, and it takes
    exactly those.
  */
  lemma {:induction false} RemapSucceedsWhen(mem: Memory, pool: seq<Option<nat>>, pos: map<nat, Path>, root: nat,
                                             depth: nat, t: nat, path: Path, frame: nat, prot: Prot)
    requires Tree(mem, pos, root, depth) && FreshPool(pool, pos) && OnLevel(pos, depth, t, path)
    ensures var r, n := RemapFrom(mem, pool, t, path, frame, prot), Missing(mem, t, path);
            && (r.ok <==> Granted(pool, n))
            && (r.ok ==> r.pool == pool[n..])
    decreases |path|
  {
    hide SlotSound, NewTable;
    var e, k := mem[t][path[0]], path[0];
    if |path| > 1 {
      if !NeedsTable(e) {
        var mid := WidenSlot(mem, t, k, prot);
        WidenTree(mem, pos, root, depth, t, k, prot);
        SlotIsSound(mem, pos, root, depth, t, k);
        ChildOnLevel(mem, pos, depth, t, k);
        MissingBelow(mem, mid, pos, root, depth, t, e.frame, path[1..]);
        RemapSucceedsWhen(mid, pool, pos, root, depth, e.frame, path[1..], frame, prot);
      } else if !PoolEmpty(pool) {
        var page := pool[0].value;
        var mid, pos1 := Hang(mem, t, k, |path|, page), pos[page := pos[t] + [k]];
        HangTree(mem, pos, root, depth, t, k, page);
        NewTableMissesAll(mid, e, page, path[1..], |path|);
        RemapSucceedsWhen(mid, pool[1..], pos1, root, depth, page, path[1..], frame, prot);
        GrantedTail(pool, |path| - 1);
      }
    }
  }

  lemma GrantedTail(pool: seq<Option<nat>>, n: nat)
    requires !PoolEmpty(pool) && n > 0
    ensures Granted(pool, n) <==> Granted(pool[1..], n - 1)
    ensures Granted(pool, n) ==> pool[1..][n - 1..] == pool[n..]
  {
    if Granted(pool[1..], n - 1) {
      forall i | 0 <= i < n ensures pool[i].Some? {
        if i > 0 { assert pool[1..][i - 1].Some?; }
      }
    }
  }

  // ----- what one call leaves of the way to another page -----

  /** A call changes, of the tables it starts from, one slot of the first and tables under that slot. */
  lemma {:induction false} RemapTouchesOnly(mem: Memory, pool: seq<Option<nat>>, pos: map<nat, Path>, root: nat,
                                            depth: nat, t: nat, path: Path, frame: nat, prot: Prot)
    requires Tree(mem, pos, root, depth) && FreshPool(pool, pos) && OnLevel(pos, depth, t, path)
    ensures var after := RemapFrom(mem, pool, t, path, frame, prot).memory;
            && t in after && (forall j :: 0 <= j < 512 && j != path[0] ==> after[t][j] == mem[t][j])
            && (forall s :: s in pos && s != t && !(pos[t] + [path[0]] <= pos[s]) ==> s in after && after[s] == mem[s])
    decreases |path|
  {
    hide SlotSound, NewTable;
    var e, k := mem[t][path[0]], path[0];
    if |path| > 1 {
      if !NeedsTable(e) {
        WidenTree(mem, pos, root, depth, t, k, prot);
        SlotIsSound(mem, pos, root, depth, t, k);
        ChildOnLevel(mem, pos, depth, t, k);
        RemapTouchesOnly(WidenSlot(mem, t, k, prot), pool, pos, root, depth, e.frame, path[1..], frame, prot);
        NotUnderDeeper(pos, pos, t, e.frame, k, path[1]);
      } else if !PoolEmpty(pool) {
        var page := pool[0].value;
        var pos1 := pos[page := pos[t] + [k]];
        HangTree(mem, pos, root, depth, t, k, page);
        RemapTouchesOnly(Hang(mem, t, k, |path|, page), pool[1..], pos1, root, depth, page, path[1..], frame, prot);
        NotUnderDeeper(pos, pos1, t, page, k, path[1]);
      }
    }
  }

  lemma NotUnderDeeper(pos: map<nat, Path>, pos1: map<nat, Path>, t: nat, next: nat, k: Index, k1: Index)
    requires t in pos && next in pos1 && pos1[next] == pos[t] + [k] && Extends(pos, pos1)
    ensures forall s :: s in pos && !(pos[t] + [k] <= pos[s]) ==> s != next && !(pos1[next] + [k1] <= pos1[s])
    ensures !(pos1[next] + [k1] <= pos1[t]) && t != next
  {
    forall s | s in pos && pos1[next] + [k1] <= pos1[s] ensures pos[t] + [k] <= pos[s] {
      assert pos1[next] == (pos1[next] + [k1])[..|pos1[next]|];
    }
  }

  /** Blocking from a table on depends only on tables placed under it. */
  lemma {:induction false} BlockedAside(mem: Memory, after: Memory, pos: map<nat, Path>, root: nat, depth: nat,
                                        place: Path, s: nat, path: Path, prot: Prot)
    requires Tree(mem, pos, root, depth) && OnLevel(pos, depth, s, path) && place <= pos[s]
    requires forall u :: u in pos && place <= pos[u] ==> u in after && after[u] == mem[u]
    ensures Blocked(after, s, path, prot) == Blocked(mem, s, path, prot)
    decreases |path|
  {
    if |path| > 1 && !NeedsTable(mem[s][path[0]]) {
      SlotIsSound(mem, pos, root, depth, s, path[0]);
      BlockedAside(mem, after, pos, root, depth, place, mem[s][path[0]].frame, path[1..], prot);
    }
  }

  /** An entry on the way to `code`, after it parts from the way to `data`, would keep NX. */
  predicate BlockedApart(mem: Memory, table: nat, data: Path, code: Path, prot: Prot)
    decreases |code|
  {
    if |code| <= 1 || |data| != |code| || table !in mem then false
    else if data[0] != code[0] then Blocked(mem, table, code, prot)
    else
      !NeedsTable(mem[table][code[0]])
      && BlockedApart(mem, mem[table][code[0]].frame, data[1..], code[1..], prot)
  }

  lemma {:induction false} BlockedApartBelow(mem: Memory, mid: Memory, pos: map<nat, Path>, root: nat, depth: nat,
                                             t: nat, s: nat, data: Path, code: Path, prot: Prot)
    requires Tree(mem, pos, root, depth) && t in pos && OnLevel(pos, depth, s, code) && |pos[s]| > |pos[t]|
    requires forall u :: u in pos && u != t ==> u in mid && mid[u] == mem[u]
    ensures BlockedApart(mid, s, data, code, prot) == BlockedApart(mem, s, data, code, prot)
    decreases |code|
  {
    if |code| > 1 && |data| == |code| {
      if data[0] != code[0] {
        BlockedBelow(mem, mid, pos, root, depth, t, s, code, prot);
      } else if !NeedsTable(mem[s][code[0]]) {
        SlotIsSound(mem, pos, root, depth, s, code[0]);
        BlockedApartBelow(mem, mid, pos, root, depth, t, mem[s][code[0]].frame, data[1..], code[1..], prot);
      }
    }
  }

  lemma NewTableNeverBlocksApart(mem: Memory, e: Entry, page: nat, data: Path, code: Path, prot: Prot, levels: nat)
    requires page in mem && levels >= 2 && |code| + 1 == levels && mem[page] == NewTable(e, levels)
    requires NeedsTable(e) && EntrySound(e, levels)
    ensures !BlockedApart(mem, page, data, code, prot)
  {
    NewTableNeverBlocks(mem, e, page, code, prot, levels);
  }

  /**
    A call without EXEC clears NX from all of its own way, so afterwards the way to another page is
    blocked just when it was already blocked where the two have parted.
  */
  lemma {:induction false} BlockedAfterData(mem: Memory, pool: seq<Option<nat>>, pos: map<nat, Path>, root: nat,
                                            depth: nat, t: nat, data: Path, code: Path, frame: nat, prot: Prot,
                                            exec: Prot)
    requires Tree(mem, pos, root, depth) && FreshPool(pool, pos) && OnLevel(pos, depth, t, data)
    requires |code| == |data| && !prot.execute
    ensures Blocked(RemapFrom(mem, pool, t, data, frame, prot).memory, t, code, exec)
            == BlockedApart(mem, t, data, code, exec)
    decreases |data|
  {
    hide SlotSound, NewTable;
    var e, k := mem[t][data[0]], data[0];
    var after := RemapFrom(mem, pool, t, data, frame, prot).memory;
    if |data| > 1 {
      SlotIsSound(mem, pos, root, depth, t, code[0]);
      if data[0] != code[0] {
        RemapTouchesOnly(mem, pool, pos, root, depth, t, data, frame, prot);
        if !NeedsTable(mem[t][code[0]]) {
          ChildOnLevel(mem, pos, depth, t, code[0]);
          PartedPlaces(pos, t, k, code[0]);
          BlockedAside(mem, after, pos, root, depth, pos[t] + [code[0]], mem[t][code[0]].frame, code[1..], exec);
        }
      } else if !NeedsTable(e) {
        var mid := WidenSlot(mem, t, k, prot);
        WidenTree(mem, pos, root, depth, t, k, prot);
        ChildOnLevel(mem, pos, depth, t, k);
        BlockedApartBelow(mem, mid, pos, root, depth, t, e.frame, data[1..], code[1..], exec);
        BlockedAfterData(mid, pool, pos, root, depth, e.frame, data[1..], code[1..], frame, prot, exec);
        var _ := RemapKeeps(mid, pool, pos, root, depth, e.frame, data[1..], frame, prot);
        assert mid[t][k] == Widen(e, prot);
      } else if !PoolEmpty(pool) {
        var page := pool[0].value;
        var mid, pos1 := Hang(mem, t, k, |data|, page), pos[page := pos[t] + [k]];
        HangTree(mem, pos, root, depth, t, k, page);
        NewTableNeverBlocksApart(mid, e, page, data[1..], code[1..], exec, |data|);
        BlockedAfterData(mid, pool[1..], pos1, root, depth, page, data[1..], code[1..], frame, prot, exec);
        var _ := RemapKeeps(mid, pool[1..], pos1, root, depth, page, data[1..], frame, prot);
        assert t in mid && mid[t][k] == Pointer(page);
      }
    }
  }

  lemma PartedPlaces(pos: map<nat, Path>, t: nat, k: Index, j: Index)
    requires t in pos && k != j
    ensures forall u :: u in pos && pos[t] + [j] <= pos[u] ==> u != t && !(pos[t] + [k] <= pos[u])
  {
    forall u | u in pos && pos[t] + [j] <= pos[u] ensures u != t && !(pos[t] + [k] <= pos[u]) {
      assert pos[u][|pos[t]|] == (pos[t] + [j])[|pos[t]|] == j;
      assert (pos[t] + [k])[|pos[t]|] == k;
    }
  }

  /** Ways that differ in the last index only never part above a table of pages. */
  lemma {:induction false} SharedWayNeverBlocks(mem: Memory, table: nat, data: Path, code: Path, prot: Prot)
    requires data != [] && |data| == |code| && data[..|data| - 1] == code[..|data| - 1]
    ensures !BlockedApart(mem, table, data, code, prot)
    decreases |code|
  {
    if |code| > 1 && table in mem {
      assert data[..|data| - 1][0] == code[..|data| - 1][0];
      assert data[1..][..|data| - 2] == data[..|data| - 1][1..] == code[..|data| - 1][1..] == code[1..][..|data| - 2];
      SharedWayNeverBlocks(mem, mem[table][code[0]].frame, data[1..], code[1..], prot);
    }
  }

  // ----- repetition -----

  /** All tables on the way exist. */
  predicate Built(mem: Memory, table: nat, path: Path)
    decreases |path|
  {
    table in mem && path != [] &&
    (|path| > 1 ==> !NeedsTable(mem[table][path[0]]) && Built(mem, mem[table][path[0]].frame, path[1..]))
  }

  /** Nothing is left to change on the way to the page. */
  predicate Settled(mem: Memory, table: nat, path: Path, frame: nat, prot: Prot)
    decreases |path|
  {
    table in mem && path != [] &&
    var e := mem[table][path[0]];
    if |path| == 1 then e == Leaf(frame, prot)
    else !NeedsTable(e) && Satisfies(e, prot) && Settled(mem, e.frame, path[1..], frame, prot)
  }

  /** A success leaves the way to the page settled. */
  lemma {:induction false} RemapSettles(mem: Memory, pool: seq<Option<nat>>, pos: map<nat, Path>, root: nat, depth: nat,
                                        t: nat, path: Path, frame: nat, prot: Prot)
    requires Tree(mem, pos, root, depth) && FreshPool(pool, pos) && OnLevel(pos, depth, t, path)
    requires RemapFrom(mem, pool, t, path, frame, prot).ok
    ensures Settled(RemapFrom(mem, pool, t, path, frame, prot).memory, t, path, frame, prot)
    decreases |path|
  {
    hide SlotSound, NewTable;
    var e, k := mem[t][path[0]], path[0];
    if |path| > 1 {
      if NeedsTable(e) {
        var page := pool[0].value;
        var mid, pos1 := Hang(mem, t, k, |path|, page), pos[page := pos[t] + [k]];
        HangTree(mem, pos, root, depth, t, k, page);
        RemapSettles(mid, pool[1..], pos1, root, depth, page, path[1..], frame, prot);
        var _ := RemapKeeps(mid, pool[1..], pos1, root, depth, page, path[1..], frame, prot);
        assert t in mid && mid[t][k] == Pointer(page);
      } else {
        var mid := WidenSlot(mem, t, k, prot);
        WidenTree(mem, pos, root, depth, t, k, prot);
        SlotIsSound(mem, pos, root, depth, t, k);
        ChildOnLevel(mem, pos, depth, t, k);
        RemapSettles(mid, pool, pos, root, depth, e.frame, path[1..], frame, prot);
        var _ := RemapKeeps(mid, pool, pos, root, depth, e.frame, path[1..], frame, prot);
        assert mid[t][k] == Widen(e, prot);
      }
    }
  }

  /** Remapping a settled page with the same arguments changes no entry and asks for no page. */
  lemma {:induction false} SettledStays(mem: Memory, pool: seq<Option<nat>>, table: nat, path: Path, frame: nat,
        prot: Prot)
    requires Settled(mem, table, path, frame, prot)
    ensures RemapFrom(mem, pool, table, path, frame, prot) == Outcome(true, mem, pool)
    ensures Built(mem, table, path)
    decreases |path|
  {
    var e := mem[table][path[0]];
    if |path| > 1 {
      assert mem[table][path[0] := e] == mem[table];
      assert WidenSlot(mem, table, path[0], prot) == mem;
      SettledStays(mem, pool, e.frame, path[1..], frame, prot);
    } else {
      assert mem[table][path[0] := e] == mem[table];
      assert mem[table := mem[table]] == mem;
    }
  }

  /** Remapping a page whose tables exist, to anything, succeeds and asks for no page. */
  lemma {:induction false} BuiltNeedsNoPages(mem: Memory, pool: seq<Option<nat>>, pos: map<nat, Path>, root: nat,
                                             depth: nat, t: nat, path: Path, frame: nat, prot: Prot)
    requires Tree(mem, pos, root, depth) && OnLevel(pos, depth, t, path) && Built(mem, t, path)
    ensures var r := RemapFrom(mem, pool, t, path, frame, prot); r.ok && r.pool == pool
    decreases |path|
  {
    if |path| > 1 {
      var e, mid := mem[t][path[0]], WidenSlot(mem, t, path[0], prot);
      SlotIsSound(mem, pos, root, depth, t, path[0]);
      WidenTree(mem, pos, root, depth, t, path[0], prot);
      BuiltBelow(mem, mid, pos, root, depth, t, e.frame, path[1..]);
      BuiltNeedsNoPages(mid, pool, pos, root, depth, e.frame, path[1..], frame, prot);
    }
  }

  lemma {:induction false} BuiltBelow(mem: Memory, mid: Memory, pos: map<nat, Path>, root: nat, depth: nat, t: nat,
        s: nat, path: Path)
    requires Tree(mem, pos, root, depth) && t in pos && OnLevel(pos, depth, s, path) && |pos[s]| > |pos[t]|
    requires forall u :: u in pos && u != t ==> u in mid && mid[u] == mem[u]
    requires Built(mem, s, path)
    ensures Built(mid, s, path)
    decreases |path|
  {
    if |path| > 1 {
      SlotIsSound(mem, pos, root, depth, s, path[0]);
      BuiltBelow(mem, mid, pos, root, depth, t, mem[s][path[0]].frame, path[1..]);
    }
  }
}
