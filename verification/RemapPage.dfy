/** The page-table editor of src/remap.c over the memory it updates. */
module RemapPage {
  import opened Bytes
  import opened Wrappers
  import opened PageTables
  import opened Remap
  import opened RemapProperties

  /** enum page_table_levels */
  const PML5 := 0
  const PML4 := 1
  const PDPT := 2
  const PD := 3
  const PT := 4

  function TableIndex(virt: u64, shift: nat): Index
    requires shift > 0
  {
    virt / shift % 512
  }

  function TableIndices(virt: u64): (p: Path)
    ensures |p| == PT + 1
  {
    [TableIndex(virt, 0x1_0000_0000_0000), TableIndex(virt, 0x80_0000_0000), TableIndex(virt, 0x4000_0000),
     TableIndex(virt, 0x20_0000), TableIndex(virt, 0x1000)]
  }

  /** The path of a virtual address under four-level paging or, with CR4.LA57, five-level paging. */
  function PathOf(virt: u64, la57: bool): (p: Path)
    ensures |p| == Depth(la57)
  {
    if la57 then TableIndices(virt) else TableIndices(virt)[PML4..]
  }

  function Depth(la57: bool): nat { if la57 then 5 else 4 }

  /** Memory after a write to one entry of a table. */
  function WithEntry(mem: Memory, table: nat, k: Index, e: Entry): Memory
    requires table in mem
  {
    mem[table := mem[table][k := e]]
  }

  class PageTableEditor {
    var memory: Memory
    var pool: seq<Option<nat>>
    var writeProtect: bool
    const root: nat
    const la57: bool

    constructor (memory: Memory, pool: seq<Option<nat>>, writeProtect: bool, root: nat, la57: bool)
      ensures this.memory == memory && this.pool == pool && this.writeProtect == writeProtect
      ensures this.root == root && this.la57 == la57
    {
      this.memory, this.pool, this.writeProtect, this.root, this.la57 := memory, pool, writeProtect, root, la57;
    }

    /** src/remap.c:15-24 */
    method AllocateZeroedPage() returns (page: Option<nat>)
      modifies this`memory, this`pool
      ensures page == if PoolEmpty(old(pool)) then None else old(pool)[0]
      ensures pool == if old(pool) == [] then [] else old(pool)[1..]
      ensures memory == if page.Some? then old(memory)[page.value := seq(512, _ => EMPTY)] else old(memory)
    {
      if pool == [] {
        return None;
      }
      page, pool := pool[0], pool[1..];
      if page.Some? {
        memory := memory[page.value := seq(512, _ => EMPTY)];
      }
    }

    /** src/remap.c:87-100: the entries of a new table below level `i`. */
    method SplitPage(e: Entry, i: nat) returns (t: Table)
      requires i < PT && e.pageSize
      ensures t == NewTable(e, PT + 1 - i)
    {
      var entry := e;
      if i == PD {
        entry := entry.(pageSize := false);
      }
      var newPageTable := new Entry[512](_ => EMPTY);
      for j := 0 to 512
        invariant forall x :: 0 <= x < j ==> newPageTable[x] == SplitEntry(e, PT + 1 - i, x)
      {
        newPageTable[j] := entry.(frame := entry.frame + Frames(PT - i, j));
      }
      t := newPageTable[..];
    }

    /** src/remap.c:79-103: the table for entry `k`, which leads to it from then on. */
    method NewPageTable(table: nat, k: Index, i: nat) returns (page: Option<nat>)
      requires i < PT && table in memory && (!PoolEmpty(pool) ==> pool[0].value != table)
      modifies this`memory, this`pool
      ensures page == if PoolEmpty(old(pool)) then None else old(pool)[0]
      ensures pool == if old(pool) == [] then [] else old(pool)[1..]
      ensures memory == if page.Some? then Hang(old(memory), table, k, PT + 1 - i, page.value) else old(memory)
    {
      hide SplitEntry;
      var e := memory[table][k];
      page := AllocateZeroedPage();
      if page.Some? {
        if e.pageSize {
          var entries := SplitPage(e, i);
          memory := memory[page.value := entries];
        }
        memory := WithEntry(memory, table, k, Pointer(page.value));
      }
    }

    /**
      src/remap.c:42-125. `pos` is any evidence that the tables form a tree; a physical address has at
      most 52 bits. CR0.WP is cleared at the start, and stays cleared unless the allocator grants
      every table that is missing on the way to the page.
    */
    method RemapPage(virt: u64, phys: u64, prot: Prot, ghost pos: map<nat, Path>) returns (ok: bool)
      requires Tree(memory, pos, root, Depth(la57)) && FreshPool(pool, pos)
      requires phys % 0x1000 == 0 && phys < 0x10_0000_0000_0000
      modifies this
      ensures Outcome(ok, memory, pool) ==
              RemapFrom(old(memory), old(pool), root, PathOf(virt, la57), phys / 0x1000, prot)
      ensures var granted := Granted(old(pool), Missing(old(memory), root, PathOf(virt, la57)));
              ok == granted && writeProtect == (granted && old(writeProtect))
    {
      hide Tree, FreshPool, OnLevel, Hang, RemapFrom, Missing, Granted, TableIndices, Widen, WithEntry;
      var curPageTable := root;
      var origWriteProtect := writeProtect;
      writeProtect := false;
      var i := if la57 then PML5 else PML4;
      var ptIndexes := TableIndices(virt);
      ghost var depth, places := Depth(la57), pos;
      ghost var goal := RemapFrom(memory, pool, root, ptIndexes[i..], phys / 0x1000, prot);
      RootOnLevel(memory, pos, root, depth, ptIndexes[i..]);
      RemapSucceedsWhen(memory, pool, pos, root, depth, root, ptIndexes[i..], phys / 0x1000, prot);
      while i < PT
        invariant i <= PT && writeProtect == false
        invariant Tree(memory, places, root, depth) && FreshPool(pool, places)
        invariant OnLevel(places, depth, curPageTable, ptIndexes[i..])
        invariant RemapFrom(memory, pool, curPageTable, ptIndexes[i..], phys / 0x1000, prot) == goal
      {
        ghost var before, path := memory, ptIndexes[i..];
        assert path[0] == ptIndexes[i] && path[1..] == ptIndexes[i + 1..];
        InTree(memory, places, root, depth, curPageTable, path);
        var curPte := memory[curPageTable][ptIndexes[i]];

        if !curPte.present || curPte.pageSize {
          HangRound(memory, pool, places, root, depth, curPageTable, path, phys / 0x1000, prot);
          var newPageTable := NewPageTable(curPageTable, ptIndexes[i], i);
          if newPageTable == None {
            return false;
          }
          var page := newPageTable.value;
          places := places[page := places[curPageTable] + [ptIndexes[i]]];
          curPte := Pointer(page);
        } else {
          WidenRound(memory, pool, places, root, depth, curPageTable, path, phys / 0x1000, prot);
        }

        if !Satisfies(curPte, prot) {
          memory := WithEntry(memory, curPageTable, ptIndexes[i], Widen(curPte, prot));
        }

        curPageTable := curPte.frame;
        i := i + 1;
      }
      InTree(memory, places, root, depth, curPageTable, ptIndexes[PT..]);
      assert ptIndexes[PT..] == [ptIndexes[PT]];
      RemapRound(memory, pool, curPageTable, ptIndexes[PT..], phys / 0x1000, prot);
      memory := WithEntry(memory, curPageTable, ptIndexes[PT], Leaf(phys / 0x1000, prot));
      writeProtect := origWriteProtect;
      ok := true;
    }
  }

  /** One round, or the last write, of the specification. */
  lemma RemapRound(mem: Memory, pool: seq<Option<nat>>, t: nat, path: Path, frame: nat, prot: Prot)
    requires t in mem && path != []
    ensures var e, r := mem[t][path[0]], RemapFrom(mem, pool, t, path, frame, prot);
            if |path| == 1 then r == Outcome(true, WithEntry(mem, t, path[0], Leaf(frame, prot)), pool)
            else if !NeedsTable(e) then
              r == RemapFrom(WidenSlot(mem, t, path[0], prot), pool, e.frame, path[1..], frame, prot)
            else if PoolEmpty(pool) then r == Outcome(false, mem, if pool == [] then [] else pool[1..])
            else
              var page := pool[0].value;
              r == RemapFrom(Hang(mem, t, path[0], |path|, page), pool[1..], page, path[1..], frame, prot)
  {
  }

  /** A round on an entry that needs a table: what the allocator answers decides. */
  lemma HangRound(mem: Memory, pool: seq<Option<nat>>, pos: map<nat, Path>, root: nat, depth: nat, t: nat,
                  path: Path, frame: nat, prot: Prot)
    requires Tree(mem, pos, root, depth) && FreshPool(pool, pos) && OnLevel(pos, depth, t, path) && |path| > 1
    requires t in mem && NeedsTable(mem[t][path[0]])
    ensures var r := RemapFrom(mem, pool, t, path, frame, prot);
            if PoolEmpty(pool) then r == Outcome(false, mem, if pool == [] then [] else pool[1..])
            else
              var page := pool[0].value;
              var next, pos' := Hang(mem, t, path[0], |path|, page), pos[page := pos[t] + [path[0]]];
              && page != t
              && Tree(next, pos', root, depth) && FreshPool(pool[1..], pos') && OnLevel(pos', depth, page, path[1..])
              && r == RemapFrom(next, pool[1..], page, path[1..], frame, prot)
  {
    hide Tree, NewTable, FreshPool, RemapFrom;
    RemapRound(mem, pool, t, path, frame, prot);
    if !PoolEmpty(pool) {
      var page := pool[0].value;
      NextIsFresh(pool, pos, pos[t] + [path[0]]);
      HangTree(mem, pos, root, depth, t, path[0], page);
    }
  }

  /** A round on an entry that leads to a table. */
  lemma WidenRound(mem: Memory, pool: seq<Option<nat>>, pos: map<nat, Path>, root: nat, depth: nat, t: nat,
                   path: Path, frame: nat, prot: Prot)
    requires Tree(mem, pos, root, depth) && FreshPool(pool, pos) && OnLevel(pos, depth, t, path) && |path| > 1
    requires t in mem && !NeedsTable(mem[t][path[0]])
    ensures var e := mem[t][path[0]];
            var next := if Satisfies(e, prot) then mem else WithEntry(mem, t, path[0], Widen(e, prot));
            && Tree(next, pos, root, depth) && OnLevel(pos, depth, e.frame, path[1..])
            && RemapFrom(mem, pool, t, path, frame, prot) ==
               RemapFrom(next, pool, e.frame, path[1..], frame, prot)
  {
    hide Tree, FreshPool, RemapFrom;
    RemapRound(mem, pool, t, path, frame, prot);
    WidenTree(mem, pos, root, depth, t, path[0], prot);
    SlotIsSound(mem, pos, root, depth, t, path[0]);
    ChildOnLevel(mem, pos, depth, t, path[0]);
    WriteBack(mem, t, path[0]);
  }

  lemma WriteBack(mem: Memory, t: nat, k: Index)
    requires t in mem
    ensures mem[t := mem[t][k := mem[t][k]]] == mem
  {
    assert mem[t][k := mem[t][k]] == mem[t];
  }

  lemma RootOnLevel(mem: Memory, pos: map<nat, Path>, root: nat, depth: nat, path: Path)
    requires Tree(mem, pos, root, depth) && |path| == depth
    ensures OnLevel(pos, depth, root, path) && pos[root] == []
  {
  }

  lemma InTree(mem: Memory, pos: map<nat, Path>, root: nat, depth: nat, t: nat, path: Path)
    requires Tree(mem, pos, root, depth) && OnLevel(pos, depth, t, path)
    ensures t in mem && t in pos && |pos[t]| < depth
  {
  }

  lemma NextIsFresh(pool: seq<Option<nat>>, pos: map<nat, Path>, p: Path)
    requires FreshPool(pool, pos) && !PoolEmpty(pool)
    ensures pool[0].value !in pos
    ensures FreshPool(pool[1..], pos[pool[0].value := p])
  {
  }
}
