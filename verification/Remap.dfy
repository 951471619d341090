/** What src/remap.c:42-125 does to the tables, one level at a time. */
module Remap {
  import opened Wrappers
  import opened PageTables

  /** PROT_WRITE, PROT_EXEC and PROT_USER; PROT_READ changes nothing. */
  datatype Prot = Prot(write: bool, execute: bool, user: bool)

  function Leaf(frame: nat, prot: Prot): Entry
  {
    Entry(true, prot.write, prot.user, false, !prot.execute, frame, 0)
  }

  /** The entry that leads to a table the call allocated. */
  function Pointer(frame: nat): Entry { Entry(true, true, true, false, false, frame, 0) }

  /** Entry `j` of a page with `levels` levels left, split: only below a page directory does the size bit go. */
  function SplitEntry(e: Entry, levels: nat, j: nat): Entry
    requires levels >= 2
  {
    e.(pageSize := levels != 2 && e.pageSize, frame := e.frame + Frames(levels - 1, j))
  }

  function NewTable(e: Entry, levels: nat): Table
    requires levels >= 2
  {
    if e.pageSize then seq(512, j requires 0 <= j < 512 => SplitEntry(e, levels, j)) else seq(512, _ => EMPTY)
  }

  /** The test of src/remap.c:106 finds nothing to do; with EXEC requested it does not look at NX. */
  predicate Satisfies(e: Entry, prot: Prot)
  {
    e.present && (prot.write ==> e.writable) && (prot.user ==> e.user) && (!prot.execute ==> !e.noExecute)
  }

  function Widen(e: Entry, prot: Prot): Entry
  {
    if Satisfies(e, prot) then e
    else e.(present := true, writable := e.writable || prot.write, user := e.user || prot.user, noExecute := false)
  }

  predicate NeedsTable(e: Entry) { !e.present || e.pageSize }

  /** Success, the memory left behind, and what the page allocator will still answer. */
  datatype Outcome = Outcome(ok: bool, memory: Memory, pool: seq<Option<nat>>)

  predicate PoolEmpty(pool: seq<Option<nat>>) { pool == [] || pool[0] == None }

  /** One round of the loop on an entry that needs a table. */
  function Hang(mem: Memory, table: nat, k: Index, levels: nat, page: nat): Memory
    requires table in mem && levels >= 2
  {
    var e := mem[table][k];
    mem[page := NewTable(e, levels)][table := mem[table][k := Pointer(page)]]
  }

  /** One round of the loop on an entry that already leads to a table. */
  function WidenSlot(mem: Memory, table: nat, k: Index, prot: Prot): Memory
    requires table in mem
  {
    mem[table := mem[table][k := Widen(mem[table][k], prot)]]
  }

  /** `pool` lists the allocator's coming answers: a free frame, or failure. */
  function RemapFrom(mem: Memory, pool: seq<Option<nat>>, table: nat, path: Path, frame: nat, prot: Prot): Outcome
    requires path != []
    decreases |path|
  {
    if table !in mem then Outcome(false, mem, pool)
    else
      var e := mem[table][path[0]];
      if |path| == 1 then Outcome(true, mem[table := mem[table][path[0] := Leaf(frame, prot)]], pool)
      else if NeedsTable(e) then
        if pool == [] then Outcome(false, mem, pool)
        else if pool[0] == None then Outcome(false, mem, pool[1..])
        else
          var page := pool[0].value;
          RemapFrom(Hang(mem, table, path[0], |path|, page), pool[1..], page, path[1..], frame, prot)
      else RemapFrom(WidenSlot(mem, table, path[0], prot), pool, e.frame, path[1..], frame, prot)
  }

  /** Pages the allocator hands out are distinct and hold none of the tables. */
  ghost predicate FreshPool(pool: seq<Option<nat>>, pos: map<nat, Path>)
  {
    && (forall i :: 0 <= i < |pool| && pool[i].Some? ==> pool[i].value !in pos)
    && (forall i, j :: 0 <= i < j < |pool| && pool[i].Some? && pool[j].Some? ==> pool[i].value != pool[j].value)
  }
}
