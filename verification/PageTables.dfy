/**
  Page tables and what the processor makes of them: the walk of Intel SDM Vol. 3A, section 4.5,
  with the access rights of section 4.6. A table is named by its frame number; a page by its path,
  one index for each level. Entries have bits 52 to 62 clear.
*/
module PageTables {
  /** Bits 0, 1, 2, 7 and 63, the frame in bits 12 to 51, and the remaining low bits. */
  datatype Entry = Entry(present: bool, writable: bool, user: bool, pageSize: bool, noExecute: bool, frame: nat,
      other: nat)

  const EMPTY := Entry(false, false, false, false, false, 0, 0)

  type Table = t: seq<Entry> | |t| == 512 witness seq(512, _ => EMPTY)

  type Memory = map<nat, Table>

  type Index = i: nat | i < 512

  type Path = seq<Index>

  datatype Rights = Rights(write: bool, user: bool, execute: bool)

  function Own(e: Entry): Rights { Rights(e.writable, e.user, !e.noExecute) }

  function Meet(a: Rights, b: Rights): Rights
  {
    Rights(a.write && b.write, a.user && b.user, a.execute && b.execute)
  }

  predicate Within(a: Rights, b: Rights)
  {
    (a.write ==> b.write) && (a.user ==> b.user) && (a.execute ==> b.execute)
  }

  /** The page's frame, the rights of the entry that maps it, and those left after all levels. */
  datatype Mapping = Unmapped | Mapped(frame: nat, own: Rights, effective: Rights)

  function Restrict(m: Mapping, r: Rights): Mapping
  {
    match m
    case Unmapped => Unmapped
    case Mapped(frame, own, effective) => Mapped(frame, own, Meet(effective, r))
  }

  /** 4K frames spanned by `count` entries with so many levels left, themselves included. */
  function Frames(levels: nat, count: nat): nat
  {
    if levels <= 1 then count
    else if levels == 2 then 0x200 * count
    else if levels == 3 then 0x40000 * count
    else if levels == 4 then 0x8000000 * count
    else 0x1000000000 * count
  }

  function Offset(path: Path): nat
  {
    if path == [] then 0 else Frames(|path|, path[0]) + Offset(path[1..])
  }

  /** A huge page starts at a multiple of its size; the bits below, PAT among them, do not address. */
  function Base(frame: nat, levels: nat): nat
  {
    if levels == 2 then frame - frame % 0x200 else if levels == 3 then frame - frame % 0x40000 else frame
  }

  function WalkEntry(mem: Memory, e: Entry, path: Path): Mapping
    requires path != []
    decreases |path|, 0
  {
    if !e.present then Unmapped
    else if |path| == 1 || (e.pageSize && |path| <= 3) then
      Mapped(Base(e.frame, |path|) + Offset(path[1..]), Own(e), Own(e))
    else Restrict(Walk(mem, e.frame, path[1..]), Own(e))
  }

  /** What a path leads to from a table on its level. */
  function Walk(mem: Memory, table: nat, path: Path): Mapping
    requires path != []
    decreases |path|, 1
  {
    if table !in mem then Unmapped else WalkEntry(mem, mem[table][path[0]], path)
  }

  /**
    Where a walk ends: at a page of 4 KB, or one of 2 MB or 1 GB, at the offset the rest of the path
    gives; from level 4 upward the page size bit means nothing.
  */
  lemma WalkEndsInPage(mem: Memory, e: Entry, path: Path)
    requires path != [] && e.present
    ensures |path| == 1 ==> WalkEntry(mem, e, path) == Mapped(e.frame, Own(e), Own(e))
    ensures |path| in {2, 3} && e.pageSize ==>
              var m := WalkEntry(mem, e, path); var size := if |path| == 2 then 0x200 else 0x4_0000;
              && m.Mapped? && m.own == m.effective == Own(e)
              && m.frame / size == e.frame / size
              && m.frame % size == if |path| == 2 then path[1] as int else 0x200 * path[1] as int + path[2] as int
    ensures |path| >= 4 || (|path| > 1 && !e.pageSize) ==>
              WalkEntry(mem, e, path) == Restrict(Walk(mem, e.frame, path[1..]), Own(e))
  {
    if |path| == 2 {
      assert Offset(path[1..]) == path[1] as int;
    } else if |path| == 3 {
      assert Offset(path[2..]) == path[2] as int;
      assert path[1..][1..] == path[2..];
      assert Offset(path[1..]) == 0x200 * path[1] as int + path[2] as int;
    }
  }

  lemma {:induction false} EffectiveWithinOwn(mem: Memory, table: nat, path: Path)
    requires path != []
    ensures var m := Walk(mem, table, path); m.Mapped? ==> Within(m.effective, m.own)
    decreases |path|
  {
    if table in mem && |path| > 1 {
      EffectiveWithinOwn(mem, mem[table][path[0]].frame, path[1..]);
    }
  }

  /** Same frame, same own rights, and rights never narrower. */
  predicate Widened(a: Mapping, b: Mapping)
  {
    match a
    case Unmapped => b.Unmapped?
    case Mapped(frame, own, effective) =>
      b.Mapped? && b.frame == frame && b.own == own && Within(effective, b.effective)
  }

  // ----- the table tree -----

  /** Entries a level can hold: no page size bit above the page directory pointer table, huge pages aligned. */
  predicate EntrySound(e: Entry, levels: nat)
  {
    e.present && levels > 1 && e.pageSize ==> levels <= 3 && e.frame == Base(e.frame, levels)
  }

  /**
    `pos` gives every table of the tree its only place: the indices that lead to it from the root.
    So no table is shared, and none is reached on two levels.
  */
  ghost predicate Tree(mem: Memory, pos: map<nat, Path>, root: nat, depth: nat)
  {
    && root in pos && pos[root] == []
    && (forall t :: t in pos ==> t in mem && |pos[t]| < depth)
    && (forall t, k :: t in pos && 0 <= k < 512 ==> SlotSound(mem, pos, depth, t, k))
  }

  ghost predicate SlotSound(mem: Memory, pos: map<nat, Path>, depth: nat, t: nat, k: nat)
    requires t in pos && t in mem && |pos[t]| < depth && k < 512
  {
    var e := mem[t][k];
    && EntrySound(e, depth - |pos[t]|)
    && (e.present && depth - |pos[t]| > 1 && !e.pageSize ==> e.frame in pos && pos[e.frame] == pos[t] + [k])
  }

  ghost predicate OnLevel(pos: map<nat, Path>, depth: nat, t: nat, path: Path)
  {
    t in pos && |pos[t]| + |path| == depth && path != []
  }
}
