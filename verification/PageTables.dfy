/**
 Four-level page tables held in physical memory, and what they mean to user
 mode: the walk that requires PRESENT and USER at every level (Intel SDM
 Volume 3A, sections 4.5 and 4.6).

 A frame that `Memory` does not list reads as 512 unused entries, so every
 address an entry holds can be dereferenced, as it can in the kernel.
 */
module PageTables {
  import opened Options

  /** L4 entries below this index map the lower (user) half. */
  const LOWER_HALF: nat := 256

  // The levels of the tree, leaves first.
  const L1: nat := 1
  const L2: nat := 2
  const L3: nat := 3
  const L4: nat := 4

  type Frame = nat
  type Index = i: nat | i < 512

  /** One 64-bit entry: the four flags the code tests, the other flags, the frame. */
  datatype Entry = Entry(present: bool, writable: bool, user: bool, huge: bool, rest: nat, addr: Frame) {
    function ReadOnly(): Entry {
      this.(writable := false)
    }

    predicate UserPresent() {
      present && user
    }

    /** The entry leads user mode to a table one level down. */
    predicate Descends(level: nat) {
      level > 1 && present && user && !huge
    }
  }

  const UNUSED := Entry(false, false, false, false, 0, 0)

  type Table = t: seq<Entry> | |t| == 512 witness seq(512, _ => UNUSED)
  function EmptyTable(): Table { seq(512, _ => UNUSED) }

  type Memory = map<Frame, Table>

  function At(m: Memory, f: Frame): Table {
    if f in m then m[f] else EmptyTable()
  }

  predicate Lower(level: nat, i: nat) {
    level == 4 ==> i < LOWER_HALF
  }

  // ---------- meaning ----------

  datatype Translation =
    | Unmapped
    | Page(leaf: Entry)
    | HugePage(level: nat, leaf: Entry)

  /** What user mode finds at `path` (one index per level). The PS bit is
      reserved in an L4 entry, so a huge L4 entry maps nothing. */
  function UserWalk(m: Memory, f: Frame, level: nat, path: seq<Index>): Translation
    requires 1 <= level <= 4 && |path| == level
    decreases level
  {
    var e := At(m, f)[path[0]];
    if !e.UserPresent() then Unmapped
    else if level == 1 then Page(e)
    else if e.huge then (if level == 4 then Unmapped else HugePage(level, e))
    else UserWalk(m, e.addr, level - 1, path[1..])
  }

  /** Every link on the way of a walk allows writing. */
  predicate LinksWritable(m: Memory, f: Frame, level: nat, path: seq<Index>)
    requires 1 <= level <= 4 && |path| == level
    decreases level
  {
    var e := At(m, f)[path[0]];
    e.Descends(level) ==> e.writable && LinksWritable(m, e.addr, level - 1, path[1..])
  }

  predicate Writable(t: Translation) {
    !t.Unmapped? && t.leaf.writable
  }

  /** User mode may write: WRITABLE is set at every level, in the links and in the page's entry. */
  predicate MayWrite(m: Memory, root: Frame, path: seq<Index>)
    requires |path| == 4
  {
    LinksWritable(m, root, L4, path) && Writable(UserWalk(m, root, L4, path))
  }

  /** The table reached from `f` by following user links along `p`. */
  function TableAt(m: Memory, f: Frame, level: nat, p: seq<Index>): Option<Frame>
    requires 1 <= level <= 4 && |p| < level
    decreases level
  {
    if p == [] then Some(f)
    else
      var e := At(m, f)[p[0]];
      if Lower(level, p[0]) && e.Descends(level) then TableAt(m, e.addr, level - 1, p[1..]) else None
  }

  /** The kernel's own walk: it ignores USER and gives up on huge pages. */
  function GetPhysFrame(m: Memory, f: Frame, level: nat, path: seq<Index>): Option<Frame>
    requires 1 <= level <= 4 && |path| == level
    decreases level
  {
    var e := At(m, f)[path[0]];
    if !e.present || e.huge then None
    else if level == 1 then Some(e.addr)
    else GetPhysFrame(m, e.addr, level - 1, path[1..])
  }

  /** What user mode maps as a 4 KiB page the kernel finds too, unless the page's own PS bit is set;
      behind a huge page it finds nothing. */
  lemma {:induction false} PhysFrameOfPage(m: Memory, f: Frame, level: nat, path: seq<Index>)
    requires 1 <= level <= 4 && |path| == level
    ensures var t := UserWalk(m, f, level, path);
            && (t.Page? ==> GetPhysFrame(m, f, level, path) == if t.leaf.huge then None else Some(t.leaf.addr))
            && (t.HugePage? ==> GetPhysFrame(m, f, level, path).None?)
    decreases level
  {
    var e := At(m, f)[path[0]];
    if e.Descends(level) {
      PhysFrameOfPage(m, e.addr, level - 1, path[1..]);
    }
  }

  /** The four table indices of a virtual address. */
  function PathOf(vaddr: nat): (p: seq<Index>)
    ensures |p| == 4
    ensures vaddr < 0x8000_0000_0000 ==> p[0] < LOWER_HALF
  {
    [vaddr / 0x80_0000_0000 % 512, vaddr / 0x4000_0000 % 512, vaddr / 0x20_0000 % 512, vaddr / 0x1000 % 512]
  }

  lemma NestedQuotients(x: nat)
    ensures x / 0x1000 / 512 == x / 0x20_0000
    ensures x / 0x20_0000 / 512 == x / 0x4000_0000
    ensures x / 0x4000_0000 / 512 == x / 0x80_0000_0000
  {
  }

  /** The indices are the digits, to the base 512, of the page number. */
  lemma PathOfPage(vaddr: nat)
    requires vaddr < 0x1_0000_0000_0000
    ensures var p := PathOf(vaddr);
            ((p[0] as int * 512 + p[1]) * 512 + p[2]) * 512 + p[3] == vaddr / 0x1000
  {
    NestedQuotients(vaddr);
    var x := vaddr / 0x1000;
    var y := x / 512;
    var z := y / 512;
    assert x == y * 512 + x % 512 && y == z * 512 + y % 512 && z == z / 512 * 512 + z % 512;
  }

  // ---------- footprint ----------

  /** `m` and `n` hold the same tables everywhere below `f`. */
  ghost predicate AgreeUnder(m: Memory, n: Memory, f: Frame, level: nat)
    requires 1 <= level <= 4
  {
    forall p: seq<Index> | |p| < level ::
      TableAt(m, f, level, p).Some? ==> At(n, TableAt(m, f, level, p).value) == At(m, TableAt(m, f, level, p).value)
  }

  /** No table below `f` lies in `s`. */
  ghost predicate Avoids(m: Memory, f: Frame, level: nat, s: set<Frame>)
    requires 1 <= level <= 4
  {
    forall p: seq<Index> | |p| < level ::
      TableAt(m, f, level, p).Some? ==> TableAt(m, f, level, p).value !in s
  }

  lemma TableAtStep(m: Memory, f: Frame, level: nat, i: Index, p: seq<Index>)
    requires 1 <= level <= 4 && |p| + 1 < level
    requires Lower(level, i) && At(m, f)[i].Descends(level)
    ensures TableAt(m, f, level, [i] + p) == TableAt(m, At(m, f)[i].addr, level - 1, p)
  {
    assert ([i] + p)[1..] == p;
  }

  lemma AvoidsChild(m: Memory, f: Frame, level: nat, i: Index, s: set<Frame>)
    requires 1 <= level <= 4 && Avoids(m, f, level, s)
    requires Lower(level, i) && At(m, f)[i].Descends(level)
    ensures Avoids(m, At(m, f)[i].addr, level - 1, s)
  {
    forall p: seq<Index> | |p| < level - 1
      ensures TableAt(m, At(m, f)[i].addr, level - 1, p).Some? ==>
              TableAt(m, At(m, f)[i].addr, level - 1, p).value !in s
    {
      TableAtStep(m, f, level, i, p);
    }
  }

  lemma AgreeUnderChild(m: Memory, n: Memory, f: Frame, level: nat, i: Index)
    requires 1 <= level <= 4 && AgreeUnder(m, n, f, level)
    requires Lower(level, i) && At(m, f)[i].Descends(level)
    ensures AgreeUnder(m, n, At(m, f)[i].addr, level - 1)
  {
    var g := At(m, f)[i].addr;
    forall p: seq<Index> | |p| < level - 1
      ensures TableAt(m, g, level - 1, p).Some? ==>
              At(n, TableAt(m, g, level - 1, p).value) == At(m, TableAt(m, g, level - 1, p).value)
    {
      TableAtStep(m, f, level, i, p);
    }
  }

  /** The tables below `f` are all that its user walks and links depend on. */
  lemma {:induction false} AgreeSameTables(m: Memory, n: Memory, f: Frame, level: nat, p: seq<Index>)
    requires 1 <= level <= 4 && |p| < level && AgreeUnder(m, n, f, level)
    ensures TableAt(n, f, level, p) == TableAt(m, f, level, p)
    decreases level
  {
    assert TableAt(m, f, level, []).Some?;
    if p != [] && Lower(level, p[0]) && At(m, f)[p[0]].Descends(level) {
      AgreeUnderChild(m, n, f, level, p[0]);
      AgreeSameTables(m, n, At(m, f)[p[0]].addr, level - 1, p[1..]);
    }
  }

  lemma {:induction false} AgreeSameWalk(m: Memory, n: Memory, f: Frame, level: nat, path: seq<Index>)
    requires 1 <= level <= 4 && |path| == level && Lower(level, path[0]) && AgreeUnder(m, n, f, level)
    ensures UserWalk(n, f, level, path) == UserWalk(m, f, level, path)
    decreases level
  {
    assert TableAt(m, f, level, []).Some?;
    if At(m, f)[path[0]].Descends(level) {
      AgreeUnderChild(m, n, f, level, path[0]);
      AgreeSameWalk(m, n, At(m, f)[path[0]].addr, level - 1, path[1..]);
    }
  }

  lemma {:induction false} AgreeSameLinks(m: Memory, n: Memory, f: Frame, level: nat, path: seq<Index>)
    requires 1 <= level <= 4 && |path| == level && Lower(level, path[0]) && AgreeUnder(m, n, f, level)
    ensures LinksWritable(n, f, level, path) == LinksWritable(m, f, level, path)
    decreases level
  {
    assert TableAt(m, f, level, []).Some?;
    if At(m, f)[path[0]].Descends(level) {
      AgreeUnderChild(m, n, f, level, path[0]);
      AgreeSameLinks(m, n, At(m, f)[path[0]].addr, level - 1, path[1..]);
    }
  }

  /** Memories that differ only in `s` agree below a table that avoids `s`. */
  lemma AvoidsAgrees(m: Memory, n: Memory, f: Frame, level: nat, s: set<Frame>)
    requires 1 <= level <= 4 && Avoids(m, f, level, s)
    requires forall g: Frame :: g !in s ==> At(n, g) == At(m, g)
    ensures AgreeUnder(m, n, f, level)
  {
  }

  // ---------- the read-only pass ----------

  datatype Loc = Loc(frame: Frame, index: Index)

  /** `loc` is a present user L1 entry reached from `f` by user links. */
  ghost predicate UserLeaf(m: Memory, f: Frame, level: nat, loc: Loc)
    requires 1 <= level <= 4
    decreases level
  {
    if level == 1 then loc.frame == f && At(m, f)[loc.index].UserPresent()
    else exists i: Index :: UserLeafVia(m, f, level, i, loc)
  }

  ghost predicate UserLeafVia(m: Memory, f: Frame, level: nat, i: Index, loc: Loc)
    requires 2 <= level <= 4
    decreases level, 0
  {
    Lower(level, i) && At(m, f)[i].Descends(level) && UserLeaf(m, At(m, f)[i].addr, level - 1, loc)
  }

  /** `n` is `m` with WRITABLE cleared at the locations of `l`, and nothing else changed. */
  ghost predicate Cleared(m: Memory, n: Memory, l: iset<Loc>) {
    forall f: Frame, i: Index :: At(n, f)[i] == if Loc(f, i) in l then At(m, f)[i].ReadOnly() else At(m, f)[i]
  }

  ghost function UserLeaves(m: Memory, root: Frame, level: nat): iset<Loc>
    requires 1 <= level <= 4
  {
    iset loc: Loc | UserLeaf(m, root, level, loc)
  }

  /** The user leaves reached through the first `k` entries of `f`. */
  ghost function LeavesBefore(m: Memory, f: Frame, level: nat, k: nat): iset<Loc>
    requires 1 <= level <= 4
  {
    if level == 1 then iset loc: Loc | loc.index < k && UserLeaf(m, f, 1, loc)
    else iset loc: Loc | UserLeafBefore(m, f, level, k, loc)
  }

  ghost predicate UserLeafBefore(m: Memory, f: Frame, level: nat, k: nat, loc: Loc)
    requires 2 <= level <= 4
  {
    exists i: Index :: i < k && UserLeafVia(m, f, level, i, loc)
  }

  /** What entry `k` of `f` adds to the leaves reached. */
  ghost function LeavesAt(m: Memory, f: Frame, level: nat, k: Index): iset<Loc>
    requires 1 <= level <= 4
  {
    if level == 1 then (if At(m, f)[k].UserPresent() then iset{Loc(f, k)} else iset{})
    else if Lower(level, k) && At(m, f)[k].Descends(level) then UserLeaves(m, At(m, f)[k].addr, level - 1)
    else iset{}
  }

  lemma LeavesBeforeNext(m: Memory, f: Frame, level: nat, k: Index, l: iset<Loc>)
    requires 1 <= level <= 4
    ensures l + LeavesBefore(m, f, level, k + 1) == (l + LeavesBefore(m, f, level, k)) + LeavesAt(m, f, level, k)
  {
    forall loc: Loc
      ensures loc in LeavesBefore(m, f, level, k + 1) <==>
              loc in LeavesBefore(m, f, level, k) || loc in LeavesAt(m, f, level, k)
    {
      LeafBeforeNext(m, f, level, k, loc);
    }
  }

  lemma LeafBeforeNext(m: Memory, f: Frame, level: nat, k: Index, loc: Loc)
    requires 1 <= level <= 4
    ensures loc in LeavesBefore(m, f, level, k + 1) <==>
            loc in LeavesBefore(m, f, level, k) || loc in LeavesAt(m, f, level, k)
  {
    if level == 1 {
      assert UserLeaf(m, f, 1, loc) <==> loc.frame == f && At(m, f)[loc.index].UserPresent();
    } else {
      assert UserLeafBefore(m, f, level, k + 1, loc) <==>
        UserLeafBefore(m, f, level, k, loc) || UserLeafVia(m, f, level, k, loc);
    }
  }

  /** The pass reads the flags and frames that were there before it began. */
  lemma ClearedEntry(m: Memory, n: Memory, l: iset<Loc>, f: Frame, i: Index)
    requires Cleared(m, n, l)
    ensures At(n, f)[i] == At(m, f)[i] || At(n, f)[i] == At(m, f)[i].ReadOnly()
  {
  }

  /** An entry that leads nowhere is skipped. */
  lemma SkipEntry(m: Memory, n: Memory, l: iset<Loc>, f: Frame, level: nat, k: Index)
    requires 2 <= level <= 4 && Cleared(m, n, l + LeavesBefore(m, f, level, k))
    requires !(Lower(level, k) && At(m, f)[k].Descends(level))
    ensures Cleared(m, n, l + LeavesBefore(m, f, level, k + 1))
  {
    LeavesBeforeNext(m, f, level, k, l);
    assert (l + LeavesBefore(m, f, level, k)) + iset{} == l + LeavesBefore(m, f, level, k);
  }

  /** An entry whose subtree has been dealt with. */
  lemma VisitedEntry(m: Memory, n: Memory, l: iset<Loc>, f: Frame, level: nat, k: Index)
    requires 2 <= level <= 4 && Lower(level, k) && At(m, f)[k].Descends(level)
    requires Cleared(m, n, (l + LeavesBefore(m, f, level, k)) + UserLeaves(m, At(m, f)[k].addr, level - 1))
    ensures Cleared(m, n, l + LeavesBefore(m, f, level, k + 1))
  {
    LeavesBeforeNext(m, f, level, k, l);
  }

  /** A leaf entry: cleared if it is a writable user page, and counted if it is a user page. */
  lemma LeafEntry(m: Memory, n: Memory, l: iset<Loc>, f: Frame, k: Index)
    requires Cleared(m, n, l + LeavesBefore(m, f, L1, k))
    ensures var e := At(n, f)[k];
            var n' := if e.present && e.user && e.writable then n[f := At(n, f)[k := e.ReadOnly()]] else n;
            Cleared(m, n', l + LeavesBefore(m, f, L1, k + 1))
  {
    LeavesBeforeNext(m, f, L1, k, l);
    ClearedEntry(m, n, l + LeavesBefore(m, f, L1, k), f, k);
  }

  lemma LeavesBeforeAll(m: Memory, f: Frame, level: nat, k: nat)
    requires 1 <= level <= 4 && (k == 512 || (level == 4 && k == 256))
    ensures LeavesBefore(m, f, level, k) == UserLeaves(m, f, level)
  {
    if level > 1 {
      forall loc: Loc
        ensures loc in LeavesBefore(m, f, level, k) <==> loc in UserLeaves(m, f, level)
      {
        assert UserLeaf(m, f, level, loc) <==> UserLeafBefore(m, f, level, k, loc);
      }
    }
  }

  /** Clearing WRITABLE bits, wherever they are, moves no table. */
  lemma {:induction false} ClearedSameTables(m: Memory, n: Memory, l: iset<Loc>, f: Frame, level: nat, p: seq<Index>)
    requires 1 <= level <= 4 && |p| < level && Cleared(m, n, l)
    ensures TableAt(n, f, level, p) == TableAt(m, f, level, p)
    decreases level
  {
    if p != [] {
      assert At(n, f)[p[0]].Descends(level) == At(m, f)[p[0]].Descends(level);
      if Lower(level, p[0]) && At(m, f)[p[0]].Descends(level) {
        ClearedSameTables(m, n, l, At(m, f)[p[0]].addr, level - 1, p[1..]);
      }
    }
  }

  /** No table on the way of the kernel's own walk lies in `s`. */
  ghost predicate WalkAvoids(m: Memory, f: Frame, level: nat, path: seq<Index>, s: set<Frame>)
    requires 1 <= level <= 4 && |path| == level
    decreases level
  {
    var e := At(m, f)[path[0]];
    f !in s && (level > 1 && e.present && !e.huge ==> WalkAvoids(m, e.addr, level - 1, path[1..], s))
  }

  /** Neither clearing WRITABLE bits nor then writing frames outside its way changes what the kernel's walk finds. */
  lemma {:induction false} KernelWalkKept(m: Memory, n: Memory, o: Memory, l: iset<Loc>, s: set<Frame>, f: Frame,
                                          level: nat, path: seq<Index>)
    requires 1 <= level <= 4 && |path| == level && WalkAvoids(m, f, level, path, s)
    requires Cleared(m, n, l) && forall g: Frame | g !in s :: At(o, g) == At(n, g)
    ensures GetPhysFrame(o, f, level, path) == GetPhysFrame(m, f, level, path)
    decreases level
  {
    ClearedEntry(m, n, l, f, path[0]);
    var e := At(m, f)[path[0]];
    if level > 1 && e.present && !e.huge {
      KernelWalkKept(m, n, o, l, s, e.addr, level - 1, path[1..]);
    }
  }

  /** A huge page is an entry of the table its address leads to. */
  lemma {:induction false} HugeEntryOf(m: Memory, f: Frame, level: nat, path: seq<Index>)
    requires 1 <= level <= 4 && |path| == level && Lower(level, path[0])
    ensures var t := UserWalk(m, f, level, path);
            t.HugePage? ==>
              && 2 <= t.level <= level && t.level < 4
              && var g := TableAt(m, f, level, path[..level - t.level]);
                 g.Some? && At(m, g.value)[path[level - t.level]] == t.leaf && t.leaf.UserPresent() && t.leaf.huge
    decreases level
  {
    var e := At(m, f)[path[0]];
    if e.Descends(level) {
      HugeEntryOf(m, e.addr, level - 1, path[1..]);
      var t := UserWalk(m, f, level, path);
      if t.HugePage? {
        assert path[..level - t.level][1..] == path[1..][..level - 1 - t.level];
      }
    }
  }

  /** `b` maps what `a` maps, with the same flags, except that it may have lost WRITABLE. */
  predicate Narrows(a: Translation, b: Translation) {
    match (a, b)
    case (Unmapped, Unmapped) => true
    case (Page(x), Page(y)) => y == x || y == x.ReadOnly()
    case (HugePage(i, x), HugePage(j, y)) => i == j && (y == x || y == x.ReadOnly())
    case _ => false
  }

  lemma NarrowsTransitive(a: Translation, b: Translation, c: Translation)
    requires Narrows(a, b) && Narrows(b, c)
    ensures Narrows(a, c)
  {
  }

  /** Clearing WRITABLE bits, wherever they are, takes nothing but WRITABLE from any tree. */
  lemma {:induction false} ClearedNarrows(m: Memory, n: Memory, l: iset<Loc>, f: Frame, level: nat, path: seq<Index>)
    requires 1 <= level <= 4 && |path| == level && Cleared(m, n, l)
    ensures Narrows(UserWalk(m, f, level, path), UserWalk(n, f, level, path))
    decreases level
  {
    ClearedEntry(m, n, l, f, path[0]);
    if At(m, f)[path[0]].Descends(level) {
      ClearedNarrows(m, n, l, At(m, f)[path[0]].addr, level - 1, path[1..]);
    }
  }

  /** After the pass every user 4 KiB leaf below the tables it visited is the
      old leaf made read-only; a huge leaf keeps its frame and other flags. */
  lemma {:induction false} ReadOnlyWalk(m: Memory, n: Memory, l: iset<Loc>, f: Frame, level: nat, path: seq<Index>)
    requires 1 <= level <= 4 && |path| == level && Lower(level, path[0])
    requires Cleared(m, n, l) && UserLeaves(m, f, level) <= l
    ensures Narrows(UserWalk(m, f, level, path), UserWalk(n, f, level, path))
    ensures UserWalk(n, f, level, path).Page? ==> !UserWalk(n, f, level, path).leaf.writable
    decreases level
  {
    ClearedNarrows(m, n, l, f, level, path);
    var i := path[0];
    if level == 1 {
      if At(m, f)[i].UserPresent() {
        assert UserLeaf(m, f, 1, Loc(f, i));
        assert Loc(f, i) in UserLeaves(m, f, 1);
      }
    } else if At(m, f)[i].Descends(level) {
      var g := At(m, f)[i].addr;
      forall loc: Loc | loc in UserLeaves(m, g, level - 1)
        ensures loc in l
      {
        assert UserLeafVia(m, f, level, i, loc);
        assert loc in UserLeaves(m, f, level);
      }
      ReadOnlyWalk(m, n, l, g, level - 1, path[1..]);
    }
  }

  /** Every location the pass changes ends a user path of the tree. */
  lemma {:induction false} UserLeafHasPath(m: Memory, f: Frame, level: nat, loc: Loc) returns (p: seq<Index>)
    requires 1 <= level <= 4 && UserLeaf(m, f, level, loc)
    ensures |p| == level - 1 && TableAt(m, f, level, p) == Some(loc.frame)
    ensures At(m, loc.frame)[loc.index].UserPresent()
    decreases level
  {
    if level == 1 {
      p := [];
    } else {
      var i: Index :| UserLeafVia(m, f, level, i, loc);
      var q := UserLeafHasPath(m, At(m, f)[i].addr, level - 1, loc);
      p := [i] + q;
      TableAtStep(m, f, level, i, q);
    }
  }

  /** No frame is a table at two different levels of the tree. */
  ghost predicate OneLevelPerTable(m: Memory, root: Frame) {
    forall p: seq<Index>, q: seq<Index> | |p| < 4 && |q| < 4 ::
      TableAt(m, root, L4, p).Some? && TableAt(m, root, L4, p) == TableAt(m, root, L4, q) ==> |p| == |q|
  }

  /** Where no table serves two levels, the pass leaves every table above L1,
      and so every huge page, exactly as it was. */
  lemma UpperTablesUntouched(m: Memory, n: Memory, root: Frame, p: seq<Index>)
    requires |p| < 3 && TableAt(m, root, L4, p).Some?
    requires Cleared(m, n, UserLeaves(m, root, L4)) && OneLevelPerTable(m, root)
    ensures At(n, TableAt(m, root, L4, p).value) == At(m, TableAt(m, root, L4, p).value)
  {
    var f := TableAt(m, root, L4, p).value;
    forall i: Index
      ensures At(n, f)[i] == At(m, f)[i]
    {
      if Loc(f, i) in UserLeaves(m, root, L4) {
        var q := UserLeafHasPath(m, root, L4, Loc(f, i));
        assert false;
      }
    }
    assert forall i :: 0 <= i < 512 ==> At(n, f)[i] == At(m, f)[i] by {
      forall i | 0 <= i < 512 ensures At(n, f)[i] == At(m, f)[i] {
        var j: Index := i;
        assert At(n, f)[j] == At(m, f)[j];
      }
    }
  }
}
