/** Runs of forks: any process may fork at any time, and every process keeps what it maps. */
module CowForkRuns {
  import opened Options
  import opened PageTables
  import opened CowFork

  /** The process at `r` maps in `m` what the one at `r0` mapped in `m0`; it may have lost WRITABLE. */
  ghost predicate KeepsMapping(m0: Memory, r0: Frame, m: Memory, r: Frame) {
    forall path: seq<Index> | |path| == 4 && path[0] < LOWER_HALF ::
      Narrows(UserWalk(m0, r0, L4, path), UserWalk(m, r, L4, path))
  }

  lemma KeepsTransitive(m0: Memory, r0: Frame, m1: Memory, r1: Frame, m2: Memory, r2: Frame)
    requires KeepsMapping(m0, r0, m1, r1) && KeepsMapping(m1, r1, m2, r2)
    ensures KeepsMapping(m0, r0, m2, r2)
  {
    forall path: seq<Index> | |path| == 4 && path[0] < LOWER_HALF
      ensures Narrows(UserWalk(m0, r0, L4, path), UserWalk(m2, r2, L4, path))
    {
      NarrowsTransitive(UserWalk(m0, r0, L4, path), UserWalk(m1, r1, L4, path), UserWalk(m2, r2, L4, path));
    }
  }

  lemma KeepsItself(m: Memory, r: Frame)
    ensures KeepsMapping(m, r, m, r)
  {
  }

  // ---------- one fork ----------

  lemma ClearedKeeps(m: Memory, n: Memory, l: iset<Loc>, r: Frame)
    requires Cleared(m, n, l)
    ensures KeepsMapping(m, r, n, r)
  {
    forall path: seq<Index> | |path| == 4 && path[0] < LOWER_HALF
      ensures Narrows(UserWalk(m, r, L4, path), UserWalk(n, r, L4, path))
    {
      ClearedNarrows(m, n, l, r, L4, path);
    }
  }

  /** A process whose tables are not drawn from the allocator, the parent or any other, keeps its mapping. */
  lemma ProcessKept(before: Memory, mid: Memory, after: Memory, root: Frame, child: Frame, taken: set<Frame>,
                    r: Frame, s: set<Frame>)
    requires Forked(before, mid, after, root, child, taken) && Avoids(before, r, L4, s) && taken <= s
    ensures KeepsMapping(before, r, after, r) && Avoids(after, r, L4, s)
  {
    var l := UserLeaves(before, root, L4);
    ClearedKeeps(before, mid, l, r);
    ClearedAvoids(before, mid, l, r, s);
    AvoidsLess(mid, r, L4, s, taken);
    AvoidsAgrees(mid, after, r, L4, taken);
    forall path: seq<Index> | |path| == 4 && path[0] < LOWER_HALF
      ensures UserWalk(after, r, L4, path) == UserWalk(mid, r, L4, path)
    {
      AgreeSameWalk(mid, after, r, L4, path);
    }
    SubtreeAvoids(mid, after, r, L4, s);
  }

  lemma ChildKeeps(before: Memory, mid: Memory, after: Memory, root: Frame, child: Frame, taken: set<Frame>)
    requires Forked(before, mid, after, root, child, taken)
    ensures KeepsMapping(before, root, after, child)
  {
    forall path: seq<Index> | |path| == 4 && path[0] < LOWER_HALF
      ensures Narrows(UserWalk(before, root, L4, path), UserWalk(after, child, L4, path))
    {
      ForkPreservesWalk(before, mid, after, root, child, taken, path);
      NarrowsTransitive(UserWalk(before, root, L4, path), UserWalk(after, root, L4, path),
        UserWalk(after, child, L4, path));
    }
  }

  // ---------- runs ----------

  /** Memory, the roots of the processes, and the frames the allocator may still hand out. */
  datatype Machine = Machine(mem: Memory, roots: seq<Frame>, free: set<Frame>)

  datatype ForkEvent = ForkEvent(parent: nat, mid: Memory, child: Option<Frame>, taken: set<Frame>)

  /** No free frame is a table of a process. */
  ghost predicate Sound(w: Machine) {
    forall i {:trigger w.roots[i]} | 0 <= i < |w.roots| :: Avoids(w.mem, w.roots[i], L4, w.free)
  }

  /** A process forks: its child is the newest process, unless there was no frame for the root. */
  ghost predicate Step(w: Machine, e: ForkEvent, v: Machine) {
    && e.parent < |w.roots| && e.taken <= w.free && v.free == w.free - e.taken
    && match e.child
       case None =>
         Cleared(w.mem, v.mem, UserLeaves(w.mem, w.roots[e.parent], L4)) && e.taken == {} && v.roots == w.roots
       case Some(c) =>
         Forked(w.mem, e.mid, v.mem, w.roots[e.parent], c, e.taken) && v.roots == w.roots + [c]
  }

  /** A fork, by whichever process, leaves what each process maps, and frames free of tables. */
  lemma StepKeeps(w: Machine, e: ForkEvent, v: Machine, i: nat)
    requires Sound(w) && Step(w, e, v) && i < |w.roots|
    ensures v.roots[i] == w.roots[i] && KeepsMapping(w.mem, w.roots[i], v.mem, v.roots[i])
    ensures Avoids(v.mem, v.roots[i], L4, v.free)
  {
    var root := w.roots[e.parent];
    if e.child.None? {
      ClearedKeeps(w.mem, v.mem, UserLeaves(w.mem, root, L4), w.roots[i]);
      ClearedAvoids(w.mem, v.mem, UserLeaves(w.mem, root, L4), w.roots[i], w.free);
    } else {
      ProcessKept(w.mem, e.mid, v.mem, root, e.child.value, e.taken, w.roots[i], w.free);
      AvoidsLess(v.mem, v.roots[i], L4, w.free, v.free);
    }
  }

  lemma StepKeepsSound(w: Machine, e: ForkEvent, v: Machine)
    requires Sound(w) && Step(w, e, v)
    ensures Sound(v)
  {
    forall i | 0 <= i < |v.roots|
      ensures Avoids(v.mem, v.roots[i], L4, v.free)
    {
      if i < |w.roots| {
        StepKeeps(w, e, v, i);
      } else {
        var root := w.roots[e.parent];
        AvoidsLess(w.mem, root, L4, w.free, v.free);
        ChildAvoids(w.mem, e.mid, v.mem, root, e.child.value, e.taken, v.free);
      }
    }
  }

  ghost predicate StepAt(states: seq<Machine>, events: seq<ForkEvent>, i: nat)
    requires |states| == |events| + 1 && i < |events|
  {
    Step(states[i], events[i], states[i + 1])
  }

  ghost predicate IsRun(states: seq<Machine>, events: seq<ForkEvent>) {
    && |states| == |events| + 1
    && Sound(states[0])
    && forall i: nat {:trigger StepAt(states, events, i)} | i < |events| :: StepAt(states, events, i)
  }

  lemma {:induction false} RunSound(states: seq<Machine>, events: seq<ForkEvent>, n: nat)
    requires IsRun(states, events) && n <= |events|
    ensures Sound(states[n])
    decreases n
  {
    if n > 0 {
      RunSound(states, events, n - 1);
      assert StepAt(states, events, n - 1);
      StepKeepsSound(states[n - 1], events[n - 1], states[n]);
    }
  }

  lemma NextKeepsMappings(states: seq<Machine>, events: seq<ForkEvent>, n: nat, i: nat)
    requires IsRun(states, events) && n < |events| && i < |states[n].roots|
    ensures i < |states[n + 1].roots|
    ensures KeepsMapping(states[n].mem, states[n].roots[i], states[n + 1].mem, states[n + 1].roots[i])
  {
    RunSound(states, events, n);
    assert StepAt(states, events, n);
    StepKeeps(states[n], events[n], states[n + 1], i);
  }

  /** Over any run of forks, from any moment on, every process keeps mapping what it mapped then. */
  lemma {:induction false} RunKeepsMappings(states: seq<Machine>, events: seq<ForkEvent>, a: nat, b: nat, i: nat)
    requires IsRun(states, events) && a <= b <= |events| && i < |states[a].roots|
    ensures i < |states[b].roots|
    ensures KeepsMapping(states[a].mem, states[a].roots[i], states[b].mem, states[b].roots[i])
    decreases b - a
  {
    if a == b {
      KeepsItself(states[a].mem, states[a].roots[i]);
    } else {
      RunKeepsMappings(states, events, a, b - 1, i);
      NextKeepsMappings(states, events, b - 1, i);
      KeepsTransitive(states[a].mem, states[a].roots[i], states[b - 1].mem, states[b - 1].roots[i],
                      states[b].mem, states[b].roots[i]);
    }
  }

  /** The child that is born with event `a` maps, at any later moment, what its parent mapped before. */
  lemma ChildKeepsMapping(states: seq<Machine>, events: seq<ForkEvent>, a: nat, b: nat)
    requires IsRun(states, events) && a < b <= |events| && events[a].child.Some?
    ensures events[a].parent < |states[a].roots| < |states[b].roots|
    ensures KeepsMapping(states[a].mem, states[a].roots[events[a].parent], states[b].mem,
            states[b].roots[|states[a].roots|])
  {
    assert StepAt(states, events, a);
    var w, v, e, i := states[a], states[a + 1], events[a], |states[a].roots|;
    ChildKeeps(w.mem, e.mid, v.mem, w.roots[e.parent], e.child.value, e.taken);
    RunKeepsMappings(states, events, a + 1, b, i);
    KeepsTransitive(w.mem, w.roots[e.parent], v.mem, v.roots[i], states[b].mem, states[b].roots[i]);
  }

  /** The kernel's fork of one of its processes is such a step, and can be repeated. */
  method ForkProcess(k: Kernel, roots: seq<Frame>, i: nat) returns (roots': seq<Frame>, ghost e: ForkEvent)
    requires NoRepeats(k.supply) && Sound(Machine(k.mem, roots, FramesOf(k.supply))) && i < |roots|
    modifies k
    ensures Step(Machine(old(k.mem), roots, FramesOf(old(k.supply))), e, Machine(k.mem, roots', FramesOf(k.supply)))
    ensures NoRepeats(k.supply) && Sound(Machine(k.mem, roots', FramesOf(k.supply)))
    ensures e.parent == i && (e.child.None? <==> old(k.supply) == [] || old(k.supply)[0].None?)
  {
    ghost var w := Machine(k.mem, roots, FramesOf(k.supply));
    assert Avoids(w.mem, w.roots[i], L4, w.free);
    var child, mid, taken := k.CowForkParent(roots[i]);
    roots' := if child.Some? then roots + [child.value] else roots;
    e := ForkEvent(i, mid, child, taken);
    StepKeepsSound(w, e, Machine(k.mem, roots', FramesOf(k.supply)));
  }
}
