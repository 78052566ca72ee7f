/**
 Capability tokens: a global id counter, one space of tokens per process, and the
 revocation tree, as a state machine over grants, forks and revocations.
 */
module Capability {
  import opened Options

  type Id = nat

  datatype ResourceKind =
    Memory | File | Network | DeviceIo | ProcessCreate | AbiPlugin | ProcessDebug | IpcChannel | ZiqaFsMount

  datatype Permissions = Permissions(read: bool, write: bool, execute: bool, delegate: bool)

  datatype Token =
    Token(id: Id, parent: Option<Id>, resource: ResourceKind, permissions: Permissions, target: nat)
  {
    predicate Allows(kind: ResourceKind, needsWrite: bool, needsExec: bool) {
      if resource != kind then false
      else if needsWrite && !permissions.write then false
      else !(needsExec && !permissions.execute)
    }
  }

  type Space = seq<Token>
  type Tree = map<Id, seq<Id>>

  /** The kernel's state, with two facts it does not store: the parent each id was granted
      under, and the ids that some global revocation has named. */
  datatype State = State(next: Id, spaces: seq<Space>, tree: Tree, parent: map<Id, Id>, revoked: set<Id>)

  // ---------- the revocation tree ----------

  function Kids(t: Tree, id: Id): seq<Id> {
    if id in t then t[id] else []
  }

  ghost predicate Ordered(t: Tree, next: Id) {
    forall p: Id, k: Id {:trigger k in Kids(t, p)} | k in Kids(t, p) :: p < k < next
  }

  /** The ids below `id`, in the order the recursion pushes them. It terminates because
      children have larger ids. */
  ghost function Descendants(t: Tree, next: Id, id: Id): seq<Id>
    requires Ordered(t, next)
    decreases next - id, 1, 0
  {
    DescendantsOf(t, next, id, Kids(t, id))
  }

  ghost function DescendantsOf(t: Tree, next: Id, id: Id, kids: seq<Id>): seq<Id>
    requires Ordered(t, next) && forall k | k in kids :: k in Kids(t, id)
    decreases next - id, 0, |kids|
  {
    if kids == [] then []
    else
      assert kids[0] in Kids(t, id);
      [kids[0]] + Descendants(t, next, kids[0]) + DescendantsOf(t, next, id, kids[1..])
  }

  // ---------- histories ----------

  ghost predicate Older(parent: map<Id, Id>) {
    forall x {:trigger parent[x]} | x in parent :: parent[x] < x
  }

  /** `x` was granted under `g`, directly or through other grants. */
  ghost predicate Descends(parent: map<Id, Id>, x: Id, g: Id)
    requires Older(parent)
    decreases x
  {
    x in parent && (parent[x] == g || Descends(parent, parent[x], g))
  }

  /** The tree no longer links `x` to the id it was granted under. */
  predicate Lost(t: Tree, parent: map<Id, Id>, x: Id) {
    x in parent && x !in Kids(t, parent[x])
  }

  /** Some grant between `g` and `x` is no longer in the tree. */
  ghost predicate Broken(s: State, x: Id, g: Id)
    requires Older(s.parent)
    decreases x
  {
    && Descends(s.parent, x, g)
    && (Lost(s.tree, s.parent, x) || (s.parent[x] != g && Broken(s, s.parent[x], g)))
  }

  ghost predicate Recorded(s: State) {
    forall p: Id, k: Id {:trigger k in Kids(s.tree, p)} | k in Kids(s.tree, p) :: k in s.parent && s.parent[k] == p
  }

  ghost predicate Unique(caps: Space) {
    forall i, j | 0 <= i < j < |caps| :: caps[i].id != caps[j].id
  }

  ghost predicate Holds(caps: Space, x: Id) {
    exists i :: 0 <= i < |caps| && caps[i].id == x
  }

  /** Some token of the space grants the permission on the resource kind. */
  ghost predicate Permits(caps: Space, kind: ResourceKind, needsWrite: bool, needsExec: bool) {
    exists i :: 0 <= i < |caps| && caps[i].Allows(kind, needsWrite, needsExec)
  }

  ghost predicate Held(s: State, x: Id) {
    exists q :: 0 <= q < |s.spaces| && Holds(s.spaces[q], x)
  }

  /** What every space looks like: distinct ids, all allocated, none revoked, and each
      token carrying the parent it was granted under. */
  ghost predicate SpaceValid(s: State, caps: Space) {
    && Unique(caps)
    && forall i {:trigger caps[i]} | 0 <= i < |caps| ::
         && caps[i].id < s.next
         && caps[i].id !in s.revoked
         && caps[i].parent == if caps[i].id in s.parent then Some(s.parent[caps[i].id]) else None
  }

  ghost predicate Valid(s: State) {
    && Older(s.parent)
    && (forall x | x in s.parent :: x < s.next)
    && Recorded(s)
    && (forall x | x in s.revoked :: x < s.next)
    && (forall x {:trigger Lost(s.tree, s.parent, x)} | Lost(s.tree, s.parent, x) ::
          x in s.revoked && s.parent[x] in s.revoked)
    && (forall q {:trigger s.spaces[q]} | 0 <= q < |s.spaces| :: SpaceValid(s, s.spaces[q]))
  }

  lemma ValidOrdered(s: State)
    requires Valid(s)
    ensures Ordered(s.tree, s.next)
  {
  }

  // ---------- the recursion finds exactly the linked descendants ----------

  /** A descendant of `g` is found if and only if no grant in between is lost. */
  ghost predicate Found(s: State, x: Id, g: Id)
    requires Older(s.parent)
  {
    Descends(s.parent, x, g) && !Broken(s, x, g)
  }

  lemma {:induction false} BelowFound(s: State, x: Id, k: Id, g: Id)
    requires Valid(s) && k in Kids(s.tree, g) && Found(s, x, k)
    ensures Found(s, x, g)
    decreases x
  {
    if s.parent[x] == k {
      assert s.parent[k] == g && !Lost(s.tree, s.parent, k);
    } else {
      BelowFound(s, s.parent[x], k, g);
    }
  }

  lemma {:induction false} DescendantsFound(s: State, g: Id, kids: seq<Id>, x: Id)
    requires Valid(s) && Ordered(s.tree, s.next) && forall k | k in kids :: k in Kids(s.tree, g)
    requires x in DescendantsOf(s.tree, s.next, g, kids)
    ensures Found(s, x, g)
    decreases s.next - g, |kids|
  {
    var k := kids[0];
    assert k in Kids(s.tree, g);
    if x == k {
      assert s.parent[k] == g && !Lost(s.tree, s.parent, k);
    } else if x in Descendants(s.tree, s.next, k) {
      DescendantsFound(s, k, Kids(s.tree, k), x);
      BelowFound(s, x, k, g);
    } else {
      DescendantsFound(s, g, kids[1..], x);
    }
  }

  lemma {:induction false} KidsIncluded(t: Tree, next: Id, id: Id, kids: seq<Id>, k: Id, x: Id)
    requires Ordered(t, next) && (forall k | k in kids :: k in Kids(t, id)) && k in kids
    requires x == k || x in Descendants(t, next, k)
    ensures x in DescendantsOf(t, next, id, kids)
    decreases |kids|
  {
    if kids[0] != k {
      KidsIncluded(t, next, id, kids[1..], k, x);
    }
  }

  lemma {:induction false} DescendantsTransitive(t: Tree, next: Id, g: Id, kids: seq<Id>, y: Id, x: Id)
    requires Ordered(t, next) && forall k | k in kids :: k in Kids(t, g)
    requires y in DescendantsOf(t, next, g, kids) && x in Kids(t, y)
    ensures x in DescendantsOf(t, next, g, kids)
    decreases next - g, |kids|
  {
    var k := kids[0];
    assert k in Kids(t, g);
    if y == k {
      KidsIncluded(t, next, k, Kids(t, k), x, x);
    } else if y in Descendants(t, next, k) {
      DescendantsTransitive(t, next, k, Kids(t, k), y, x);
    } else {
      DescendantsTransitive(t, next, g, kids[1..], y, x);
    }
  }

  lemma {:induction false} FoundIncluded(s: State, x: Id, g: Id)
    requires Valid(s) && Ordered(s.tree, s.next) && Found(s, x, g)
    ensures x in Descendants(s.tree, s.next, g)
    decreases x
  {
    var p := s.parent[x];
    assert x in Kids(s.tree, p);
    if p == g {
      KidsIncluded(s.tree, s.next, g, Kids(s.tree, g), x, x);
    } else {
      FoundIncluded(s, p, g);
      DescendantsTransitive(s.tree, s.next, g, Kids(s.tree, g), p, x);
    }
  }

  lemma DescendantsExact(s: State, g: Id, x: Id)
    requires Valid(s) && Ordered(s.tree, s.next)
    ensures x in Descendants(s.tree, s.next, g) <==> Found(s, x, g)
  {
    if x in Descendants(s.tree, s.next, g) {
      DescendantsFound(s, g, Kids(s.tree, g), x);
    } else if Found(s, x, g) {
      FoundIncluded(s, x, g);
    }
  }

  // ---------- operations ----------

  /** The tokens of a space whose ids are not in `ids`, in order. */
  function Without(caps: Space, ids: set<Id>): Space {
    if caps == [] then []
    else if caps[0].id in ids then Without(caps[1..], ids)
    else [caps[0]] + Without(caps[1..], ids)
  }

  datatype Op =
    | Spawn
    | Fork(from: nat)
    | Grant(q: nat, resource: ResourceKind, permissions: Permissions, target: nat, under: Option<Id>)
    | RevokeLocal(q: nat, id: Id)
    | RevokeGlobal(id: Id)

  /** Processes are named by their index; parents are ids already allocated. */
  predicate Possible(s: State, op: Op) {
    match op
    case Spawn => true
    case Fork(from) => from < |s.spaces|
    case Grant(q, _, _, _, under) => q < |s.spaces| && (under.Some? ==> under.value < s.next)
    case RevokeLocal(q, _) => q < |s.spaces|
    case RevokeGlobal(_) => true
  }

  ghost function Victims(s: State, g: Id): set<Id>
    requires Valid(s)
  {
    ValidOrdered(s);
    (set x | x in Descendants(s.tree, s.next, g)) + {g}
  }

  ghost function Revoke(s: State, ids: set<Id>): State {
    s.(spaces := seq(|s.spaces|, q requires 0 <= q < |s.spaces| => Without(s.spaces[q], ids)),
       tree := s.tree - ids, revoked := s.revoked + set x | x in ids && x < s.next)
  }

  ghost function Apply(s: State, op: Op): State
    requires Valid(s) && Possible(s, op)
  {
    match op
    case Spawn => s.(spaces := s.spaces + [[]])
    case Fork(from) => s.(spaces := s.spaces + [s.spaces[from]])
    case Grant(q, resource, permissions, target, under) =>
      var t := Token(s.next, under, resource, permissions, target);
      var placed := s.(next := s.next + 1, spaces := s.spaces[q := s.spaces[q] + [t]]);
      if under.None? then placed
      else placed.(tree := s.tree[under.value := Kids(s.tree, under.value) + [s.next]],
                   parent := s.parent[s.next := under.value])
    case RevokeLocal(q, id) => s.(spaces := s.spaces[q := Without(s.spaces[q], {id})])
    case RevokeGlobal(id) => Revoke(s, Victims(s, id))
  }

  lemma {:induction false} WithoutHolds(caps: Space, ids: set<Id>, x: Id)
    ensures Holds(Without(caps, ids), x) <==> Holds(caps, x) && x !in ids
  {
    if caps != [] {
      WithoutHolds(caps[1..], ids, x);
      HoldsFirst(caps, x);
      if caps[0].id !in ids {
        HoldsFirst(Without(caps, ids), x);
        assert Without(caps, ids)[1..] == Without(caps[1..], ids);
      }
    }
  }

  lemma HoldsFirst(caps: Space, x: Id)
    requires caps != []
    ensures Holds(caps, x) <==> caps[0].id == x || Holds(caps[1..], x)
  {
    if Holds(caps[1..], x) {
      var i :| 0 <= i < |caps[1..]| && caps[1..][i].id == x;
      assert caps[i + 1].id == x;
    }
    if Holds(caps, x) && caps[0].id != x {
      var i :| 0 <= i < |caps| && caps[i].id == x;
      assert caps[1..][i - 1].id == x;
    }
  }

  lemma {:induction false} WithoutValid(s: State, caps: Space, ids: set<Id>)
    requires SpaceValid(s, caps)
    ensures SpaceValid(s, Without(caps, ids))
    ensures forall i {:trigger Without(caps, ids)[i]} | 0 <= i < |Without(caps, ids)| ::
            Without(caps, ids)[i].id !in ids
  {
    if caps != [] {
      var rest := caps[1..];
      assert SpaceValid(s, rest) by {
        forall i | 0 <= i < |rest|
          ensures rest[i] == caps[i + 1]
        {
        }
      }
      WithoutValid(s, rest, ids);
      if caps[0].id !in ids {
        var w := Without(rest, ids);
        forall j | 0 <= j < |w|
          ensures w[j].id != caps[0].id
        {
          WithoutHolds(rest, ids, w[j].id);
        }
        assert Without(caps, ids) == [caps[0]] + w;
      }
    }
  }

  lemma GrantKeepsSpace(s: State, t: State, caps: Space)
    requires SpaceValid(s, caps) && t.revoked == s.revoked && t.next == s.next + 1
    requires forall x | x in t.parent && x != s.next :: x in s.parent && t.parent[x] == s.parent[x]
    requires forall x | x in s.parent :: x in t.parent
    ensures SpaceValid(t, caps)
  {
  }

  /** Linking a new id loses no link and breaks none. */
  lemma GrantLinks(s: State, p: Id)
    requires Valid(s) && p < s.next
    ensures var u := s.(tree := s.tree[p := Kids(s.tree, p) + [s.next]], parent := s.parent[s.next := p]);
            && Recorded(u)
            && Older(u.parent)
            && forall x {:trigger Lost(u.tree, u.parent, x)} | Lost(u.tree, u.parent, x) :: Lost(s.tree, s.parent, x)
  {
    var u := s.(tree := s.tree[p := Kids(s.tree, p) + [s.next]], parent := s.parent[s.next := p]);
    forall q: Id, k: Id | k in Kids(u.tree, q)
      ensures k in u.parent && u.parent[k] == q
    {
      assert (k == s.next && q == p) || k in Kids(s.tree, q);
    }
    forall x | Lost(u.tree, u.parent, x)
      ensures Lost(s.tree, s.parent, x)
    {
    }
  }

  lemma GrantKeepsValid(s: State, op: Op)
    requires Valid(s) && op.Grant? && Possible(s, op)
    ensures Valid(Apply(s, op))
  {
    var t := Apply(s, op);
    if op.under.Some? {
      GrantLinks(s, op.under.value);
    }
    assert forall x | x in t.parent :: x < t.next;
    assert Recorded(t);
    forall q | 0 <= q < |t.spaces|
      ensures SpaceValid(t, t.spaces[q])
    {
      assert SpaceValid(s, s.spaces[q]);
      GrantKeepsSpace(s, t, s.spaces[q]);
    }
  }

  lemma RevokeKeepsValid(s: State, g: Id)
    requires Valid(s)
    ensures Valid(Revoke(s, Victims(s, g)))
  {
    ValidOrdered(s);
    var ids := Victims(s, g);
    var t := Revoke(s, ids);
    forall p: Id, k: Id | k in Kids(t.tree, p)
      ensures k in t.parent && t.parent[k] == p
    {
      assert k in Kids(s.tree, p);
    }
    forall x | Lost(t.tree, t.parent, x)
      ensures x in t.revoked && t.parent[x] in t.revoked
    {
      if !Lost(s.tree, s.parent, x) {
        VictimsClosed(s, g, x);
      }
    }
    forall q | 0 <= q < |t.spaces|
      ensures SpaceValid(t, t.spaces[q])
    {
      WithoutValid(s, s.spaces[q], ids);
    }
  }

  /** A linked child of a victim is a victim. */
  lemma VictimsClosed(s: State, g: Id, x: Id)
    requires Valid(s) && x in s.parent && !Lost(s.tree, s.parent, x) && s.parent[x] in Victims(s, g)
    ensures x in Victims(s, g)
  {
    ValidOrdered(s);
    var p := s.parent[x];
    if p == g {
      KidsIncluded(s.tree, s.next, g, Kids(s.tree, g), x, x);
    } else {
      DescendantsTransitive(s.tree, s.next, g, Kids(s.tree, g), p, x);
    }
  }

  lemma ApplyKeepsValid(s: State, op: Op)
    requires Valid(s) && Possible(s, op)
    ensures Valid(Apply(s, op))
  {
    match op
    case Spawn =>
    case Fork(from) =>
    case Grant(_, _, _, _, _) =>
      GrantKeepsValid(s, op);
    case RevokeLocal(q, id) =>
      WithoutValid(s, s.spaces[q], {id});
    case RevokeGlobal(id) =>
      RevokeKeepsValid(s, id);
  }

  // ---------- whole runs ----------

  const BOOT: State := State(1, [], map[], map[], {})

  ghost predicate PossibleRun(s: State, ops: seq<Op>)
    requires Valid(s)
    decreases |ops|
  {
    ops == [] || (Possible(s, ops[0]) && (ApplyKeepsValid(s, ops[0]); PossibleRun(Apply(s, ops[0]), ops[1..])))
  }

  ghost function ApplyAll(s: State, ops: seq<Op>): (t: State)
    requires Valid(s) && PossibleRun(s, ops)
    ensures Valid(t)
    decreases |ops|
  {
    if ops == [] then s
    else
      ApplyKeepsValid(s, ops[0]);
      ApplyAll(Apply(s, ops[0]), ops[1..])
  }

  /** A global revocation takes from every space exactly the id and its linked descendants. */
  lemma RevokeExact(s: State, g: Id, q: nat, x: Id)
    requires Valid(s) && q < |s.spaces|
    ensures Holds(Apply(s, RevokeGlobal(g)).spaces[q], x) <==> Holds(s.spaces[q], x) && x != g && !Found(s, x, g)
  {
    ValidOrdered(s);
    WithoutHolds(s.spaces[q], Victims(s, g), x);
    DescendantsExact(s, g, x);
  }

  lemma HeldAfter(s: State, g: Id, x: Id)
    requires Valid(s)
    ensures Held(Apply(s, RevokeGlobal(g)), x) <==> Held(s, x) && x != g && !Found(s, x, g)
  {
    var t := Apply(s, RevokeGlobal(g));
    if Held(t, x) {
      var q :| 0 <= q < |t.spaces| && Holds(t.spaces[q], x);
      RevokeExact(s, g, q, x);
    }
    if Held(s, x) && x != g && !Found(s, x, g) {
      var q :| 0 <= q < |s.spaces| && Holds(s.spaces[q], x);
      RevokeExact(s, g, q, x);
      assert Holds(t.spaces[q], x);
    }
  }

  /** After the revocation nobody holds the id or anything granted under it. */
  ghost predicate Complete(s: State, g: Id)
    requires Valid(s)
  {
    forall x {:trigger Held(Apply(s, RevokeGlobal(g)), x)} | Held(Apply(s, RevokeGlobal(g)), x) ::
      x != g && !Descends(s.parent, x, g)
  }

  lemma {:induction false} DescendsYounger(parent: map<Id, Id>, x: Id, g: Id)
    requires Older(parent) && Descends(parent, x, g)
    ensures g < x
    decreases x
  {
    if parent[x] != g {
      DescendsYounger(parent, parent[x], g);
    }
  }

  /** Revocation is complete if and only if no held capability was granted under the id
      through a grant that an earlier revocation has dropped from the tree. */
  lemma RevokeCompleteIff(s: State, g: Id)
    requires Valid(s)
    ensures Complete(s, g) <==> forall x {:trigger Held(s, x)} | Held(s, x) :: !Broken(s, x, g)
  {
    if Complete(s, g) {
      forall x | Held(s, x)
        ensures !Broken(s, x, g)
      {
        HeldAfter(s, g, x);
        if Broken(s, x, g) {
          DescendsYounger(s.parent, x, g);
        }
      }
    }
    if forall x {:trigger Held(s, x)} | Held(s, x) :: !Broken(s, x, g) {
      forall x | Held(Apply(s, RevokeGlobal(g)), x)
        ensures x != g && !Descends(s.parent, x, g)
      {
        HeldAfter(s, g, x);
      }
    }
  }

  /** No id outside the revoked ones was granted under a revoked one. */
  ghost predicate Closed(s: State) {
    forall x {:trigger s.parent[x]} | x in s.parent && s.parent[x] in s.revoked :: x in s.revoked
  }

  /** Every grant of the run names a parent that no global revocation has named. */
  ghost predicate Disciplined(s: State, ops: seq<Op>)
    requires Valid(s) && PossibleRun(s, ops)
    decreases |ops|
  {
    ops == [] ||
    (&& (ops[0].Grant? && ops[0].under.Some? ==> ops[0].under.value !in s.revoked)
     && (ApplyKeepsValid(s, ops[0]); Disciplined(Apply(s, ops[0]), ops[1..])))
  }

  lemma ApplyKeepsClosed(s: State, op: Op)
    requires Valid(s) && Possible(s, op) && Closed(s)
    requires op.Grant? && op.under.Some? ==> op.under.value !in s.revoked
    ensures Closed(Apply(s, op))
  {
    if op.RevokeGlobal? {
      var t := Apply(s, op);
      forall x | x in t.parent && t.parent[x] in t.revoked
        ensures x in t.revoked
      {
        if x !in s.revoked {
          assert !Lost(s.tree, s.parent, x);
          VictimsClosed(s, op.id, x);
        }
      }
    }
  }

  lemma {:induction false} ClosedUnbroken(s: State, x: Id, g: Id)
    requires Valid(s) && Closed(s) && x !in s.revoked
    ensures !Broken(s, x, g)
    decreases x
  {
    if Descends(s.parent, x, g) {
      assert !Lost(s.tree, s.parent, x);
      if s.parent[x] != g {
        ClosedUnbroken(s, s.parent[x], g);
      }
    }
  }

  lemma HeldNotRevoked(s: State, x: Id)
    requires Valid(s) && Held(s, x)
    ensures x !in s.revoked
  {
    var q :| 0 <= q < |s.spaces| && Holds(s.spaces[q], x);
    assert SpaceValid(s, s.spaces[q]);
  }

  /** Over every run that grants only under unrevoked ids, each global revocation is complete. */
  lemma {:induction false} DisciplinedRunsRevokeCompletely(s: State, ops: seq<Op>, g: Id)
    requires Valid(s) && Closed(s) && PossibleRun(s, ops) && Disciplined(s, ops)
    ensures Complete(ApplyAll(s, ops), g)
    decreases |ops|
  {
    if ops == [] {
      forall x | Held(s, x)
        ensures !Broken(s, x, g)
      {
        HeldNotRevoked(s, x);
        ClosedUnbroken(s, x, g);
      }
      RevokeCompleteIff(s, g);
    } else {
      ApplyKeepsValid(s, ops[0]);
      ApplyKeepsClosed(s, ops[0]);
      DisciplinedRunsRevokeCompletely(Apply(s, ops[0]), ops[1..], g);
    }
  }

  /** In particular over every such run from boot. */
  lemma DisciplinedFromBoot(ops: seq<Op>, g: Id)
    requires PossibleRun(BOOT, ops) && Disciplined(BOOT, ops)
    ensures Complete(ApplyAll(BOOT, ops), g)
  {
    assert Valid(BOOT) && Closed(BOOT);
    DisciplinedRunsRevokeCompletely(BOOT, ops, g);
  }
}
