/**
 A run after which a global revocation misses a capability: a grant under an id that an
 earlier revocation has already cut out of the tree.
 */
module CapabilityEscape {
  import opened Options
  import opened Capability

  /** One process, ids 1, 2 under 1 and 3 under 2; then 2 is revoked and 4 granted under 3. */
  function Escape(): State {
    var full := Permissions(true, true, true, true);
    State(5, [[Token(1, None, Memory, full, 0), Token(4, Some(3), Memory, full, 0)]],
          map[1 := [2], 3 := [4]], map[2 := 1, 3 := 2, 4 := 3], {2, 3})
  }

  ghost predicate Reaches(s: State, t: State) {
    Valid(s) && exists ops {:trigger PossibleRun(s, ops)} :: PossibleRun(s, ops) && ApplyAll(s, ops) == t
  }

  lemma ReachesItself(s: State)
    requires Valid(s)
    ensures Reaches(s, s)
  {
    assert PossibleRun(s, []) && ApplyAll(s, []) == s;
  }

  lemma StepReaches(s: State, op: Op, t: State)
    requires Valid(s) && Possible(s, op) && Reaches(Apply(s, op), t)
    ensures Reaches(s, t)
  {
    var u := Apply(s, op);
    var ops :| PossibleRun(u, ops) && ApplyAll(u, ops) == t;
    var all := [op] + ops;
    assert all[1..] == ops;
    assert PossibleRun(s, all) && ApplyAll(s, all) == t;
  }

  function Sample(id: Id, under: Option<Id>): Token {
    Token(id, under, Memory, Permissions(true, true, true, true), 0)
  }

  function Granting(under: Option<Id>): Op {
    Grant(0, Memory, Permissions(true, true, true, true), 0, under)
  }

  /** The states before the first grant, after each grant, and after the revocation of 2. */
  function Stage(n: nat): State {
    if n == 0 then State(1, [[]], map[], map[], {})
    else if n == 1 then State(2, [[Sample(1, None)]], map[], map[], {})
    else if n == 2 then State(3, [[Sample(1, None), Sample(2, Some(1))]], map[1 := [2]], map[2 := 1], {})
    else if n == 3 then
      State(4, [[Sample(1, None), Sample(2, Some(1)), Sample(3, Some(2))]], map[1 := [2], 2 := [3]],
        map[2 := 1, 3 := 2], {})
    else State(4, [[Sample(1, None)]], map[1 := [2]], map[2 := 1, 3 := 2], {2, 3})
  }

  lemma GrantStage(n: nat, under: Option<Id>)
    requires n < 3 && under == (if n == 0 then None else Some(n)) && Valid(Stage(n))
    ensures Apply(Stage(n), Granting(under)) == Stage(n + 1)
    ensures Valid(Stage(n + 1))
  {
    var t, e := Apply(Stage(n), Granting(under)), Stage(n + 1);
    assert t.spaces[0] == e.spaces[0] && t.spaces == e.spaces;
    assert n > 0 ==> Kids(Stage(n).tree, n) + [n + 1] == [n + 1] && t.tree == e.tree && t.parent == e.parent;
    ApplyKeepsValid(Stage(n), Granting(under));
  }

  lemma WithoutFirst(t: Token, rest: Space, ids: set<Id>)
    ensures Without([t] + rest, ids) == (if t.id in ids then [] else [t]) + Without(rest, ids)
  {
    assert ([t] + rest)[1..] == rest;
  }

  lemma StageVictims()
    requires Valid(Stage(3))
    ensures Victims(Stage(3), 2) == {2, 3}
  {
    var s := Stage(3);
    ValidOrdered(s);
    assert Descendants(s.tree, 4, 3) == [];
    assert Descendants(s.tree, 4, 2) == [3];
  }

  lemma StageKept()
    ensures Without(Stage(3).spaces[0], {2, 3}) == Stage(4).spaces[0]
  {
    var t1, t2, t3 := Sample(1, None), Sample(2, Some(1)), Sample(3, Some(2));
    WithoutFirst(t3, [], {2, 3});
    WithoutFirst(t2, [t3], {2, 3});
    WithoutFirst(t1, [t2, t3], {2, 3});
    assert [t1] + [t2, t3] == [t1, t2, t3] && [t2] + [t3] == [t2, t3] && [t3] + [] == [t3];
  }

  lemma RevokeStage()
    requires Valid(Stage(3))
    ensures Apply(Stage(3), RevokeGlobal(2)) == Stage(4)
  {
    StageVictims();
    StageKept();
    var t, e := Revoke(Stage(3), {2, 3}), Stage(4);
    assert t.spaces == e.spaces && t.tree == e.tree && t.revoked == e.revoked;
  }

  lemma LastStage()
    requires Valid(Stage(4))
    ensures Reaches(Stage(4), Escape())
  {
    var op := Granting(Some(3));
    var t, e := Apply(Stage(4), op), Escape();
    assert t.spaces[0] == e.spaces[0] && t.spaces == e.spaces;
    assert Kids(Stage(4).tree, 3) + [4] == [4] && t.tree == e.tree && t.parent == e.parent;
    ApplyKeepsValid(Stage(4), op);
    ReachesItself(e);
    StepReaches(Stage(4), op, e);
  }

  lemma {:induction false} StageReaches(n: nat)
    requires n <= 3 && Valid(Stage(n))
    ensures Reaches(Stage(n), Escape())
    decreases 3 - n
  {
    var op := if n == 3 then RevokeGlobal(2) else Granting(if n == 0 then None else Some(n));
    if n == 3 {
      RevokeStage();
      ApplyKeepsValid(Stage(3), op);
      LastStage();
    } else {
      GrantStage(n, op.under);
      StageReaches(n + 1);
    }
    StepReaches(Stage(n), op, Escape());
  }

  lemma EscapeReached()
    ensures Reaches(BOOT, Escape())
  {
    assert Apply(BOOT, Spawn) == Stage(0);
    ApplyKeepsValid(BOOT, Spawn);
    StageReaches(0);
    StepReaches(BOOT, Spawn, Escape());
  }

  lemma ReachedValid(s: State)
    requires Reaches(BOOT, s)
    ensures Valid(s)
  {
    var ops :| PossibleRun(BOOT, ops) && ApplyAll(BOOT, ops) == s;
  }

  lemma EscapeBroken()
    requires Older(Escape().parent)
    ensures Descends(Escape().parent, 4, 1) && Broken(Escape(), 4, 1)
  {
    var s := Escape();
    assert Descends(s.parent, 2, 1) && Descends(s.parent, 3, 1);
    assert Lost(s.tree, s.parent, 3) && Broken(s, 3, 1);
  }

  /** Revoking id 1 leaves id 4 held, though it was granted under 3, under 2, under 1. */
  lemma EscapeMissed()
    ensures Valid(Escape()) && Held(Escape(), 4) && Descends(Escape().parent, 4, 1)
    ensures !Complete(Escape(), 1)
    ensures Held(Apply(Escape(), RevokeGlobal(1)), 4)
  {
    var s := Escape();
    EscapeReached();
    ReachedValid(s);
    EscapeBroken();
    assert s.spaces[0][1].id == 4 && Holds(s.spaces[0], 4) && Held(s, 4);
    RevokeCompleteIff(s, 1);
    HeldAfter(s, 1, 4);
  }
}
