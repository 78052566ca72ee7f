/** The stored state and the methods that update it in place, each performing its operation. */
module CapabilityStore {
  import opened Options
  import opened Capability

  lemma {:induction false} RemoveOnly(caps: Space, pos: nat)
    requires pos < |caps| && Unique(caps)
    ensures Without(caps, {caps[pos].id}) == caps[..pos] + caps[pos + 1..]
  {
    if pos == 0 {
      NoneWithout(caps[1..], {caps[0].id});
      assert caps[..0] + caps[1..] == caps[1..];
    } else {
      assert Unique(caps[1..]) by {
        assert forall i | 0 <= i < |caps[1..]| :: caps[1..][i] == caps[i + 1];
      }
      RemoveOnly(caps[1..], pos - 1);
      assert caps[1..][..pos - 1] == caps[1..pos] && caps[1..][pos..] == caps[pos + 1..];
      assert caps[..pos] == [caps[0]] + caps[1..pos];
    }
  }

  lemma {:induction false} NoneWithout(caps: Space, ids: set<Id>)
    requires forall i | 0 <= i < |caps| :: caps[i].id !in ids
    ensures Without(caps, ids) == caps
  {
    if caps != [] {
      NoneWithout(caps[1..], ids);
    }
  }

  lemma {:induction false} WithoutBoth(caps: Space, a: set<Id>, b: set<Id>)
    ensures Without(Without(caps, a), b) == Without(caps, a + b)
  {
    if caps != [] {
      WithoutBoth(caps[1..], a, b);
      if caps[0].id !in a {
        assert Without(caps, a)[1..] == Without(caps[1..], a);
      }
    }
  }

  ghost function Ids(s: seq<Id>): set<Id> {
    set x | x in s
  }

  class Store {
    var nextId: Id
    var spaces: seq<Space>
    var children: Tree
    ghost var parent: map<Id, Id>
    ghost var revoked: set<Id>

    constructor ()
      ensures Abs() == BOOT && Valid(Abs())
    {
      nextId := 1;
      spaces := [];
      children := map[];
      parent := map[];
      revoked := {};
    }

    ghost function Abs(): State
      reads this
    {
      State(nextId, spaces, children, parent, revoked)
    }

    /** A new process starts without capabilities. */
    method SpawnSpace() returns (q: nat)
      requires Valid(Abs())
      modifies this`spaces
      ensures Abs() == Apply(old(Abs()), Spawn) && Valid(Abs()) && q == old(|spaces|)
      ensures spaces == old(spaces) + [[]]
    {
      ApplyKeepsValid(Abs(), Spawn);
      q := |spaces|;
      spaces := spaces + [[]];
    }

    /** The new process holds the same tokens. */
    method ForkSpace(from: nat) returns (q: nat)
      requires Valid(Abs()) && from < |spaces|
      modifies this
      ensures Abs() == Apply(old(Abs()), Fork(from)) && Valid(Abs()) && q == old(|spaces|)
      ensures spaces == old(spaces) + [old(spaces)[from]]
    {
      ApplyKeepsValid(Abs(), Fork(from));
      q := |spaces|;
      spaces := spaces + [spaces[from]];
    }

    /** Every id is new: larger than all before it. */
    method GrantToken(q: nat, resource: ResourceKind, permissions: Permissions, target: nat, under: Option<Id>)
      returns (id: Id)
      requires Valid(Abs()) && q < |spaces| && (under.Some? ==> under.value < nextId)
      modifies this
      ensures Abs() == Apply(old(Abs()), Grant(q, resource, permissions, target, under)) && Valid(Abs())
      ensures !Held(old(Abs()), id) && Holds(spaces[q], id) && id == old(nextId) && nextId == id + 1
      ensures |spaces| == |old(spaces)|
      ensures spaces[q] == old(spaces)[q] + [Token(id, under, resource, permissions, target)]
      ensures forall r | 0 <= r < |spaces| && r != q :: spaces[r] == old(spaces)[r]
    {
      ghost var was := Abs();
      ApplyKeepsValid(was, Grant(q, resource, permissions, target, under));
      id := nextId;
      nextId := nextId + 1;
      if under.Some? {
        children := children[under.value := Kids(children, under.value) + [id]];
        parent := parent[id := under.value];
      }
      spaces := spaces[q := spaces[q] + [Token(id, under, resource, permissions, target)]];
      assert spaces[q][|spaces[q]| - 1].id == id;
      NewIdNotHeld(was);
    }

    /** The token with this id, of which a space holds at most one. */
    method Lookup(q: nat, id: Id) returns (r: Option<Token>)
      requires Valid(Abs()) && q < |spaces|
      ensures r.Some? <==> Holds(spaces[q], id)
      ensures r.Some? ==> forall i | 0 <= i < |spaces[q]| && spaces[q][i].id == id :: spaces[q][i] == r.value
    {
      var caps := spaces[q];
      assert SpaceValid(Abs(), caps);
      for i := 0 to |caps|
        invariant forall j | 0 <= j < i :: caps[j].id != id
      {
        if caps[i].id == id {
          return Some(caps[i]);
        }
      }
      r := None;
    }

    method HasPermission(q: nat, kind: ResourceKind, needsWrite: bool, needsExec: bool) returns (ok: bool)
      requires q < |spaces|
      ensures ok <==> exists i :: && 0 <= i < |spaces[q]|
                                  && spaces[q][i].resource == kind
                                  && (needsWrite ==> spaces[q][i].permissions.write)
                                  && (needsExec ==> spaces[q][i].permissions.execute)
      ensures ok <==> Permits(spaces[q], kind, needsWrite, needsExec)
    {
      var caps := spaces[q];
      for i := 0 to |caps|
        invariant forall j | 0 <= j < i :: !caps[j].Allows(kind, needsWrite, needsExec)
      {
        if caps[i].Allows(kind, needsWrite, needsExec) {
          return true;
        }
      }
      ok := false;
    }

    method RevokeLocalIn(q: nat, id: Id) returns (ok: bool)
      requires Valid(Abs()) && q < |spaces|
      modifies this`spaces
      ensures Abs() == Apply(old(Abs()), RevokeLocal(q, id)) && Valid(Abs())
      ensures ok <==> Holds(old(spaces)[q], id)
    {
      ApplyKeepsValid(Abs(), RevokeLocal(q, id));
      var caps := spaces[q];
      var pos := 0;
      while pos < |caps| && caps[pos].id != id
        invariant pos <= |caps|
        invariant forall i | 0 <= i < pos :: caps[i].id != id
      {
        pos := pos + 1;
      }
      ok := pos < |caps|;
      if ok {
        assert SpaceValid(Abs(), caps);
        RemoveOnly(caps, pos);
        spaces := spaces[q := caps[..pos] + caps[pos + 1..]];
      } else {
        NoneWithout(caps, {id});
      }
    }

    /** The recursive walk of the tree, pushing each child before its own descendants. */
    method GetAllDescendants(id: Id, out: seq<Id>) returns (all: seq<Id>)
      requires Ordered(children, nextId)
      ensures all == out + Descendants(children, nextId, id)
      decreases nextId - id
    {
      all := out;
      var kids := Kids(children, id);
      var i := 0;
      while i < |kids|
        invariant 0 <= i <= |kids| && kids == Kids(children, id)
        invariant out + Descendants(children, nextId, id) == all + DescendantsOf(children, nextId, id, kids[i..])
      {
        assert kids[i] in Kids(children, id) && kids[i..][0] == kids[i] && kids[i..][1..] == kids[i + 1..];
        all := GetAllDescendants(kids[i], all + [kids[i]]);
        i := i + 1;
      }
    }

    /** Removes the given ids from one space, one after another. */
    method RevokeFrom(q: nat, ids: seq<Id>)
      requires Valid(Abs()) && q < |spaces|
      modifies this`spaces
      ensures spaces == old(spaces)[q := Without(old(spaces)[q], Ids(ids))] && Valid(Abs())
    {
      ghost var was := spaces[q];
      NoneWithout(was, {});
      assert Ids(ids[..0]) == {};
      for i := 0 to |ids|
        invariant |spaces| == |old(spaces)| && Valid(Abs())
        invariant spaces == old(spaces)[q := Without(was, Ids(ids[..i]))]
      {
        var _ := RevokeLocalIn(q, ids[i]);
        WithoutBoth(was, Ids(ids[..i]), {ids[i]});
        assert Ids(ids[..i]) + {ids[i]} == Ids(ids[..i + 1]);
      }
      assert ids[..|ids|] == ids;
    }

    method RevokeFromAll(ids: seq<Id>)
      requires Valid(Abs())
      modifies this`spaces
      ensures spaces == Revoke(old(Abs()), Ids(ids)).spaces
    {
      for q := 0 to |spaces|
        invariant |spaces| == |old(spaces)| && Valid(Abs())
        invariant forall r {:trigger spaces[r]} | 0 <= r < q :: spaces[r] == Without(old(spaces)[r], Ids(ids))
        invariant forall r {:trigger spaces[r]} | q <= r < |spaces| :: spaces[r] == old(spaces)[r]
      {
        RevokeFrom(q, ids);
      }
    }

    method RemoveNodes(ids: seq<Id>)
      modifies this`children
      ensures children == old(children) - Ids(ids)
    {
      for i := 0 to |ids|
        invariant children == old(children) - Ids(ids[..i])
      {
        children := children - {ids[i]};
        assert ids[..i + 1] == ids[..i] + [ids[i]];
      }
      assert ids[..|ids|] == ids;
    }

    /** Revokes an id and everything the tree links below it, in every process. */
    method RevokeEverywhere(id: Id)
      requires Valid(Abs())
      modifies this
      ensures Abs() == Apply(old(Abs()), RevokeGlobal(id)) && Valid(Abs())
    {
      ghost var s := Abs();
      ApplyKeepsValid(s, RevokeGlobal(id));
      ValidOrdered(s);
      var ids := GetAllDescendants(id, []);
      ids := ids + [id];
      assert Ids(ids) == Victims(s, id);
      RevokeFromAll(ids);
      RemoveNodes(ids);
      revoked := revoked + set x | x in Ids(ids) && x < nextId;
      assert Abs() == Revoke(s, Ids(ids));
    }
  }

  lemma NewIdNotHeld(s: State)
    requires Valid(s)
    ensures !Held(s, s.next)
  {
  }
}
