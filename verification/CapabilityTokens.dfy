/**
 The tokens themselves, over whole runs: what a grant hands out is what its holders keep, until it is
 revoked there, and nobody holds anything that was not granted.
 */
module CapabilityTokens {
  import opened Options
  import opened Capability

  /** Whoever holds the id of the token holds this token. */
  ghost predicate Carries(s: State, t: Token) {
    forall q, i {:trigger s.spaces[q][i]} | 0 <= q < |s.spaces| && 0 <= i < |s.spaces[q]| ::
      s.spaces[q][i].id == t.id ==> s.spaces[q][i] == t
  }

  /** Removal leaves the other tokens as they are. */
  lemma {:induction false} WithoutTokens(caps: Space, ids: set<Id>, t: Token)
    ensures t in Without(caps, ids) <==> t in caps && t.id !in ids
  {
    if caps != [] {
      WithoutTokens(caps[1..], ids, t);
      assert t in caps <==> t == caps[0] || t in caps[1..];
    }
  }

  /** Every token after an operation was there before, or is the one granted. */
  lemma TokensAfter(s: State, op: Op, q: nat, t: Token)
    requires Valid(s) && Possible(s, op) && q < |Apply(s, op).spaces| && t in Apply(s, op).spaces[q]
    ensures || (exists p :: 0 <= p < |s.spaces| && t in s.spaces[p])
            || (op.Grant? && t == Token(s.next, op.under, op.resource, op.permissions, op.target))
  {
    match op
    case Spawn =>
      assert t in s.spaces[q];
    case Fork(from) =>
      assert t in s.spaces[if q < |s.spaces| then q else from];
    case Grant(_, _, _, _, _) =>
      assert op.q != q ==> t in s.spaces[q];
    case RevokeLocal(p, id) =>
      WithoutTokens(s.spaces[p], {id}, t);
      assert t in s.spaces[q];
    case RevokeGlobal(id) =>
      WithoutTokens(s.spaces[q], Victims(s, id), t);
  }

  lemma ApplyKeepsTokens(s: State, op: Op, t: Token)
    requires Valid(s) && Possible(s, op) && Carries(s, t) && t.id < s.next
    ensures Carries(Apply(s, op), t) && t.id < Apply(s, op).next
  {
    var u := Apply(s, op);
    forall q, i | 0 <= q < |u.spaces| && 0 <= i < |u.spaces[q]| && u.spaces[q][i].id == t.id
      ensures u.spaces[q][i] == t
    {
      TokensAfter(s, op, q, u.spaces[q][i]);
    }
  }

  /** The operation takes the id from process `q`. */
  ghost predicate Takes(s: State, op: Op, q: nat, x: Id)
    requires Valid(s)
  {
    || (op.RevokeLocal? && op.q == q && op.id == x)
    || (op.RevokeGlobal? && (op.id == x || Found(s, x, op.id)))
  }

  /** What one operation does to the holding of one token by one process. */
  lemma HoldsExact(s: State, op: Op, q: nat, t: Token)
    requires Valid(s) && Possible(s, op) && q < |s.spaces| && t.id < s.next
    ensures q < |Apply(s, op).spaces|
    ensures t in Apply(s, op).spaces[q] <==> t in s.spaces[q] && !Takes(s, op, q, t.id)
  {
    match op
    case Spawn =>
    case Fork(from) =>
    case Grant(_, _, _, _, _) =>
    case RevokeLocal(p, id) =>
      WithoutTokens(s.spaces[p], {id}, t);
    case RevokeGlobal(id) =>
      ValidOrdered(s);
      WithoutTokens(s.spaces[q], Victims(s, id), t);
      DescendantsExact(s, id, t.id);
  }

  /** No operation of the run takes the id from process `q`. */
  ghost predicate Spared(s: State, ops: seq<Op>, q: nat, x: Id)
    requires Valid(s) && PossibleRun(s, ops)
    decreases |ops|
  {
    ops == [] ||
    (!Takes(s, ops[0], q, x) && (ApplyKeepsValid(s, ops[0]); Spared(Apply(s, ops[0]), ops[1..], q, x)))
  }

  lemma {:induction false} KeptOverRuns(s: State, ops: seq<Op>, q: nat, t: Token)
    requires Valid(s) && PossibleRun(s, ops) && Carries(s, t) && t.id < s.next && q < |s.spaces|
    ensures Carries(ApplyAll(s, ops), t) && q < |ApplyAll(s, ops).spaces|
    ensures t in ApplyAll(s, ops).spaces[q] <==> t in s.spaces[q] && Spared(s, ops, q, t.id)
    decreases |ops|
  {
    if ops != [] {
      ApplyKeepsValid(s, ops[0]);
      ApplyKeepsTokens(s, ops[0], t);
      HoldsExact(s, ops[0], q, t);
      KeptOverRuns(Apply(s, ops[0]), ops[1..], q, t);
    }
  }

  lemma NewIdUnused(s: State, q: nat, i: nat)
    requires Valid(s) && q < |s.spaces| && i < |s.spaces[q]|
    ensures s.spaces[q][i].id < s.next
  {
    assert SpaceValid(s, s.spaces[q]);
  }

  /** A grant places the token it was asked for. */
  lemma GrantPlaces(s: State, op: Op)
    requires Valid(s) && op.Grant? && Possible(s, op)
    ensures var t := Token(s.next, op.under, op.resource, op.permissions, op.target);
            var u := Apply(s, op);
            Carries(u, t) && t in u.spaces[op.q] && t.id < u.next && |u.spaces| == |s.spaces|
  {
    var t := Token(s.next, op.under, op.resource, op.permissions, op.target);
    var u := Apply(s, op);
    assert u.spaces[op.q] == s.spaces[op.q] + [t];
    forall q, i | 0 <= q < |u.spaces| && 0 <= i < |u.spaces[q]| && u.spaces[q][i].id == s.next
      ensures u.spaces[q][i] == t
    {
      if i < |s.spaces[q]| {
        NewIdUnused(s, q, i);
      }
    }
  }

  /** After a grant, whatever else happens: whoever holds the id holds the resource, the permissions, the target
      and the parent that were granted, and the process it was granted to holds it if and only if no operation
      has taken it from that process. */
  lemma GrantLasts(s: State, op: Op, ops: seq<Op>)
    requires Valid(s) && op.Grant? && PossibleRun(s, [op] + ops)
    ensures var t := Token(s.next, op.under, op.resource, op.permissions, op.target);
            && Carries(ApplyAll(s, [op] + ops), t)
            && op.q < |ApplyAll(s, [op] + ops).spaces|
            && Valid(Apply(s, op)) && PossibleRun(Apply(s, op), ops)
            && (t in ApplyAll(s, [op] + ops).spaces[op.q] <==> Spared(Apply(s, op), ops, op.q, s.next))
  {
    var t := Token(s.next, op.under, op.resource, op.permissions, op.target);
    assert ([op] + ops)[1..] == ops;
    ApplyKeepsValid(s, op);
    GrantPlaces(s, op);
    KeptOverRuns(Apply(s, op), ops, op.q, t);
  }

  /** A fork holds what its parent held, from then on each until an operation takes it from that one. */
  lemma ForkLasts(s: State, from: nat, ops: seq<Op>, t: Token)
    requires Valid(s) && from < |s.spaces| && t in s.spaces[from] && Carries(s, t) && t.id < s.next
    requires PossibleRun(s, [Fork(from)] + ops)
    ensures var u, r := Apply(s, Fork(from)), ApplyAll(s, [Fork(from)] + ops);
            && Valid(u) && PossibleRun(u, ops) && |s.spaces| < |r.spaces|
            && (t in r.spaces[|s.spaces|] <==> Spared(u, ops, |s.spaces|, t.id))
            && (t in r.spaces[from] <==> Spared(u, ops, from, t.id))
  {
    assert ([Fork(from)] + ops)[1..] == ops;
    ApplyKeepsValid(s, Fork(from));
    ApplyKeepsTokens(s, Fork(from), t);
    KeptOverRuns(Apply(s, Fork(from)), ops, |s.spaces|, t);
    KeptOverRuns(Apply(s, Fork(from)), ops, from, t);
  }

  // ---------- permissions ----------

  /** A grant among the operations covers the request. */
  ghost predicate GrantedFor(ops: seq<Op>, resource: ResourceKind, write: bool, execute: bool) {
    exists i :: && 0 <= i < |ops|
                && ops[i].Grant?
                && ops[i].resource == resource
                && (write ==> ops[i].permissions.write)
                && (execute ==> ops[i].permissions.execute)
  }

  /** Nothing is forged: a token held at the end of a run was held at its start or granted in it. */
  lemma {:induction false} NothingForged(s: State, ops: seq<Op>, q: nat, t: Token)
    requires Valid(s) && PossibleRun(s, ops)
    requires q < |ApplyAll(s, ops).spaces| && t in ApplyAll(s, ops).spaces[q]
    ensures || (exists p :: 0 <= p < |s.spaces| && t in s.spaces[p])
            || (exists i :: && 0 <= i < |ops|
                            && ops[i].Grant?
                            && ops[i].under == t.parent
                            && ops[i].resource == t.resource
                            && ops[i].permissions == t.permissions
                            && ops[i].target == t.target)
    decreases |ops|
  {
    if ops != [] {
      ApplyKeepsValid(s, ops[0]);
      var u := Apply(s, ops[0]);
      NothingForged(u, ops[1..], q, t);
      if p :| 0 <= p < |u.spaces| && t in u.spaces[p] {
        TokensAfter(s, ops[0], p, t);
      } else {
        var i :| && 0 <= i < |ops[1..]|
                 && ops[1..][i].Grant?
                 && ops[1..][i].under == t.parent
                 && ops[1..][i].resource == t.resource
                 && ops[1..][i].permissions == t.permissions
                 && ops[1..][i].target == t.target;
        assert ops[i + 1] == ops[1..][i];
      }
    }
  }

  /** A process has a permission only if some grant since boot gave it. */
  lemma PermissionsAreGranted(ops: seq<Op>, q: nat, resource: ResourceKind, write: bool, execute: bool)
    requires PossibleRun(BOOT, ops) && q < |ApplyAll(BOOT, ops).spaces|
    requires Permits(ApplyAll(BOOT, ops).spaces[q], resource, write, execute)
    ensures GrantedFor(ops, resource, write, execute)
  {
    var caps := ApplyAll(BOOT, ops).spaces[q];
    var i :| 0 <= i < |caps| && caps[i].Allows(resource, write, execute);
    NothingForged(BOOT, ops, q, caps[i]);
  }

  /** A granted permission is there until it is taken away. */
  lemma GrantPermits(s: State, op: Op, ops: seq<Op>, write: bool, execute: bool)
    requires Valid(s) && op.Grant? && PossibleRun(s, [op] + ops)
    requires (write ==> op.permissions.write) && (execute ==> op.permissions.execute)
    requires Possible(s, op) && Valid(Apply(s, op)) && PossibleRun(Apply(s, op), ops)
    requires Spared(Apply(s, op), ops, op.q, s.next)
    ensures op.q < |ApplyAll(s, [op] + ops).spaces|
    ensures Permits(ApplyAll(s, [op] + ops).spaces[op.q], op.resource, write, execute)
  {
    GrantLasts(s, op, ops);
    var t := Token(s.next, op.under, op.resource, op.permissions, op.target);
    var caps := ApplyAll(s, [op] + ops).spaces[op.q];
    var i :| 0 <= i < |caps| && caps[i] == t;
    assert caps[i].Allows(op.resource, write, execute);
  }
}
