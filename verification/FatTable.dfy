/**
 The file allocation table as a next-cluster relation (the "FAT Data Structure"
 section of Microsoft's FAT32 File System Specification 1.03): what it means for
 it to be well formed, and that allocating, truncating and freeing keep it so.
 */
module FatTable {
  import opened Options

  /** One 32-bit entry: the 28 bits that count, and the four reserved ones above them. */
  datatype Cell = Cell(top: nat, low: nat)

  /** Entry `c` describes cluster `c`. */
  type Fat = seq<Cell>

  const LOW28: nat := 0x1000_0000
  const END_MIN: nat := 0x0FFF_FFF8
  const END_OF_CHAIN: nat := 0x0FFF_FFFF
  const BAD_CLUSTER: nat := 0x0FFF_FFF7

  predicate Cluster(t: Fat, c: nat) {
    2 <= c < |t|
  }

  predicate Free(t: Fat, c: nat)
    requires c < |t|
  {
    t[c].low == 0
  }

  /** Marked as defective: such a cluster is neither free nor part of any chain. */
  predicate Bad(t: Fat, c: nat) {
    c < |t| && t[c].low == BAD_CLUSTER
  }

  /** What the next-cluster lookup makes of an entry: an end mark, a free or a reserved
      value all stop the walk, but the lookup takes the bad-cluster mark for a link. */
  function Decode(v: nat): Option<nat> {
    if v >= END_MIN || v < 2 then None else Some(v)
  }

  /** Marks from 0x0FFF_FFF8 on and numbers below 2 end a chain; all else is followed. */
  lemma DecodeMarks(v: nat)
    requires v < 0x1000_0000
    ensures v >= 0x0FFF_FFF8 ==> Decode(v).None?
    ensures v < 2 ==> Decode(v).None?
    ensures 2 <= v < 0x0FFF_FFF8 ==> Decode(v) == Some(v)
    ensures Decode(END_OF_CHAIN).None? && Decode(BAD_CLUSTER).Some?
  {
  }

  function Next(t: Fat, c: nat): Option<nat> {
    if c < |t| then Decode(t[c].low) else None
  }

  /** Overwrite the low 28 bits of entry `c`, keeping its top four. */
  function Put(t: Fat, c: nat, v: nat): (r: Fat)
    requires c < |t|
  {
    t[c := t[c].(low := v)]
  }

  // ---------- well-formedness ----------

  /** Every link leads to a cluster that is in use and not bad. */
  ghost predicate LinksLive(t: Fat) {
    forall c: nat {:trigger Next(t, c)} | Cluster(t, c) && Next(t, c).Some? && !Bad(t, c) ::
      Cluster(t, Next(t, c).value) && !Free(t, Next(t, c).value) && !Bad(t, Next(t, c).value)
  }

  /** No cluster has two predecessors. */
  ghost predicate LinksInjective(t: Fat) {
    forall c: nat, d: nat {:trigger Next(t, c), Next(t, d)} |
      Cluster(t, c) && Cluster(t, d) && Next(t, c).Some? && !Bad(t, c) && Next(t, c) == Next(t, d) :: c == d
  }

  /** `r` strictly falls along every link. */
  ghost predicate Ranked(t: Fat, r: seq<nat>) {
    && |r| == |t|
    && forall c: nat {:trigger Next(t, c)} | Cluster(t, c) && Next(t, c).Some? && Cluster(t, Next(t, c).value) ::
         r[Next(t, c).value] < r[c]
  }

  /** Cluster numbers also stay below the marks. */
  ghost predicate WellFormed(t: Fat) {
    |t| <= BAD_CLUSTER && LinksLive(t) && LinksInjective(t) && exists r :: Ranked(t, r)
  }

  /** `c` starts a chain: it is in use and nothing links to it. */
  ghost predicate Head(t: Fat, h: nat) {
    && Cluster(t, h) && !Free(t, h) && !Bad(t, h)
    && forall c: nat {:trigger Next(t, c)} | Cluster(t, c) :: Next(t, c) != Some(h)
  }

  /** `s` is the whole chain starting at `s[0]`. */
  ghost predicate IsChain(t: Fat, s: seq<nat>) {
    && s != []
    && (forall i | 0 <= i < |s| :: Cluster(t, s[i]))
    && (forall i {:trigger Next(t, s[i])} | 0 <= i < |s| - 1 :: Next(t, s[i]) == Some(s[i + 1]))
    && Next(t, s[|s| - 1]).None?
  }

  predicate Distinct(s: seq<nat>) {
    forall i, j | 0 <= i < j < |s| :: s[i] != s[j]
  }

  // ---------- the fuel-limited walk ----------

  function Walk(t: Fat, c: nat, fuel: nat): seq<nat>
    decreases fuel
  {
    if fuel == 0 then []
    else match Next(t, c)
      case None => [c]
      case Some(d) => [c] + Walk(t, d, fuel - 1)
  }

  /** What a walk returns: linked clusters of falling rank, all of the chain unless the fuel ran out. */
  ghost predicate Falling(t: Fat, r: seq<nat>, s: seq<nat>, fuel: nat)
    requires |r| == |t|
  {
    && |s| <= fuel && (fuel > 0 ==> s != [])
    && (forall i | 0 <= i < |s| :: Cluster(t, s[i]))
    && (forall i {:trigger Next(t, s[i])} | 0 <= i < |s| - 1 :: Next(t, s[i]) == Some(s[i + 1]))
    && (forall i, j | 0 <= i < j < |s| :: r[s[i]] > r[s[j]])
    && (0 < |s| < fuel ==> Next(t, s[|s| - 1]).None?)
  }

  lemma FallingCons(t: Fat, r: seq<nat>, c: nat, s: seq<nat>, fuel: nat)
    requires Ranked(t, r) && Cluster(t, c) && s != [] && Next(t, c) == Some(s[0]) && Falling(t, r, s, fuel)
    ensures Falling(t, r, [c] + s, fuel + 1)
  {
    var w := [c] + s;
    assert r[s[0]] < r[c];
    forall i, j | 0 <= i < j < |w| ensures r[w[i]] > r[w[j]] {
      assert w[j] == s[j - 1];
      if i > 0 { assert w[i] == s[i - 1]; } else if j > 1 { assert r[s[0]] > r[s[j - 1]]; }
    }
    forall i | 0 <= i < |w| - 1 ensures Next(t, w[i]) == Some(w[i + 1]) {
      if i > 0 { assert w[i] == s[i - 1] && w[i + 1] == s[i]; }
    }
  }

  lemma {:induction false} WalkFalls(t: Fat, r: seq<nat>, c: nat, fuel: nat)
    requires LinksLive(t) && Ranked(t, r) && Cluster(t, c) && !Bad(t, c)
    ensures Falling(t, r, Walk(t, c, fuel), fuel) && (fuel > 0 ==> Walk(t, c, fuel)[0] == c)
    decreases fuel
  {
    if fuel > 0 && Next(t, c).Some? {
      var d := Next(t, c).value;
      WalkFalls(t, r, d, fuel - 1);
      if fuel > 1 {
        FallingCons(t, r, c, Walk(t, d, fuel - 1), fuel - 1);
      } else {
        assert Walk(t, c, 1) == [c];
      }
    }
  }

  ghost function ClusterNumbers(n: nat): (r: set<nat>)
    ensures forall x :: x in r <==> 2 <= x < n
    ensures |r| == if n < 2 then 0 else n - 2
  {
    if n <= 2 then {} else ClusterNumbers(n - 1) + {n - 1}
  }

  ghost function Elements(s: seq<nat>): (r: set<nat>)
    ensures forall x :: x in r <==> x in s
    ensures Distinct(s) ==> |r| == |s|
  {
    if s == [] then {}
    else
      assert s == s[..|s| - 1] + [s[|s| - 1]];
      Elements(s[..|s| - 1]) + {s[|s| - 1]}
  }

  /** Pigeonhole: distinct cluster numbers are fewer than the entries of the table. */
  lemma DistinctBounded(s: seq<nat>, n: nat)
    requires Distinct(s) && forall i | 0 <= i < |s| :: 2 <= s[i] < n
    ensures |s| <= if n < 2 then 0 else n - 2
  {
    SubsetSmaller(Elements(s), ClusterNumbers(n));
  }

  lemma {:induction false} SubsetSmaller<T>(a: set<T>, b: set<T>)
    requires a <= b
    ensures |a| <= |b|
    decreases |a|
  {
    if a != {} {
      var x :| x in a;
      SubsetSmaller(a - {x}, b - {x});
    }
  }

  /** On a well-formed table the walk with one unit of fuel per entry returns the
      complete chain, without repetition: the fuel never cuts it short. */
  lemma WalkIsComplete(t: Fat, c: nat)
    requires WellFormed(t) && Cluster(t, c) && !Bad(t, c)
    ensures IsChain(t, Walk(t, c, |t|)) && Distinct(Walk(t, c, |t|)) && Walk(t, c, |t|)[0] == c
    ensures |Walk(t, c, |t|)| <= |t| - 2
  {
    var r :| Ranked(t, r);
    WalkFalls(t, r, c, |t|);
    DistinctBounded(Walk(t, c, |t|), |t|);
  }

  /** A chain none of whose entries changed is still a chain. */
  lemma ChainSame(t: Fat, u: Fat, s: seq<nat>)
    requires IsChain(t, s) && |u| == |t| && forall i | 0 <= i < |s| :: Next(u, s[i]) == Next(t, s[i])
    ensures IsChain(u, s)
  {
    forall i | 0 <= i < |s| - 1 ensures Next(u, s[i]) == Some(s[i + 1]) {
      assert Next(t, s[i]) == Some(s[i + 1]);
    }
  }

  /** A chain is determined by its first cluster. */
  lemma ChainUnique(t: Fat, s: seq<nat>, u: seq<nat>)
    requires IsChain(t, s) && IsChain(t, u) && s[0] == u[0]
    ensures s == u
  {
    ChainPrefix(t, s, u, |s| - 1);
    ChainPrefix(t, u, s, |u| - 1);
  }

  lemma {:induction false} ChainPrefix(t: Fat, s: seq<nat>, u: seq<nat>, i: nat)
    requires IsChain(t, s) && IsChain(t, u) && s[0] == u[0] && i < |s|
    ensures i < |u| && forall j | 0 <= j <= i :: s[j] == u[j]
    decreases i
  {
    if i > 0 {
      ChainPrefix(t, s, u, i - 1);
      assert Next(t, s[i - 1]) == Some(s[i]);
      assert i - 1 != |u| - 1;
    }
  }

  /** No cluster of a chain is bad. */
  lemma ChainNotBad(t: Fat, s: seq<nat>, i: nat)
    requires |t| <= BAD_CLUSTER && IsChain(t, s) && i < |s|
    ensures !Bad(t, s[i])
  {
    if i < |s| - 1 {
      assert Next(t, s[i]) == Some(s[i + 1]);
    }
  }

  lemma ChainOf(t: Fat, s: seq<nat>)
    requires WellFormed(t) && IsChain(t, s)
    ensures s == Walk(t, s[0], |t|) && Distinct(s)
  {
    ChainNotBad(t, s, 0);
    WalkIsComplete(t, s[0]);
    ChainUnique(t, s, Walk(t, s[0], |t|));
  }

  /** Every cluster of a chain is in use when its first one is. */
  lemma ChainLive(t: Fat, s: seq<nat>, i: nat)
    requires WellFormed(t) && IsChain(t, s) && !Free(t, s[0]) && i < |s|
    ensures !Free(t, s[i])
  {
    if i > 0 {
      ChainNotBad(t, s, i - 1);
      assert Next(t, s[i - 1]) == Some(s[i]);
    }
  }

  /** Chains from distinct heads are disjoint. */
  lemma {:induction false} HeadsDisjoint(t: Fat, s: seq<nat>, u: seq<nat>, i: nat, j: nat)
    requires WellFormed(t) && IsChain(t, s) && IsChain(t, u) && Head(t, s[0]) && Head(t, u[0]) && s[0] != u[0]
    requires i < |s| && j < |u|
    ensures s[i] != u[j]
    decreases i
  {
    if i > 0 && j > 0 {
      HeadsDisjoint(t, s, u, i - 1, j - 1);
      ChainNotBad(t, s, i - 1);
      assert Next(t, s[i - 1]) == Some(s[i]) && Next(t, u[j - 1]) == Some(u[j]);
    } else if i > 0 {
      assert Next(t, s[i - 1]) == Some(s[i]);
    } else if j > 0 {
      assert Next(t, u[j - 1]) == Some(u[j]);
    }
  }

  // ---------- allocation ----------

  /** Mark `c` as the end of a chain and, if asked, link `prev` to it. */
  function Allocated(t: Fat, c: nat, prev: Option<nat>): (r: Fat)
    requires Cluster(t, c) && (prev.Some? ==> prev.value < |t|)
  {
    var u := Put(t, c, END_OF_CHAIN);
    if prev.Some? then Put(u, prev.value, c) else u
  }

  /** `prev` can be extended: it is in use and ends its chain. */
  ghost predicate Tail(t: Fat, p: nat) {
    Cluster(t, p) && !Free(t, p) && Next(t, p).None?
  }

  lemma AllocatedEntries(t: Fat, c: nat, prev: Option<nat>)
    requires |t| <= BAD_CLUSTER && Cluster(t, c) && Free(t, c) && (prev.Some? ==> Tail(t, prev.value))
    ensures var u := Allocated(t, c, prev);
            && |u| == |t| && u[c].low == 0x0FFF_FFFF && Next(u, c).None? && !Free(u, c)
            && (prev.Some? ==> Next(u, prev.value) == Some(c) && !Free(u, prev.value) && !Bad(u, prev.value))
            && (forall d: nat | d < |t| && d != c && Some(d) != prev :: u[d] == t[d])
            && (forall d: nat | d < |t| :: u[d].top == t[d].top)
  {
  }

  lemma AllocateKeepsWellFormed(t: Fat, c: nat, prev: Option<nat>)
    requires WellFormed(t) && Cluster(t, c) && Free(t, c) && (prev.Some? ==> Tail(t, prev.value))
    ensures WellFormed(Allocated(t, c, prev))
  {
    var u := Allocated(t, c, prev);
    AllocatedEntries(t, c, prev);
    // nothing linked to `c` while it was free
    forall d: nat | Cluster(t, d)
      ensures Next(t, d) != Some(c)
    {
      assert Bad(t, d) ==> Next(t, d) == Some(BAD_CLUSTER);
    }
    forall d: nat | Cluster(t, d)
      ensures Next(u, d) == if d == c then None else if Some(d) == prev then Some(c) else Next(t, d)
      ensures Free(u, d) <==> Free(t, d) && d != c
      ensures Bad(u, d) <==> Bad(t, d)
    {
      if d != c && Some(d) != prev { assert u[d] == t[d]; }
    }
    var r :| Ranked(t, r);
    var r' := seq(|t|, d requires 0 <= d < |t| => if d == c then 0 else r[d] + 1);
    assert Ranked(u, r');
    assert LinksInjective(u);
  }

  /** The chain that ended in `prev` is one cluster longer. */
  lemma AllocateExtendsChain(t: Fat, c: nat, s: seq<nat>)
    requires WellFormed(t) && Cluster(t, c) && Free(t, c)
    requires IsChain(t, s) && !Free(t, s[0])
    ensures Tail(t, s[|s| - 1]) && IsChain(Allocated(t, c, Some(s[|s| - 1])), s + [c])
  {
    ChainLive(t, s, |s| - 1);
    AllocatedEntries(t, c, Some(s[|s| - 1]));
    ChainOf(t, s);
    forall i: nat | i < |s| ensures s[i] != c {
      ChainLive(t, s, i);
    }
    var u := Allocated(t, c, Some(s[|s| - 1]));
    var v := s + [c];
    forall i | 0 <= i < |v| - 1 ensures Next(u, v[i]) == Some(v[i + 1]) {
      if i < |s| - 1 { assert s[i] != s[|s| - 1] && Next(t, s[i]) == Some(s[i + 1]); }
    }
  }

  /** Any other chain is untouched by an allocation. */
  lemma AllocateKeepsOthers(t: Fat, c: nat, prev: Option<nat>, s: seq<nat>)
    requires WellFormed(t) && Cluster(t, c) && Free(t, c) && (prev.Some? ==> Tail(t, prev.value) && prev.value !in s)
    requires IsChain(t, s) && !Free(t, s[0])
    ensures IsChain(Allocated(t, c, prev), s)
  {
    AllocatedEntries(t, c, prev);
    var u := Allocated(t, c, prev);
    forall i: nat | i < |s| ensures Next(u, s[i]) == Next(t, s[i]) {
      ChainLive(t, s, i);
      assert u[s[i]] == t[s[i]];
    }
    ChainSame(t, u, s);
  }

  /** An allocation undone, because the cluster lies past the end of the device. */
  function RolledBack(t: Fat, c: nat, prev: Option<nat>): (r: Fat)
    requires Cluster(t, c) && (prev.Some? ==> prev.value < |t|)
  {
    var u := Allocated(t, c, prev);
    Put(if prev.Some? then Put(u, prev.value, END_OF_CHAIN) else u, c, 0)
  }

  /** The two tables follow every chain alike and agree on what is free. */
  ghost predicate SameLinks(t: Fat, u: Fat) {
    |t| == |u| && forall c: nat | c < |t| :: Next(u, c) == Next(t, c) && (Free(u, c) <==> Free(t, c))
  }

  lemma RolledBackEntries(t: Fat, c: nat, prev: Option<nat>)
    requires Cluster(t, c) && Free(t, c) && (prev.Some? ==> prev.value < |t|)
    ensures var u := RolledBack(t, c, prev);
            && |u| == |t|
            && (forall d: nat | d < |t| && (d == c || Some(d) != prev) :: u[d] == t[d])
            && (prev.Some? && prev.value != c ==> u[prev.value] == t[prev.value].(low := END_OF_CHAIN))
            && (forall d: nat | d < |t| :: u[d].top == t[d].top)
  {
  }

  /** Undoing an allocation restores every link if and only if the cluster before it ended its chain. */
  lemma RolledBackLinksIff(t: Fat, c: nat, prev: Option<nat>)
    requires Cluster(t, c) && Free(t, c) && (prev.Some? ==> prev.value < |t|)
    ensures SameLinks(t, RolledBack(t, c, prev)) <==>
            prev.None? || prev.value == c || (Next(t, prev.value).None? && !Free(t, prev.value))
  {
    RolledBackEntries(t, c, prev);
    var u := RolledBack(t, c, prev);
    if prev.Some? {
      assert prev.value != c ==> Next(u, prev.value).None? && !Free(u, prev.value);
    }
  }

  lemma SameLinksWellFormed(t: Fat, u: Fat)
    requires WellFormed(t) && SameLinks(t, u)
    requires forall e: nat | e < |t| :: Bad(u, e) <==> Bad(t, e)
    ensures WellFormed(u)
  {
    var r :| Ranked(t, r);
    assert Ranked(u, r);
  }

  lemma RollBackKeepsWellFormed(t: Fat, c: nat, prev: Option<nat>)
    requires WellFormed(t) && Cluster(t, c) && Free(t, c) && (prev.Some? ==> Tail(t, prev.value))
    ensures WellFormed(RolledBack(t, c, prev)) && SameLinks(t, RolledBack(t, c, prev))
  {
    RolledBackEntries(t, c, prev);
    RolledBackLinksIff(t, c, prev);
    SameLinksWellFormed(t, RolledBack(t, c, prev));
  }

  // ---------- truncation and freeing ----------

  /** Clear the entries of `s`. */
  function Cleared(t: Fat, s: seq<nat>): (r: Fat)
    requires forall i | 0 <= i < |s| :: s[i] < |t|
    ensures |r| == |t|
  {
    if s == [] then t else Put(Cleared(t, s[..|s| - 1]), s[|s| - 1], 0)
  }

  lemma {:induction false} ClearedEntries(t: Fat, s: seq<nat>)
    requires forall i | 0 <= i < |s| :: s[i] < |t|
    ensures forall d: nat | d < |t| :: (d in s ==> Free(Cleared(t, s), d)) && (d !in s ==> Cleared(t, s)[d] == t[d])
    ensures forall d: nat | d < |t| :: Cleared(t, s)[d].top == t[d].top
    decreases |s|
  {
    if s != [] {
      ClearedEntries(t, s[..|s| - 1]);
      assert s == s[..|s| - 1] + [s[|s| - 1]];
    }
  }

  /** Keep the first `k` clusters of chain `s`: end mark on the last kept, the rest freed. */
  function Truncated(t: Fat, s: seq<nat>, k: nat): (r: Fat)
    requires k <= |s| && forall i | 0 <= i < |s| :: s[i] < |t|
  {
    Cleared(if 0 < k < |s| then Put(t, s[k - 1], END_OF_CHAIN) else t, s[k..])
  }

  /** Clearing the end of a sequence of entries leaves its start and everything else. */
  lemma ClearedTail(v: Fat, s: seq<nat>, k: nat)
    requires Distinct(s) && k <= |s| && forall i | 0 <= i < |s| :: s[i] < |v|
    ensures var u := Cleared(v, s[k..]);
            && |u| == |v|
            && (forall d: nat | d < |v| && d !in s :: u[d] == v[d])
            && (forall i | k <= i < |s| :: Free(u, s[i]))
            && (forall i | 0 <= i < k :: u[s[i]] == v[s[i]])
            && (forall d: nat | d < |v| :: u[d].top == v[d].top)
  {
    ClearedEntries(v, s[k..]);
    forall i | 0 <= i < |s|
      ensures s[i] in s[k..] <==> i >= k
    {
      if i >= k {
        assert s[k..][i - k] == s[i];
      }
    }
    assert forall d: nat | d < |v| && d !in s :: d !in s[k..];
  }

  lemma TruncatedCells(t: Fat, s: seq<nat>, k: nat)
    requires Distinct(s) && k <= |s| && forall i | 0 <= i < |s| :: s[i] < |t|
    ensures var u := Truncated(t, s, k);
            && |u| == |t|
            && (forall d: nat | d < |t| && d !in s :: u[d] == t[d])
            && (forall i | k <= i < |s| :: Free(u, s[i]))
            && (forall i | 0 <= i < k - 1 :: u[s[i]] == t[s[i]])
            && (0 < k < |s| ==> u[s[k - 1]].low == 0x0FFF_FFFF)
            && (0 < k == |s| ==> u[s[k - 1]] == t[s[k - 1]])
            && (forall d: nat | d < |t| :: u[d].top == t[d].top)
  {
    ClearedTail(if 0 < k < |s| then Put(t, s[k - 1], END_OF_CHAIN) else t, s, k);
  }

  lemma TruncatedEntries(t: Fat, s: seq<nat>, k: nat)
    requires WellFormed(t) && IsChain(t, s) && !Free(t, s[0]) && k <= |s|
    ensures var u := Truncated(t, s, k);
            && |u| == |t|
            && (forall d: nat | d < |t| && d !in s :: u[d] == t[d])
            && (forall i | k <= i < |s| :: Free(u, s[i]))
            && (forall i | 0 <= i < k - 1 :: u[s[i]] == t[s[i]])
            && (0 < k ==> Next(u, s[k - 1]).None? && !Free(u, s[k - 1]))
            && (forall d: nat | d < |t| :: u[d].top == t[d].top)
  {
    assert Distinct(s) by { ChainOf(t, s); }
    TruncatedCells(t, s, k);
    if 0 < k {
      ChainLive(t, s, k - 1);
    }
  }

  /** Cutting the chain of a head keeps the table well formed and frees exactly the clusters cut off. */
  lemma TruncateKeepsWellFormed(t: Fat, s: seq<nat>, k: nat)
    requires WellFormed(t) && IsChain(t, s) && Head(t, s[0]) && k <= |s|
    ensures WellFormed(Truncated(t, s, k))
    ensures k > 0 ==> IsChain(Truncated(t, s, k), s[..k])
    ensures forall d: nat | Cluster(t, d) :: Free(Truncated(t, s, k), d) <==> Free(t, d) || d in s[k..]
  {
    var u := Truncated(t, s, k);
    TruncatedFree(t, s, k);
    assert LinksSurvive(t, u, s, k) by { TruncateLinks(t, s, k); }
    assert |u| == |t| by { TruncatedEntries(t, s, k); }
    SurvivingLinks(t, u, s, k);
    TruncatedChain(t, s, k);
  }

  lemma TruncatedChain(t: Fat, s: seq<nat>, k: nat)
    requires WellFormed(t) && IsChain(t, s) && !Free(t, s[0]) && k <= |s|
    ensures k > 0 ==> IsChain(Truncated(t, s, k), s[..k])
  {
    TruncatedEntries(t, s, k);
    if k > 0 {
      var u, w := Truncated(t, s, k), s[..k];
      forall i | 0 <= i < |w| - 1
        ensures Next(u, w[i]) == Some(w[i + 1])
      {
        assert u[s[i]] == t[s[i]];
        assert Next(t, s[i]) == Some(s[i + 1]);
      }
    }
  }

  /** Dropping links and the clusters they led to keeps a table well formed. */
  lemma SurvivingLinks(t: Fat, u: Fat, s: seq<nat>, k: nat)
    requires WellFormed(t) && |u| == |t| && k <= |s| && LinksSurvive(t, u, s, k)
    requires forall d: nat | Cluster(t, d) :: Free(u, d) <==> Free(t, d) || d in s[k..]
    ensures WellFormed(u)
  {
    var r :| Ranked(t, r);
    assert Ranked(u, r);
    forall d: nat | Cluster(u, d)
      ensures Bad(u, d) ==> Bad(t, d)
      ensures Bad(t, d) && Next(u, d).Some? ==> Bad(u, d)
    {
      assert Bad(u, d) ==> Next(u, d) == Some(BAD_CLUSTER);
    }
    forall d: nat | Cluster(u, d) && Next(u, d).Some? && !Bad(u, d)
      ensures Cluster(u, Next(u, d).value) && !Free(u, Next(u, d).value) && !Bad(u, Next(u, d).value)
    {
      assert Next(u, d) == Next(t, d);
    }
    assert LinksInjective(u);
  }

  /** A link of the truncated table is an old link, and leads to a kept cluster. */
  ghost predicate LinksSurvive(t: Fat, u: Fat, s: seq<nat>, k: nat)
    requires k <= |s|
  {
    forall d: nat | Cluster(t, d) && Next(u, d).Some? :: Next(u, d) == Next(t, d) && Next(u, d).value !in s[k..]
  }

  lemma TruncateLinks(t: Fat, s: seq<nat>, k: nat)
    requires WellFormed(t) && IsChain(t, s) && Head(t, s[0]) && k <= |s|
    ensures LinksSurvive(t, Truncated(t, s, k), s, k)
  {
    var u := Truncated(t, s, k);
    forall d: nat | Cluster(t, d) && Next(u, d).Some?
      ensures Next(u, d) == Next(t, d) && Next(u, d).value !in s[k..]
    {
      TruncateLink(t, s, k, d);
    }
  }

  lemma TruncateLink(t: Fat, s: seq<nat>, k: nat, d: nat)
    requires WellFormed(t) && IsChain(t, s) && Head(t, s[0]) && k <= |s|
    requires Cluster(t, d) && Next(Truncated(t, s, k), d).Some?
    ensures Next(Truncated(t, s, k), d) == Next(t, d) && Next(t, d).value !in s[k..]
  {
    TruncatedEntries(t, s, k);
    if d in s {
      assert Distinct(s) by { ChainOf(t, s); }
      var i :| 0 <= i < |s| && s[i] == d;
      assert i < k - 1;
      assert Next(t, d) == Some(s[i + 1]);
    } else {
      forall j: nat | j < |s| ensures Next(t, d) != Some(s[j]) {
        if Next(t, d) == Some(s[j]) { PredecessorInChain(t, s, j, d); }
      }
    }
  }

  lemma TruncatedFree(t: Fat, s: seq<nat>, k: nat)
    requires WellFormed(t) && IsChain(t, s) && !Free(t, s[0]) && k <= |s|
    ensures forall d: nat | Cluster(t, d) :: Free(Truncated(t, s, k), d) <==> Free(t, d) || d in s[k..]
  {
    TruncatedEntries(t, s, k);
    ChainOf(t, s);
    var u := Truncated(t, s, k);
    forall d: nat | Cluster(t, d)
      ensures Free(u, d) <==> Free(t, d) || d in s[k..]
    {
      if d in s {
        var i :| 0 <= i < |s| && s[i] == d;
        ChainLive(t, s, i);
        if i >= k {
          assert s[k..][i - k] == d;
        } else if d in s[k..] {
          assert false;
        }
      }
    }
  }

  /** Only the chain itself links into it, and nothing links to its head. */
  lemma PredecessorInChain(t: Fat, s: seq<nat>, j: nat, d: nat)
    requires WellFormed(t) && IsChain(t, s) && Head(t, s[0]) && j < |s| && Cluster(t, d) && Next(t, d) == Some(s[j])
    ensures d in s
  {
    if j > 0 {
      ChainNotBad(t, s, j - 1);
      assert Next(t, s[j - 1]) == Some(s[j]);
    }
  }

  /** Other chains survive a truncation. */
  lemma TruncateKeepsOthers(t: Fat, s: seq<nat>, k: nat, w: seq<nat>)
    requires WellFormed(t) && IsChain(t, s) && Head(t, s[0]) && k <= |s|
    requires IsChain(t, w) && Head(t, w[0]) && w[0] != s[0]
    ensures IsChain(Truncated(t, s, k), w) && Head(Truncated(t, s, k), w[0])
  {
    TruncatedEntries(t, s, k);
    forall i: nat | i < |w| ensures w[i] !in s {
      forall j: nat | j < |s| ensures s[j] != w[i] { HeadsDisjoint(t, s, w, j, i); }
    }
    var u := Truncated(t, s, k);
    assert forall i | 0 <= i < |w| :: u[w[i]] == t[w[i]];
    ChainSame(t, u, w);
    TruncateLinks(t, s, k);
  }

  // ---------- every run ----------

  /** The lowest-numbered free cluster at or above `from`, if there is one. */
  function LowestFree(t: Fat, from: nat): (r: Option<nat>)
    requires 2 <= from
    ensures r.Some? ==> from <= r.value < |t| && Free(t, r.value) && forall c: nat | from <= c < r.value :: !Free(t, c)
    ensures r.None? ==> forall c: nat | from <= c < |t| :: !Free(t, c)
    decreases |t| - from
  {
    if from >= |t| then None else if Free(t, from) then Some(from) else LowestFree(t, from + 1)
  }

  lemma {:induction false} LowestFreeIs(t: Fat, from: nat, c: nat)
    requires 2 <= from <= c < |t| && Free(t, c) && forall e: nat | from <= e < c :: !Free(t, e)
    ensures LowestFree(t, from) == Some(c)
    decreases c - from
  {
    if from < c {
      LowestFreeIs(t, from + 1, c);
    }
  }

  /** What callers do to the table: start a chain, extend the chain of a head by
      one cluster, or cut it to its first `keep` clusters (0 frees it). An allocation
      is undone if its cluster is not on the device. */
  datatype Op = Start(onDevice: bool) | Extend(head: nat, onDevice: bool) | Cut(head: nat, keep: nat)

  /** An allocation after `prev`, if a cluster is free. */
  function Taken(t: Fat, prev: Option<nat>, onDevice: bool): Fat
    requires prev.Some? ==> prev.value < |t|
  {
    var c := LowestFree(t, 2);
    if c.None? then t else if onDevice then Allocated(t, c.value, prev) else RolledBack(t, c.value, prev)
  }

  ghost function Apply(t: Fat, op: Op): Fat {
    match op
    case Start(on) => Taken(t, None, on)
    case Extend(h, on) =>
      var s := Walk(t, h, |t|);
      if Head(t, h) && IsChain(t, s) then Taken(t, Some(s[|s| - 1]), on) else t
    case Cut(h, k) =>
      var s := Walk(t, h, |t|);
      if Head(t, h) && IsChain(t, s) && k <= |s| then Truncated(t, s, k) else t
  }

  ghost function ApplyAll(t: Fat, ops: seq<Op>): Fat {
    if ops == [] then t else Apply(ApplyAll(t, ops[..|ops| - 1]), ops[|ops| - 1])
  }

  lemma TakenKeepsWellFormed(t: Fat, prev: Option<nat>, onDevice: bool)
    requires WellFormed(t) && (prev.Some? ==> Tail(t, prev.value))
    ensures WellFormed(Taken(t, prev, onDevice)) && |Taken(t, prev, onDevice)| == |t|
    ensures forall c: nat | c < |t| :: Taken(t, prev, onDevice)[c].top == t[c].top
  {
    var c := LowestFree(t, 2);
    if c.Some? && onDevice {
      AllocateKeepsWellFormed(t, c.value, prev);
      AllocatedEntries(t, c.value, prev);
    } else if c.Some? {
      RollBackKeepsWellFormed(t, c.value, prev);
      RolledBackEntries(t, c.value, prev);
    }
  }

  lemma ApplyKeepsWellFormed(t: Fat, op: Op)
    requires WellFormed(t)
    ensures WellFormed(Apply(t, op)) && |Apply(t, op)| == |t|
    ensures forall c: nat | c < |t| :: Apply(t, op)[c].top == t[c].top
  {
    match op
    case Start(on) =>
      TakenKeepsWellFormed(t, None, on);
    case Extend(h, on) =>
      var s := Walk(t, h, |t|);
      if Head(t, h) && IsChain(t, s) {
        ChainLive(t, s, |s| - 1);
        TakenKeepsWellFormed(t, Some(s[|s| - 1]), on);
      }
    case Cut(h, k) =>
      var s := Walk(t, h, |t|);
      if Head(t, h) && IsChain(t, s) && k <= |s| {
        WalkIsComplete(t, h);
        TruncateKeepsWellFormed(t, s, k);
        TruncatedEntries(t, s, k);
      }
  }

  /** Every run of allocations, extensions, truncations and frees keeps the table
      well formed and every entry's reserved bits as they were. */
  lemma {:induction false} RunKeepsWellFormed(t: Fat, ops: seq<Op>)
    requires WellFormed(t)
    ensures WellFormed(ApplyAll(t, ops)) && |ApplyAll(t, ops)| == |t|
    ensures forall c: nat | c < |t| :: ApplyAll(t, ops)[c].top == t[c].top
    decreases |ops|
  {
    if ops != [] {
      RunKeepsWellFormed(t, ops[..|ops| - 1]);
      ApplyKeepsWellFormed(ApplyAll(t, ops[..|ops| - 1]), ops[|ops| - 1]);
    }
  }

  ghost predicate AllFree(t: Fat) {
    forall c: nat | Cluster(t, c) :: Free(t, c)
  }

  lemma StartTwice(t: Fat)
    requires 5 <= |t| && AllFree(t)
    ensures ApplyAll(t, [Start(true), Start(true)]) == Allocated(Allocated(t, 2, None), 3, None)
  {
    var ops := [Start(true), Start(true)];
    assert ops[..1] == [Start(true)] && ops[..1][..0] == [];
    assert Free(t, 2) && Free(t, 3);
    LowestFreeIs(t, 2, 2);
    LowestFreeIs(Allocated(t, 2, None), 2, 3);
    assert ApplyAll(t, ops[..1]) == Apply(ApplyAll(t, []), Start(true));
    assert ApplyAll(t, ops) == Apply(ApplyAll(t, ops[..1]), ops[1]);
  }

  /** A table whose first two clusters are chains of their own and whose others are free. */
  ghost predicate TwoStarted(t: Fat) {
    && 5 <= |t| <= BAD_CLUSTER
    && forall c: nat {:trigger Next(t, c)} | Cluster(t, c) :: Next(t, c).None? && (Free(t, c) <==> c > 3)
  }

  lemma ExtendFirst(t: Fat)
    requires TwoStarted(t)
    ensures Apply(t, Extend(2, true)) == Allocated(t, 4, Some(2))
    ensures IsChain(Allocated(t, 4, Some(2)), [2, 4]) && Head(Allocated(t, 4, Some(2)), 2)
  {
    assert Next(t, 2).None? && Next(t, 3).None? && Next(t, 4).None?;
    LowestFreeIs(t, 2, 4);
    assert Walk(t, 2, |t|) == [2];
    assert Head(t, 2) && IsChain(t, [2]);
    var u := Allocated(t, 4, Some(2));
    forall c: nat | Cluster(u, c)
      ensures Next(u, c) == if c == 2 then Some(4) else None
    {
      assert Next(t, c).None?;
    }
  }

  /** Two files started and the first extended: its second cluster does not follow its first. */
  lemma FragmentedChain(t: Fat)
    requires 5 <= |t| <= BAD_CLUSTER && AllFree(t)
    ensures var u := ApplyAll(t, [Start(true), Start(true), Extend(2, true)]);
            IsChain(u, [2, 4]) && Head(u, 2)
  {
    var ops := [Start(true), Start(true), Extend(2, true)];
    assert ops[..2] == [Start(true), Start(true)];
    StartTwice(t);
    var t2 := Allocated(Allocated(t, 2, None), 3, None);
    forall c: nat | Cluster(t2, c)
      ensures Next(t2, c).None? && (Free(t2, c) <==> c > 3)
    {
      assert c > 3 ==> t2[c] == t[c] && Free(t, c);
    }
    ExtendFirst(t2);
  }
}
