/**
 What files hold: the bytes of a cluster chain, chains that grow by zeroed
 clusters or are cut short, and the head and size in a directory entry. All of it
 is stated over the allocation table and the contents of the clusters.
 */
module FatContent {
  import opened Options
  import opened Bytes
  import opened FatTable

  /** The clusters a device has room for, with their contents. */
  type Store = map<nat, seq<u8>>

  ghost predicate Uniform(m: Store, bpc: nat) {
    forall c {:trigger m[c]} | c in m :: |m[c]| == bpc && 2 <= c
  }

  // ---------- the bytes of a chain ----------

  predicate Stored(m: Store, s: seq<nat>) {
    forall i | 0 <= i < |s| :: s[i] in m
  }

  /** The clusters of `s`, end to end. */
  ghost function Content(m: Store, s: seq<nat>): seq<u8>
    requires Stored(m, s)
  {
    if s == [] then [] else Content(m, s[..|s| - 1]) + m[s[|s| - 1]]
  }

  lemma MulStep(k: nat, n: nat)
    ensures (k + 1) * n == k * n + n
  {
  }

  lemma MulLess(j: nat, k: nat, n: nat)
    requires j < k
    ensures j * n + n <= k * n
  {
    assert (k - j - 1) * n >= 0;
    assert k * n == j * n + n + (k - j - 1) * n;
  }

  lemma {:induction false} ContentLength(m: Store, s: seq<nat>, bpc: nat)
    requires Stored(m, s) && Uniform(m, bpc)
    ensures |Content(m, s)| == |s| * bpc
    decreases |s|
  {
    if s != [] {
      ContentLength(m, s[..|s| - 1], bpc);
      MulStep(|s| - 1, bpc);
    }
  }

  /** Content depends only on the clusters of the chain. */
  lemma {:induction false} ContentSame(m: Store, n: Store, s: seq<nat>)
    requires Stored(m, s) && Stored(n, s) && forall i | 0 <= i < |s| :: n[s[i]] == m[s[i]]
    ensures Content(n, s) == Content(m, s)
    decreases |s|
  {
    if s != [] {
      ContentSame(m, n, s[..|s| - 1]);
      assert n[s[|s| - 1]] == m[s[|s| - 1]];
    }
  }

  lemma SpliceRight(x: seq<u8>, y: seq<u8>, at: nat, p: seq<u8>)
    requires at + |p| <= |y|
    ensures Splice(x + y, |x| + at, p) == x + Splice(y, at, p)
  {
  }

  lemma SpliceLeft(x: seq<u8>, y: seq<u8>, at: nat, p: seq<u8>)
    requires at + |p| <= |x|
    ensures Splice(x + y, at, p) == Splice(x, at, p) + y
  {
  }

  /** Overwriting part of one cluster overwrites that part of the content. */
  lemma {:induction false} ContentUpdate(m: Store, s: seq<nat>, bpc: nat, k: nat, at: nat, piece: seq<u8>, pos: nat)
    requires Stored(m, s) && Uniform(m, bpc) && Distinct(s) && k < |s| && at + |piece| <= bpc && pos == k * bpc + at
    ensures var n := m[s[k] := Splice(m[s[k]], at, piece)];
            Stored(n, s) && pos + |piece| <= |Content(m, s)| && Content(n, s) == Splice(Content(m, s), pos, piece)
    decreases |s|
  {
    var n := m[s[k] := Splice(m[s[k]], at, piece)];
    var front, last := s[..|s| - 1], s[|s| - 1];
    ContentLength(m, front, bpc);
    if k == |s| - 1 {
      ContentSame(m, n, front);
      SpliceRight(Content(m, front), m[last], at, piece);
    } else {
      ContentUpdate(m, front, bpc, k, at, piece, pos);
      SpliceLeft(Content(m, front), m[last], pos, piece);
    }
  }

  lemma {:induction false} ContentAt(m: Store, s: seq<nat>, bpc: nat, j: nat, pos: nat)
    requires Stored(m, s) && Uniform(m, bpc) && j < |s| && pos == j * bpc
    ensures pos + bpc <= |Content(m, s)| && Content(m, s)[pos..pos + bpc] == m[s[j]]
    decreases |s|
  {
    var front := s[..|s| - 1];
    ContentLength(m, front, bpc);
    if j < |front| {
      ContentAt(m, front, bpc, j, pos);
    }
  }

  lemma {:induction false} ContentAppend(m: Store, s: seq<nat>, u: seq<nat>)
    requires Stored(m, s) && Stored(m, u)
    ensures Stored(m, s + u) && Content(m, s + u) == Content(m, s) + Content(m, u)
    decreases |u|
  {
    forall i | 0 <= i < |s + u| ensures (s + u)[i] in m {
      if i >= |s| { assert (s + u)[i] == u[i - |s|]; }
    }
    if u == [] {
      assert s + u == s;
    } else {
      var n := |u| - 1;
      var front := u[..n];
      ContentAppend(m, s, front);
      assert (s + u)[..|s + u| - 1] == s + front && (s + u)[|s + u| - 1] == u[n];
      assert Content(m, s + u) == (Content(m, s) + Content(m, front)) + m[u[n]];
    }
  }

  lemma ContentPrefix(m: Store, s: seq<nat>, k: nat)
    requires Stored(m, s) && k <= |s|
    ensures |Content(m, s[..k])| <= |Content(m, s)| && Content(m, s[..k]) == Content(m, s)[..|Content(m, s[..k])|]
  {
    ContentAppend(m, s[..k], s[k..]);
    assert s == s[..k] + s[k..];
  }

  /** Content of a middle piece of a chain. */
  lemma ContentSlice(m: Store, s: seq<nat>, bpc: nat, i: nat, j: nat, lo: nat)
    requires Stored(m, s) && Uniform(m, bpc) && i <= j <= |s| && lo == i * bpc
    ensures var p := Content(m, s[i..j]); lo + |p| <= |Content(m, s)| && p == Content(m, s)[lo..lo + |p|]
  {
    ContentAppend(m, s[..i], s[i..j]);
    ContentLength(m, s[..i], bpc);
    assert s[..j] == s[..i] + s[i..j];
    ContentPrefix(m, s, j);
  }

  // ---------- chains of files ----------

  /** Every cluster in use, the bad ones apart, is on the device. */
  ghost predicate AllStored(m: Store, t: Fat) {
    forall c: nat | Cluster(t, c) && !Free(t, c) && !Bad(t, c) :: c in m
  }

  /** A file's chain: empty, or the whole chain of a head. */
  ghost predicate FileChain(t: Fat, s: seq<nat>) {
    s == [] || (IsChain(t, s) && Head(t, s[0]))
  }

  lemma FileChainStored(m: Store, t: Fat, s: seq<nat>)
    requires WellFormed(t) && FileChain(t, s) && AllStored(m, t)
    ensures Stored(m, s) && Distinct(s) && forall i | 0 <= i < |s| :: Cluster(t, s[i]) && !Free(t, s[i])
  {
    if s != [] {
      ChainOf(t, s);
      forall i: nat | i < |s|
        ensures !Free(t, s[i]) && !Bad(t, s[i])
      {
        ChainLive(t, s, i);
        ChainNotBad(t, s, i);
      }
    }
  }

  // ---------- growing a chain ----------

  ghost predicate LinksKept(t: Fat, s: seq<nat>, t': Fat, s': seq<nat>)
    requires |s| <= |s'| && |t| == |t'|
  {
    forall e: nat | Cluster(t, e) && e !in s'[|s|..] ::
      (Free(t', e) <==> Free(t, e)) && ((s == [] || e != s[|s| - 1]) ==> Next(t', e) == Next(t, e))
  }

  ghost predicate StoreKept(m: Store, m': Store, added: seq<nat>) {
    m'.Keys == m.Keys && forall e | e in m && e !in added :: m'[e] == m[e]
  }

  /** The clusters by which `s` grew into `s'` were free. */
  ghost predicate NewlyTaken(t: Fat, s: seq<nat>, s': seq<nat>) {
    s <= s' && forall i: nat {:trigger s'[i]} | |s| <= i < |s'| :: Cluster(t, s'[i]) && Free(t, s'[i])
  }

  /** From table `t` and clusters `m` to `t'` and `m'`, chain `s` grew into `s'`:
      the new clusters were free and are zero, and nothing else was disturbed. */
  ghost predicate Grown(t: Fat, m: Store, s: seq<nat>, t': Fat, m': Store, s': seq<nat>, bpc: nat) {
    && |t'| == |t| && WellFormed(t') && AllStored(m', t')
    && s <= s' && FileChain(t', s')
    && (forall i | |s| <= i < |s'| :: Cluster(t, s'[i]) && Free(t, s'[i]) && s'[i] in m' && m'[s'[i]] == Zeros(bpc))
    && LinksKept(t, s, t', s') && StoreKept(m, m', s'[|s|..])
  }

  /** The `prev` argument for extending `s`. */
  function LastOf(s: seq<nat>): Option<nat> {
    if s == [] then None else Some(s[|s| - 1])
  }

  lemma NewChain(t: Fat, c: nat)
    requires WellFormed(t) && Cluster(t, c) && Free(t, c)
    ensures FileChain(Allocated(t, c, None), [c])
  {
    AllocatedEntries(t, c, None);
    forall e: nat | Cluster(t, e) ensures Next(Allocated(t, c, None), e) != Some(c) {
      assert Next(t, e) != Some(c);
      if e != c { assert Allocated(t, c, None)[e] == t[e]; }
    }
  }

  lemma LongerChain(t: Fat, c: nat, s: seq<nat>)
    requires WellFormed(t) && Cluster(t, c) && Free(t, c) && s != [] && FileChain(t, s)
    ensures Tail(t, s[|s| - 1]) && FileChain(Allocated(t, c, Some(s[|s| - 1])), s + [c])
  {
    var u := Allocated(t, c, Some(s[|s| - 1]));
    AllocateExtendsChain(t, c, s);
    AllocatedEntries(t, c, Some(s[|s| - 1]));
    forall e: nat | Cluster(t, e) ensures Next(u, e) != Some(s[0]) {
      assert Next(t, e) != Some(s[0]);
      if e != c && e != s[|s| - 1] { assert u[e] == t[e]; }
    }
  }

  lemma LinksKeptStep(t: Fat, s: seq<nat>, t1: Fat, s1: seq<nat>, c: nat, t2: Fat)
    requires |t| == |t1| <= BAD_CLUSTER && s <= s1 && LinksKept(t, s, t1, s1) && (s1 != [] ==> Tail(t1, s1[|s1| - 1]))
    requires Cluster(t1, c) && Free(t1, c) && t2 == Allocated(t1, c, LastOf(s1))
    ensures |t2| == |t| && LinksKept(t, s, t2, s1 + [c])
  {
    AllocatedEntries(t1, c, LastOf(s1));
    assert (s1 + [c])[|s|..] == s1[|s|..] + [c];
    forall e: nat | Cluster(t, e) && e !in (s1 + [c])[|s|..]
      ensures (Free(t2, e) <==> Free(t, e)) && ((s == [] || e != s[|s| - 1]) ==> Next(t2, e) == Next(t, e))
    {
      if Some(e) != LastOf(s1) {
        assert t2[e] == t1[e];
      }
    }
  }

  lemma StoredStep(m: Store, t1: Fat, c: nat, prev: Option<nat>)
    requires |t1| <= BAD_CLUSTER && AllStored(m, t1) && Cluster(t1, c) && Free(t1, c)
    requires (prev.Some? ==> Tail(t1, prev.value)) && c in m
    ensures AllStored(m, Allocated(t1, c, prev))
  {
    AllocatedEntries(t1, c, prev);
    forall e: nat | Cluster(t1, e) && !Free(Allocated(t1, c, prev), e) && !Bad(Allocated(t1, c, prev), e)
      ensures e in m
    {
      if e != c && Some(e) != prev { assert Allocated(t1, c, prev)[e] == t1[e]; }
    }
  }

  lemma GrownTail(t: Fat, m: Store, s: seq<nat>, t1: Fat, m1: Store, s1: seq<nat>, bpc: nat)
    requires Grown(t, m, s, t1, m1, s1, bpc)
    ensures s1 != [] ==> Tail(t1, s1[|s1| - 1])
    ensures forall i: nat | i < |s1| :: !Free(t1, s1[i])
  {
    if s1 != [] {
      forall i: nat | i < |s1| ensures !Free(t1, s1[i]) { ChainLive(t1, s1, i); }
    }
  }

  /** One more cluster allocated and zeroed. */
  lemma GrownStep(t: Fat, m: Store, s: seq<nat>, t1: Fat, m1: Store, s1: seq<nat>, c: nat, t2: Fat, bpc: nat)
    requires |t| <= BAD_CLUSTER && Grown(t, m, s, t1, m1, s1, bpc)
    requires Cluster(t1, c) && Free(t1, c) && t2 == Allocated(t1, c, LastOf(s1)) && WellFormed(t2) && c in m1
    ensures Grown(t, m, s, t2, m1[c := Zeros(bpc)], s1 + [c], bpc)
  {
    var s2, m2 := s1 + [c], m1[c := Zeros(bpc)];
    assert s2[|s|..] == s1[|s|..] + [c];
    GrownTail(t, m, s, t1, m1, s1, bpc);
    assert FileChain(t2, s2) by { if s1 == [] { NewChain(t1, c); } else { LongerChain(t1, c, s1); } }
    assert LinksKept(t, s, t2, s2) by { LinksKeptStep(t, s, t1, s1, c, t2); }
    assert AllStored(m2, t2) by { StoredStep(m2, t1, c, LastOf(s1)); }
    assert c !in s1[|s|..];
    assert Free(t, c);
  }

  lemma GrownSameLinks(t: Fat, m: Store, s: seq<nat>, t1: Fat, m1: Store, s1: seq<nat>, t2: Fat, bpc: nat)
    requires Grown(t, m, s, t1, m1, s1, bpc) && SameLinks(t1, t2) && WellFormed(t2)
    ensures Grown(t, m, s, t2, m1, s1, bpc)
  {
    if s1 != [] {
      ChainSame(t1, t2, s1);
    }
  }

  /** No free cluster of the table lies on the device. */
  ghost predicate DeviceFull(m: Store, t: Fat) {
    forall c: nat | Cluster(t, c) && Free(t, c) :: c !in m
  }

  function ZeroClusters(k: nat, bpc: nat): seq<u8> {
    Zeros(k * bpc)
  }

  /** A grown chain holds the old bytes followed by zeroes. */
  lemma {:induction false} GrownContent(m: Store, s: seq<nat>, m': Store, s': seq<nat>, bpc: nat)
    requires s <= s' && Stored(m, s) && Stored(m', s')
    requires forall i | 0 <= i < |s| :: m'[s[i]] == m[s[i]]
    requires forall i | |s| <= i < |s'| :: m'[s'[i]] == Zeros(bpc)
    ensures Content(m', s') == Content(m, s) + ZeroClusters(|s'| - |s|, bpc)
    decreases |s'|
  {
    if |s'| == |s| {
      assert s' == s;
      ContentSame(m, m', s);
      assert ZeroClusters(0, bpc) == [];
    } else {
      GrownContent(m, s, m', s'[..|s'| - 1], bpc);
      MulStep(|s'| - 1 - |s|, bpc);
      assert m'[s'[|s'| - 1]] == Zeros(bpc);
    }
  }

  lemma GrownData(t: Fat, m: Store, s: seq<nat>, t': Fat, m': Store, s': seq<nat>, bpc: nat)
    requires WellFormed(t) && AllStored(m, t) && FileChain(t, s) && Grown(t, m, s, t', m', s', bpc)
    ensures Stored(m, s) && Stored(m', s') && Distinct(s')
    ensures Content(m', s') == Content(m, s) + ZeroClusters(|s'| - |s|, bpc)
  {
    FileChainStored(m, t, s);
    FileChainStored(m', t', s');
    forall i | 0 <= i < |s| ensures m'[s[i]] == m[s[i]] {
      assert s[i] == s'[i];
      assert s[i] !in s'[|s|..];
    }
    GrownContent(m, s, m', s', bpc);
  }

  // ---------- what an operation on one file may change ----------

  /** No cluster outside `s`, except the directory's, and no link outside `s` has changed. */
  ghost predicate OthersUntouched(t: Fat, m: Store, t': Fat, m': Store, s: seq<nat>, dir: nat) {
    && |t'| == |t| && m'.Keys == m.Keys
    && (forall e | e in m && e !in s && e != dir :: m'[e] == m[e])
    && (forall e: nat | Cluster(t, e) && e !in s :: (Free(t', e) <==> Free(t, e)) && Next(t', e) == Next(t, e))
  }

  lemma OthersAfter(t: Fat, m: Store, s: seq<nat>, t1: Fat, m1: Store, s': seq<nat>, m2: Store, dir: nat, bpc: nat)
    requires Grown(t, m, s, t1, m1, s', bpc) && m2.Keys == m1.Keys
    requires forall e | e in m1 && e !in s' && e != dir :: m2[e] == m1[e]
    ensures OthersUntouched(t, m, t1, m2, s', dir)
  {
    forall e | e !in s'
      ensures e !in s'[|s|..] && (s == [] || e != s[|s| - 1])
    {
      if s != [] { assert s'[|s| - 1] == s[|s| - 1]; }
    }
  }

  /** `now` is `was` with `p` written at `at`, which is inside it unless `p` is empty. */
  ghost predicate Overwritten(was: seq<u8>, at: nat, p: seq<u8>, now: seq<u8>) {
    if p == [] then now == was else at + |p| <= |was| && now == Splice(was, at, p)
  }

  /** Chain `s` grew into `s'`, its bytes were extended by zeroes and then
      overwritten with `p` at `offset`, and nothing else changed. */
  ghost predicate Wrote(t: Fat, m: Store, s: seq<nat>, t': Fat, m': Store, s': seq<nat>, dir: nat, offset: nat,
                        p: seq<u8>, bpc: nat) {
    && NewlyTaken(t, s, s') && Stored(m, s) && Stored(m', s')
    && Overwritten(Content(m, s) + ZeroClusters(|s'| - |s|, bpc), offset, p, Content(m', s'))
    && OthersUntouched(t, m, t', m', s', dir)
  }

  /** Growing the chain and then writing through it, put together. */
  lemma GrownThenWritten(t: Fat, m: Store, s: seq<nat>, t1: Fat, m1: Store, s': seq<nat>, m2: Store, dir: nat,
                         offset: nat, p: seq<u8>, bpc: nat)
    requires WellFormed(t) && AllStored(m, t) && FileChain(t, s) && Grown(t, m, s, t1, m1, s', bpc)
    requires m2.Keys == m1.Keys && (forall e | e in m1 && e !in s' :: m2[e] == m1[e])
    requires Stored(m1, s') && Stored(m2, s') && Overwritten(Content(m1, s'), offset, p, Content(m2, s'))
    ensures Wrote(t, m, s, t1, m2, s', dir, offset, p, bpc) && FileChain(t1, s') && AllStored(m2, t1)
  {
    GrownData(t, m, s, t1, m1, s', bpc);
    OthersAfter(t, m, s, t1, m1, s', m2, dir, bpc);
  }

  /** Updating the directory cluster afterwards changes none of that. */
  lemma WroteThenRecorded(t: Fat, m: Store, s: seq<nat>, t': Fat, m': Store, s': seq<nat>, dir: nat, offset: nat,
                          p: seq<u8>, bpc: nat, cl: seq<u8>)
    requires Wrote(t, m, s, t', m', s', dir, offset, p, bpc) && dir !in s' && dir in m'
    ensures Wrote(t, m, s, t', m'[dir := cl], s', dir, offset, p, bpc)
  {
    ContentSame(m', m'[dir := cl], s');
  }

  /** Chain `s` became `s'`: a prefix of it, or it followed by zeroed clusters. The
      bytes kept are the old ones, and other files' clusters and links are untouched. */
  ghost predicate Resized(t: Fat, m: Store, s: seq<nat>, t': Fat, m': Store, s': seq<nat>, dir: nat, bpc: nat) {
    && Stored(m, s) && Stored(m', s')
    && (if |s'| < |s| then
          && s' <= s && |Content(m', s')| <= |Content(m, s)|
          && Content(m', s') == Content(m, s)[..|Content(m', s')|]
          && |t'| == |t| && (forall e: nat | Cluster(t, e) :: Free(t', e) <==> Free(t, e) || e in s[|s'|..])
        else NewlyTaken(t, s, s') && Content(m', s') == Content(m, s) + ZeroClusters(|s'| - |s|, bpc))
    && OthersUntouched(t, m, t', m', if |s'| < |s| then s else s', dir)
  }

  lemma ResizedThenRecorded(t: Fat, m: Store, s: seq<nat>, t': Fat, m': Store, s': seq<nat>, dir: nat, bpc: nat,
                            cl: seq<u8>)
    requires Resized(t, m, s, t', m', s', dir, bpc) && dir !in s' && dir in m'
    ensures Resized(t, m, s, t', m'[dir := cl], s', dir, bpc)
  {
    ContentSame(m', m'[dir := cl], s');
  }

  /** Cutting to `k` clusters, with everything a file system needs of it. */
  lemma CutFacts(t: Fat, m: Store, s: seq<nat>, k: nat)
    requires WellFormed(t) && AllStored(m, t) && s != [] && FileChain(t, s) && k <= |s|
    ensures var u := Truncated(t, s, k);
            && |u| == |t| && WellFormed(u) && AllStored(m, u) && FileChain(u, s[..k])
            && (forall e: nat | Cluster(t, e) && e !in s :: (Free(u, e) <==> Free(t, e)) && Next(u, e) == Next(t, e))
            && (forall e: nat | Cluster(t, e) :: Free(u, e) <==> Free(t, e) || e in s[k..])
  {
    var u := Truncated(t, s, k);
    TruncateKeepsWellFormed(t, s, k);
    TruncatedEntries(t, s, k);
    forall e: nat | Cluster(t, e) && e !in s
      ensures (Free(u, e) <==> Free(t, e)) && Next(u, e) == Next(t, e) && (Bad(u, e) <==> Bad(t, e))
    {
      assert u[e] == t[e];
    }
    forall i: nat | i < |s|
      ensures !Bad(t, s[i])
    {
      ChainNotBad(t, s, i);
    }
    if k > 0 {
      CutHead(t, s, k);
    }
  }

  lemma CutHead(t: Fat, s: seq<nat>, k: nat)
    requires WellFormed(t) && IsChain(t, s) && Head(t, s[0]) && 0 < k <= |s|
    ensures Head(Truncated(t, s, k), s[..k][0])
  {
    var u := Truncated(t, s, k);
    TruncateLinks(t, s, k);
    TruncatedFree(t, s, k);
    TruncatedEntries(t, s, k);
    ChainOf(t, s);
    assert s[0] !in s[k..];
  }

  lemma CutResized(t: Fat, m: Store, s: seq<nat>, k: nat, dir: nat, bpc: nat)
    requires WellFormed(t) && AllStored(m, t) && s != [] && FileChain(t, s) && k < |s|
    ensures Resized(t, m, s, Truncated(t, s, k), m, s[..k], dir, bpc)
  {
    CutFacts(t, m, s, k);
    FileChainStored(m, t, s);
    ContentPrefix(m, s, k);
    PrefixResized(t, m, s, k, Truncated(t, s, k), dir, bpc);
  }

  lemma PrefixResized(t: Fat, m: Store, s: seq<nat>, k: nat, u: Fat, dir: nat, bpc: nat)
    requires k < |s| && Stored(m, s) && Stored(m, s[..k])
    requires Content(m, s[..k]) <= Content(m, s) && |u| == |t|
    requires forall e: nat | Cluster(t, e) && e !in s :: (Free(u, e) <==> Free(t, e)) && Next(u, e) == Next(t, e)
    requires forall e: nat | Cluster(t, e) :: Free(u, e) <==> Free(t, e) || e in s[k..]
    ensures Resized(t, m, s, u, m, s[..k], dir, bpc)
  {
  }

  /** Growing a file's chain leaves its directory entry's cluster alone. */
  lemma EntryKept(t: Fat, m: Store, s: seq<nat>, t': Fat, m': Store, s': seq<nat>, bpc: nat, dir: nat)
    requires Grown(t, m, s, t', m', s', bpc) && Cluster(t, dir) && !Free(t, dir) && dir in m && dir !in s
    ensures dir !in s' && dir in m' && m'[dir] == m[dir] && !Free(t', dir)
  {
    assert dir !in s'[|s|..];
    assert s' == s + s'[|s|..];
  }

  lemma GrownResized(t: Fat, m: Store, s: seq<nat>, t': Fat, m': Store, s': seq<nat>, dir: nat, bpc: nat)
    requires WellFormed(t) && AllStored(m, t) && FileChain(t, s) && Grown(t, m, s, t', m', s', bpc)
    ensures Resized(t, m, s, t', m', s', dir, bpc)
  {
    GrownData(t, m, s, t', m', s', bpc);
    OthersAfter(t, m, s, t', m', s', m', dir, bpc);
  }

  // ---------- sizes ----------

  const U32: nat := 0x1_0000_0000

  /** The code computes sizes in 32 bits. */
  function AsU32(x: nat): (r: nat)
    ensures r < U32 && (x < U32 ==> r == x)
  {
    x % 0x1_0000_0000
  }

  function Max(a: nat, b: nat): nat {
    if a < b then b else a
  }

  lemma SplitOffset(x: nat, n: nat)
    requires n > 0
    ensures x / n >= 0 && 0 <= x % n < n && x / n * n + x % n == x
  {
  }

  function ClustersNeeded(size: nat, bpc: nat): (n: nat)
    requires bpc > 0
    ensures size <= n * bpc && (size > 0 ==> n > 0)
    ensures n > 0 ==> (n - 1) * bpc < size
  {
    if size == 0 then 0
    else
      SplitOffset(size + bpc - 1, bpc);
      var n := (size + bpc - 1) / bpc;
      CeilingBound(size, bpc, n, (size + bpc - 1) % bpc);
      n
  }

  lemma CeilingBound(size: nat, bpc: nat, n: int, r: int)
    requires size > 0 && bpc > 0 && 0 <= r < bpc && n * bpc + r == size + bpc - 1
    ensures n > 0 && size <= n * bpc && (n - 1) * bpc < size
  {
    assert (n - 1) * bpc == n * bpc - bpc;
  }

  /** The chain reserved is long enough for all of the buffer. */
  lemma FullLength(offset: nat, len: nat, n: nat, size: nat, needed: nat, clusters: nat, bpc: nat)
    requires n <= len && (n == len || clusters * bpc <= offset + n)
    requires needed <= clusters && size <= needed * bpc && AsU32(offset + len) <= size
    ensures offset + len < U32 ==> n == len
  {
    if needed < clusters {
      MulLess(needed, clusters, bpc);
    }
  }

  // ---------- the directory entry ----------

  /** A directory cluster with head and size written into the entry at `off`. */
  function DirPatch(cl: seq<u8>, off: nat, head: nat, size: nat): seq<u8>
    requires off + 32 <= |cl|
  {
    Splice(Splice(Splice(cl, off + 20, ToLe16(head / 0x1_0000)), off + 26, ToLe16(head)), off + 28, ToLe32(size))
  }

  function DirHead(cl: seq<u8>, off: nat): nat
    requires off + 32 <= |cl|
  {
    Le16(cl, off + 20) * 0x1_0000 + Le16(cl, off + 26)
  }

  function DirSize(cl: seq<u8>, off: nat): nat
    requires off + 32 <= |cl|
  {
    Le32(cl, off + 28)
  }

  /** Head and size are little-endian words of the entry: the high half of the head at byte 20, the
      low half at 26, the size at 28. */
  ghost predicate EntryWords(cl: seq<u8>, off: nat, head: nat, size: nat) {
    && off + 32 <= |cl|
    && LittleEndian(cl[off + 20..off + 22]) == head / 0x1_0000
    && LittleEndian(cl[off + 26..off + 28]) == head % 0x1_0000
    && LittleEndian(cl[off + 28..off + 32]) == size
  }

  lemma DirWords(cl: seq<u8>, off: nat)
    requires off + 32 <= |cl|
    ensures EntryWords(cl, off, DirHead(cl, off), DirSize(cl, off))
  {
    Le16Is(cl, off + 20);
    Le16Is(cl, off + 26);
    Le32Is(cl, off + 28);
    SplitWords(Le16(cl, off + 20), Le16(cl, off + 26));
  }

  lemma SplitWords(hi: nat, lo: nat)
    requires lo < 0x1_0000
    ensures (hi * 0x1_0000 + lo) / 0x1_0000 == hi && (hi * 0x1_0000 + lo) % 0x1_0000 == lo
  {
  }

  /** What is written is what will be read back, and no other byte of the directory changes. */
  lemma DirRoundTrip(cl: seq<u8>, off: nat, head: nat, size: nat)
    requires off + 32 <= |cl| && head < U32 && size < U32
    ensures var r := DirPatch(cl, off, head, size);
            && |r| == |cl| && DirHead(r, off) == head && DirSize(r, off) == size
            && forall i: nat | i < |cl| && !(off + 20 <= i < off + 22 || off + 26 <= i < off + 32) :: r[i] == cl[i]
  {
    var r := DirPatch(cl, off, head, size);
    assert Le16(r, off + 20) == Le16(ToLe16(head / 0x1_0000), 0);
    assert Le16(r, off + 26) == Le16(ToLe16(head), 0);
    assert Le32(r, off + 28) == Le32(ToLe32(size), 0);
  }
}
