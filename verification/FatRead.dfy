/**
 Reading a file. A read fetches up to 64 clusters at a time as one run of consecutive
 sectors. `ReadOf` says what it returns on any device; it is the file's bytes, whatever the
 clusters hold, exactly when each batch of the clusters read is numbered consecutively.
 */
module FatRead {
  import opened Options
  import opened Bytes
  import opened FatTable
  import opened FatContent
  import opened FatLayout
  import opened FatVolume
  import opened FatFile

  function Min(a: nat, b: nat): nat {
    if a < b then a else b
  }

  predicate Numbers(s: seq<nat>) {
    forall i | 0 <= i < |s| :: 2 <= s[i]
  }

  /** The bytes of `n` clusters. */
  function Span(b: Bpb, n: nat): nat {
    if n == 0 then 0 else Span(b, n - 1) + b.BytesPerCluster()
  }

  lemma {:induction false} SpanSum(b: Bpb, m: nat, n: nat)
    ensures Span(b, m + n) == Span(b, m) + Span(b, n)
    decreases n
  {
    if n > 0 {
      SpanSum(b, m, n - 1);
    }
  }

  lemma {:induction false} SpanIs(b: Bpb, n: nat)
    ensures Span(b, n) == n * b.BytesPerCluster()
    decreases n
  {
    if n > 0 {
      SpanIs(b, n - 1);
      MulStep(n - 1, b.BytesPerCluster());
    }
  }

  // ---------- one transfer ----------

  /** The bytes of `n` clusters' worth of sectors from cluster `c` on, if the device has them. */
  function Run(b: Bpb, d: seq<u8>, c: nat, n: nat): (r: Option<seq<u8>>)
    requires 2 <= c
    ensures r.Some? ==> |r.value| == Span(b, n)
  {
    var sector := b.ClusterToSector(c);
    RunLength(b, n);
    if (sector + n * b.sectorsPerCluster) * 512 > |d| then None
    else Some(d[sector * 512..(sector + n * b.sectorsPerCluster) * 512])
  }

  lemma RunLength(b: Bpb, n: nat)
    ensures n * b.sectorsPerCluster * 512 == Span(b, n)
  {
    SpanIs(b, n);
    TimesSector(n, b.sectorsPerCluster);
  }

  lemma TimesSector(n: nat, spc: nat)
    ensures n * spc * 512 == n * (spc * 512)
  {
  }

  lemma NextInRun(b: Bpb, c: nat, n: nat)
    requires 2 <= c
    ensures b.ClusterToSector(c + n) == b.ClusterToSector(c) + n * b.sectorsPerCluster
  {
    assert (c + n - 2) * b.sectorsPerCluster == (c - 2) * b.sectorsPerCluster + n * b.sectorsPerCluster;
  }

  /** One more cluster in the run appends that cluster. */
  lemma RunGrows(b: Bpb, d: seq<u8>, c: nat, n: nat)
    requires 2 <= c && OnDevice(b, d, c + n)
    ensures Run(b, d, c, n).Some? && Run(b, d, c, n + 1) == Some(Run(b, d, c, n).value + ClusterOf(b, d, c + n))
  {
    NextInRun(b, c, n);
    MulStep(n, b.sectorsPerCluster);
    var first, last := b.ClusterToSector(c), b.ClusterToSector(c + n);
    var lo, mid, hi := first * 512, last * 512, (last + b.sectorsPerCluster) * 512;
    assert d[lo..hi] == d[lo..mid] + d[mid..hi];
  }

  ghost predicate Consecutive(s: seq<nat>) {
    forall i | 0 <= i < |s| :: s[i] == s[0] + i
  }

  /** A run over consecutively numbered clusters is their content. */
  lemma {:induction false} RunIsContent(b: Bpb, d: seq<u8>, m: Store, s: seq<nat>)
    requires HoldsStore(b, d, m) && s != [] && 2 <= s[0] && Stored(m, s) && Consecutive(s)
    ensures Run(b, d, s[0], |s|) == Some(Content(m, s))
    decreases |s|
  {
    var n := |s| - 1;
    assert s[n] == s[0] + n && OnDevice(b, d, s[n]) && m[s[n]] == ClusterOf(b, d, s[n]);
    RunGrows(b, d, s[0], n);
    assert Content(m, s) == Content(m, s[..n]) + m[s[n]];
    if n > 0 {
      RunIsContent(b, d, m, s[..n]);
    }
  }

  /** Where a run finds the first byte of what it takes for its `j`-th cluster. */
  lemma RunCluster(b: Bpb, d: seq<u8>, c: nat, n: nat, j: nat, pos: nat)
    requires 2 <= c && j < n && b.sectorsPerCluster > 0 && Run(b, d, c, n).Some? && pos == Span(b, j)
    ensures OnDevice(b, d, c + j) && pos < |Run(b, d, c, n).value|
    ensures Run(b, d, c, n).value[pos] == ClusterOf(b, d, c + j)[0]
  {
    NextInRun(b, c, j);
    MulLess(j, n, b.sectorsPerCluster);
    RunLength(b, j);
    RunLength(b, n);
  }

  // ---------- what a read returns, on any device ----------

  /** The number of batches for the clusters of `w`. */
  function BatchCount(w: seq<nat>): (n: nat)
    ensures 64 * n >= |w| && (n > 0 ==> 64 * (n - 1) < |w|)
  {
    (|w| + 63) / 64
  }

  /** The clusters covered by the first `j` batches. */
  function Through(w: seq<nat>, j: nat): (n: nat)
    ensures n <= |w|
  {
    Min(64 * j, |w|)
  }

  /** The `j`-th batch, fetched as one run. */
  function Batch(b: Bpb, d: seq<u8>, w: seq<nat>, j: nat): (r: Option<seq<u8>>)
    requires Numbers(w) && j < BatchCount(w)
    ensures r.Some? ==> |r.value| == Span(b, Through(w, j + 1) - Through(w, j))
  {
    Run(b, d, w[64 * j], Through(w, j + 1) - Through(w, j))
  }

  /** The first `j` batches, end to end; None if one of them fails. */
  function Fetched(b: Bpb, d: seq<u8>, w: seq<nat>, j: nat): (r: Option<seq<u8>>)
    requires Numbers(w) && j <= BatchCount(w)
    ensures r.Some? ==> |r.value| == Span(b, Through(w, j))
  {
    if j == 0 then Some([])
    else
      var before, batch := Fetched(b, d, w, j - 1), Batch(b, d, w, j - 1);
      SpanSum(b, Through(w, j - 1), Through(w, j) - Through(w, j - 1));
      if before.None? || batch.None? then None else Some(before.value + batch.value)
  }

  /** At most `want` bytes of `x`, from `skip` on. */
  function Slice(x: seq<u8>, skip: nat, want: nat): seq<u8> {
    if |x| <= skip then [] else x[skip..skip + Min(|x| - skip, want)]
  }

  /** Follows the chain to the cluster that holds byte `offset`; None if it ends before. */
  function Sought(b: Bpb, d: seq<u8>, c: nat, offset: nat): (r: Option<(nat, nat)>)
    requires 2 <= c && b.BytesPerCluster() > 0
    ensures r.Some? ==> 2 <= r.value.0 && r.value.1 < b.BytesPerCluster()
    decreases offset
  {
    if offset < b.BytesPerCluster() then Some((c, offset))
    else
      match NextOnDisk(b, d, c)
      case None => None
      case Some(e) => Sought(b, d, e, offset - b.BytesPerCluster())
  }

  lemma {:induction false} WalkNumbers(b: Bpb, d: seq<u8>, c: nat, fuel: nat)
    requires 2 <= c
    ensures Numbers(WalkOnDisk(b, d, c, fuel))
    decreases fuel
  {
    if fuel > 0 && NextOnDisk(b, d, c).Some? {
      WalkNumbers(b, d, NextOnDisk(b, d, c).value, fuel - 1);
    }
  }

  function Sliced(all: Option<seq<u8>>, skip: nat, want: nat): Option<seq<u8>> {
    if all.None? then None else Some(Slice(all.value, skip, want))
  }

  /** What a read of `toRead` bytes at `offset` returns: as many clusters as `toRead` bytes need,
      fetched in batches, from the byte sought. None is an I/O error. */
  function ReadOf(b: Bpb, d: seq<u8>, start: nat, toRead: nat, offset: nat): Option<seq<u8>>
    requires 2 <= start && b.BytesPerCluster() > 0
  {
    match Sought(b, d, start, offset)
    case None => None
    case Some((c, skip)) =>
      var w := WalkOnDisk(b, d, c, ClustersNeeded(toRead, b.BytesPerCluster()));
      WalkNumbers(b, d, c, ClustersNeeded(toRead, b.BytesPerCluster()));
      Sliced(Fetched(b, d, w, BatchCount(w)), skip, toRead)
  }

  // ---------- the loops ----------

  method Seek(vol: Volume, start: nat, offset: nat) returns (r: Option<(nat, nat)>)
    requires 2 <= start && vol.b.BytesPerCluster() > 0
    ensures r == Sought(vol.b, vol.disk, start, offset)
  {
    var cluster: nat, skip: nat := start, offset;
    while skip >= vol.b.BytesPerCluster()
      invariant 2 <= cluster && Sought(vol.b, vol.disk, start, offset) == Sought(vol.b, vol.disk, cluster, skip)
    {
      var next := vol.FollowClusterChain(cluster);
      if next.None? {
        return None;
      }
      cluster, skip := next.value, skip - vol.b.BytesPerCluster();
    }
    r := Some((cluster, skip));
  }

  lemma {:induction false} FetchedFails(b: Bpb, d: seq<u8>, w: seq<nat>, j: nat, n: nat)
    requires Numbers(w) && j <= n <= BatchCount(w) && Fetched(b, d, w, j).None?
    ensures Fetched(b, d, w, n).None?
    decreases n
  {
    if j < n {
      FetchedFails(b, d, w, j, n - 1);
    }
  }

  /** What one batch adds to the bytes copied. */
  lemma SliceNext(x: seq<u8>, y: seq<u8>, skip: nat, want: nat, out: seq<u8>, intra: nat)
    requires out == Slice(x, skip, want) && intra <= |y|
    requires if x == [] then intra == skip else skip < |x| && intra == 0
    ensures var copy := Min(|y| - intra, want - |out|);
            |out| <= want && out + y[intra..intra + copy] == Slice(x + y, skip, want)
  {
    var copy := Min(|y| - intra, want - |out|);
    if x == [] {
      assert x + y == y;
    } else if |out| == want {
      assert y[intra..intra + copy] == [];
    }
  }

  lemma ThroughNext(w: seq<nat>, j: nat)
    requires Through(w, j) < |w|
    ensures j < BatchCount(w) && Through(w, j) == 64 * j
    ensures Through(w, j + 1) == Through(w, j) + Min(|w| - Through(w, j), 64)
  {
  }

  lemma ThroughAll(w: seq<nat>, j: nat)
    requires j <= BatchCount(w) && Through(w, j) == |w|
    ensures j == BatchCount(w)
  {
  }

  /** One batch of the loop. */
  method FetchBatch(vol: Volume, w: seq<nat>, i: nat, ghost j: nat) returns (batch: Option<seq<u8>>)
    requires Numbers(w) && i < |w| && i == Through(w, j)
    ensures j < BatchCount(w) && batch == Batch(vol.b, vol.disk, w, j)
    ensures batch.Some? ==> |batch.value| >= vol.b.BytesPerCluster()
  {
    ThroughNext(w, j);
    var m := Min(|w| - i, 64);
    batch := vol.ReadSectors(vol.b.ClusterToSector(w[i]), m * vol.b.sectorsPerCluster);
    assert batch == Run(vol.b, vol.disk, w[i], m);
    assert Span(vol.b, m) >= vol.b.BytesPerCluster();
  }

  /** The loop has copied the first `j` batches, which together are `x`. */
  ghost predicate Copied(b: Bpb, d: seq<u8>, w: seq<nat>, skip: nat, want: nat, i: nat, intra: nat, out: seq<u8>,
                         j: nat, x: seq<u8>)
    requires Numbers(w)
  {
    && j <= BatchCount(w) && i == Through(w, j) && Fetched(b, d, w, j) == Some(x)
    && out == Slice(x, skip, want) && |out| <= want
    && if x == [] then intra == skip else skip < |x| && intra == 0
  }

  lemma CopiedNext(b: Bpb, d: seq<u8>, w: seq<nat>, skip: nat, want: nat, i: nat, intra: nat, out: seq<u8>, j: nat,
                   x: seq<u8>, batch: seq<u8>)
    requires Numbers(w) && i < |w| && skip < |batch| && Copied(b, d, w, skip, want, i, intra, out, j, x)
    requires j < BatchCount(w) && Batch(b, d, w, j) == Some(batch)
    ensures var copy := Min(|batch| - intra, want - |out|);
            Copied(b, d, w, skip, want, i + Min(|w| - i, 64), 0, out + batch[intra..intra + copy], j + 1, x + batch)
  {
    SliceNext(x, batch, skip, want, out, intra);
    ThroughNext(w, j);
  }

  lemma CopiedAll(b: Bpb, d: seq<u8>, w: seq<nat>, skip: nat, want: nat, intra: nat, out: seq<u8>, j: nat, x: seq<u8>)
    requires Numbers(w) && Copied(b, d, w, skip, want, |w|, intra, out, j, x)
    ensures Sliced(Fetched(b, d, w, BatchCount(w)), skip, want) == Some(out)
  {
    ThroughAll(w, j);
  }

  /** The batch loop. */
  method ReadBatches(vol: Volume, w: seq<nat>, skip: nat, want: nat) returns (r: Option<seq<u8>>)
    requires Numbers(w) && skip < vol.b.BytesPerCluster()
    ensures r == Sliced(Fetched(vol.b, vol.disk, w, BatchCount(w)), skip, want)
  {
    var out: seq<u8>, i: nat, intra: nat := [], 0, skip;
    ghost var j: nat, x: seq<u8> := 0, [];
    while i < |w|
      invariant i <= |w| && Copied(vol.b, vol.disk, w, skip, want, i, intra, out, j, x)
    {
      var batch := FetchBatch(vol, w, i, j);
      if batch.None? {
        FetchedFails(vol.b, vol.disk, w, j + 1, BatchCount(w));
        return None;
      }
      CopiedNext(vol.b, vol.disk, w, skip, want, i, intra, out, j, x, batch.value);
      var copy := Min(|batch.value| - intra, want - |out|);
      out := out + batch.value[intra..intra + copy];
      x, j := x + batch.value, j + 1;
      intra, i := 0, i + Min(|w| - i, 64);
    }
    CopiedAll(vol.b, vol.disk, w, skip, want, intra, out, j, x);
    r := Some(out);
  }

  method ReadChain(vol: Volume, start: nat, toRead: nat, offset: nat) returns (r: Option<seq<u8>>)
    requires 2 <= start && vol.b.BytesPerCluster() > 0
    ensures r == ReadOf(vol.b, vol.disk, start, toRead, offset)
  {
    var at := Seek(vol, start, offset);
    if at.None? {
      return None;
    }
    var n := ClustersNeeded(toRead, vol.b.BytesPerCluster());
    var chain := vol.CollectClusterChainLimited(at.value.0, n);
    WalkNumbers(vol.b, vol.disk, at.value.0, n);
    r := ReadBatches(vol, chain, at.value.1, toRead);
  }

  // ---------- reading along a chain ----------

  lemma ChainNext(b: Bpb, d: seq<u8>, s: seq<nat>, j: nat)
    requires Fits(b, d) && IsChain(FatOf(b, d, 0), s) && j < |s|
    ensures NextOnDisk(b, d, s[j]) == if j + 1 < |s| then Some(s[j + 1]) else None
  {
    NextAgrees(b, d, s[j]);
    if j + 1 < |s| {
      assert Next(FatOf(b, d, 0), s[j]) == Some(s[j + 1]);
    }
  }

  lemma SoughtStep(b: Bpb, d: seq<u8>, c: nat, e: nat, offset: nat)
    requires 2 <= c && 2 <= e && 0 < b.BytesPerCluster() <= offset && NextOnDisk(b, d, c) == Some(e)
    ensures Sought(b, d, c, offset) == Sought(b, d, e, offset - b.BytesPerCluster())
  {
  }

  lemma {:induction false} SoughtIs(b: Bpb, d: seq<u8>, s: seq<nat>, j: nat, k: nat, skip: nat, offset: nat)
    requires Fits(b, d) && IsChain(FatOf(b, d, 0), s) && j <= k < |s| && Located(b, offset, k - j, skip)
    ensures Sought(b, d, s[j], offset) == Some((s[k], skip))
    decreases k - j
  {
    if j < k {
      ChainNext(b, d, s, j);
      SoughtStep(b, d, s[j], s[j + 1], offset);
      SoughtIs(b, d, s, j + 1, k, skip, offset - b.BytesPerCluster());
    }
  }

  lemma {:induction false} WalkIsSlice(b: Bpb, d: seq<u8>, s: seq<nat>, k: nat, n: nat)
    requires Fits(b, d) && IsChain(FatOf(b, d, 0), s) && k < |s| && n > 0
    ensures WalkOnDisk(b, d, s[k], n) == s[k..k + Min(n, |s| - k)]
    decreases n
  {
    ChainNext(b, d, s, k);
    if k + 1 < |s| {
      if n > 1 {
        WalkIsSlice(b, d, s, k + 1, n - 1);
      } else {
        assert WalkOnDisk(b, d, s[k + 1], 0) == [];
      }
    }
  }

  /** Byte `offset` lies `skip` bytes into the `k`-th cluster. */
  predicate Located(b: Bpb, offset: nat, k: nat, skip: nat) {
    offset == Span(b, k) + skip && skip < b.BytesPerCluster()
  }

  /** Every byte of the chain lies in one of its clusters. */
  lemma Locate(b: Bpb, n: nat, offset: nat) returns (k: nat, skip: nat)
    requires b.BytesPerCluster() > 0 && offset < Span(b, n)
    ensures k < n && Located(b, offset, k, skip)
  {
    var bpc := b.BytesPerCluster();
    SplitOffset(offset, bpc);
    k, skip := offset / bpc, offset % bpc;
    SpanIs(b, k);
    if k >= n {
      SpanSum(b, n, k - n);
    }
  }

  lemma LocatedWithin(b: Bpb, n: nat, offset: nat)
    requires b.BytesPerCluster() > 0 && offset < Span(b, n)
    ensures exists k: nat, skip: nat :: k < n && Located(b, offset, k, skip)
  {
    var _, _ := Locate(b, n, offset);
  }

  /** The clusters a read fetches that starts in the `k`-th. */
  function Covered(b: Bpb, s: seq<nat>, k: nat, toRead: nat): seq<nat>
    requires b.BytesPerCluster() > 0 && k < |s|
  {
    s[k..k + Min(ClustersNeeded(toRead, b.BytesPerCluster()), |s| - k)]
  }

  lemma CoveredLength(b: Bpb, s: seq<nat>, k: nat, toRead: nat)
    requires b.BytesPerCluster() > 0 && k < |s| && toRead > 0
    ensures var w := Covered(b, s, k, toRead); 0 < |w| && k + |w| <= |s| && w == s[k..k + |w|]
  {
  }

  lemma ReadAlongChain(b: Bpb, d: seq<u8>, s: seq<nat>, toRead: nat, offset: nat, k: nat, skip: nat)
    requires Fits(b, d) && IsChain(FatOf(b, d, 0), s) && toRead > 0 && k < |s| && Located(b, offset, k, skip)
    ensures Numbers(s) && Numbers(Covered(b, s, k, toRead))
    ensures var w := Covered(b, s, k, toRead);
            ReadOf(b, d, s[0], toRead, offset) == Sliced(Fetched(b, d, w, BatchCount(w)), skip, toRead)
  {
    SoughtIs(b, d, s, 0, k, skip, offset);
    var n := ClustersNeeded(toRead, b.BytesPerCluster());
    WalkIsSlice(b, d, s, k, n);
    ReadFrom(b, d, s[0], toRead, offset, s[k], skip, Covered(b, s, k, toRead));
  }

  lemma ReadFrom(b: Bpb, d: seq<u8>, start: nat, toRead: nat, offset: nat, c: nat, skip: nat, w: seq<nat>)
    requires 2 <= start && b.BytesPerCluster() > 0 && Sought(b, d, start, offset) == Some((c, skip)) && Numbers(w)
    requires WalkOnDisk(b, d, c, ClustersNeeded(toRead, b.BytesPerCluster())) == w
    ensures ReadOf(b, d, start, toRead, offset) == Sliced(Fetched(b, d, w, BatchCount(w)), skip, toRead)
  {
  }

  // ---------- the bytes of the batches ----------

  /** The cluster that a batch takes for its `i`-th. */
  function Assumed(w: seq<nat>, i: nat): nat
    requires i < |w|
  {
    w[i - i % 64] + i % 64
  }

  /** Within each batch of 64 the clusters are numbered consecutively. */
  ghost predicate BatchWise(w: seq<nat>) {
    forall i: nat {:trigger Assumed(w, i)} | i < |w| :: w[i] == Assumed(w, i)
  }

  lemma AssumedAt(w: seq<nat>, j: nat, i: nat)
    requires i < 64 && 64 * j + i < |w|
    ensures Assumed(w, 64 * j + i) == w[64 * j] + i
  {
    assert (64 * j + i) % 64 == i;
  }

  lemma BatchConsecutive(w: seq<nat>, j: nat)
    requires BatchWise(w) && j < BatchCount(w)
    ensures Consecutive(w[Through(w, j)..Through(w, j + 1)])
  {
    var piece := w[Through(w, j)..Through(w, j + 1)];
    forall i: nat | i < |piece|
      ensures piece[i] == piece[0] + i
    {
      AssumedAt(w, j, i);
    }
  }

  lemma ContentSplit(m: Store, w: seq<nat>, lo: nat, hi: nat)
    requires lo <= hi <= |w| && Stored(m, w)
    ensures Content(m, w[..hi]) == Content(m, w[..lo]) + Content(m, w[lo..hi])
  {
    ContentAppend(m, w[..lo], w[lo..hi]);
    assert w[..hi] == w[..lo] + w[lo..hi];
  }

  lemma BatchIsContent(b: Bpb, d: seq<u8>, m: Store, w: seq<nat>, j: nat)
    requires HoldsStore(b, d, m) && Numbers(w) && Stored(m, w) && BatchWise(w) && j < BatchCount(w)
    ensures Batch(b, d, w, j) == Some(Content(m, w[Through(w, j)..Through(w, j + 1)]))
  {
    BatchConsecutive(w, j);
    RunIsContent(b, d, m, w[Through(w, j)..Through(w, j + 1)]);
  }

  /** The `j`-th batch fetches the content of its clusters. */
  ghost predicate BatchHeld(b: Bpb, d: seq<u8>, m: Store, w: seq<nat>, j: nat)
    requires Numbers(w) && Stored(m, w) && j < BatchCount(w)
  {
    Batch(b, d, w, j) == Some(Content(m, w[Through(w, j)..Through(w, j + 1)]))
  }

  /** So do the first `j` batches together. */
  ghost predicate FetchedHeld(b: Bpb, d: seq<u8>, m: Store, w: seq<nat>, j: nat)
    requires Numbers(w) && Stored(m, w) && j <= BatchCount(w)
  {
    Fetched(b, d, w, j) == Some(Content(m, w[..Through(w, j)]))
  }

  lemma FetchedNext(b: Bpb, d: seq<u8>, m: Store, w: seq<nat>, j: nat)
    requires Numbers(w) && Stored(m, w) && j < BatchCount(w) && BatchHeld(b, d, m, w, j) && FetchedHeld(b, d, m, w, j)
    ensures FetchedHeld(b, d, m, w, j + 1)
  {
    ContentSplit(m, w, Through(w, j), Through(w, j + 1));
  }

  lemma {:induction false} FetchedAll(b: Bpb, d: seq<u8>, m: Store, w: seq<nat>, j: nat)
    requires Numbers(w) && Stored(m, w) && j <= BatchCount(w)
    requires forall i: nat {:trigger BatchHeld(b, d, m, w, i)} | i < j :: BatchHeld(b, d, m, w, i)
    ensures FetchedHeld(b, d, m, w, j)
    decreases j
  {
    if j > 0 {
      FetchedAll(b, d, m, w, j - 1);
      assert BatchHeld(b, d, m, w, j - 1);
      FetchedNext(b, d, m, w, j - 1);
    }
  }

  /** Where every batch is consecutive, what is fetched is the content of the clusters. */
  lemma FetchedIsContent(b: Bpb, d: seq<u8>, m: Store, w: seq<nat>)
    requires HoldsStore(b, d, m) && Numbers(w) && Stored(m, w) && BatchWise(w)
    ensures Fetched(b, d, w, BatchCount(w)) == Some(Content(m, w))
  {
    var n := BatchCount(w);
    forall i: nat | i < n
      ensures BatchHeld(b, d, m, w, i)
    {
      BatchIsContent(b, d, m, w, i);
    }
    FetchedAll(b, d, m, w, n);
    assert w[..Through(w, n)] == w;
  }

  /** What is fetched for the first byte of the `t`-th cluster: the first byte of the cluster its
      batch takes it for. */
  lemma {:induction false} FetchedByte(b: Bpb, d: seq<u8>, w: seq<nat>, j: nat, x: seq<u8>, t: nat)
    requires Numbers(w) && j <= BatchCount(w) && t < Through(w, j) && b.sectorsPerCluster > 0
    requires Fetched(b, d, w, j) == Some(x)
    ensures OnDevice(b, d, Assumed(w, t)) && Span(b, t) < |x| && x[Span(b, t)] == ClusterOf(b, d, Assumed(w, t))[0]
    decreases j
  {
    var lo := Through(w, j - 1);
    var before, batch := Fetched(b, d, w, j - 1).value, Batch(b, d, w, j - 1).value;
    if t < lo {
      FetchedByte(b, d, w, j - 1, before, t);
    } else {
      BatchByte(b, d, w, j - 1, batch, t);
      SpanSum(b, lo, t - lo);
      assert x[Span(b, t)] == batch[Span(b, t - lo)];
    }
  }

  lemma BatchByte(b: Bpb, d: seq<u8>, w: seq<nat>, j: nat, batch: seq<u8>, t: nat)
    requires Numbers(w) && j < BatchCount(w) && Through(w, j) <= t < Through(w, j + 1) && b.sectorsPerCluster > 0
    requires Batch(b, d, w, j) == Some(batch)
    ensures OnDevice(b, d, Assumed(w, t))
    ensures var pos := Span(b, t - Through(w, j)); pos < |batch| && batch[pos] == ClusterOf(b, d, Assumed(w, t))[0]
  {
    var lo := Through(w, j);
    AssumedAt(w, j, t - lo);
    RunCluster(b, d, w[lo], Through(w, j + 1) - lo, t - lo, Span(b, t - lo));
  }

  // ---------- when a read is right ----------

  /** `c` holds `p` from byte `at` on. */
  predicate PieceAt(c: seq<u8>, at: nat, p: seq<u8>) {
    at + |p| <= |c| && p == c[at..at + |p|]
  }

  /** `p` is what the chain `s` holds from byte `offset` on. */
  ghost predicate Holds(m: Store, s: seq<nat>, offset: nat, p: seq<u8>) {
    Stored(m, s) && PieceAt(Content(m, s), offset, p)
  }

  /** The device holds all of `s`. */
  ghost predicate AllOnDevice(b: Bpb, d: seq<u8>, s: seq<nat>) {
    forall i | 0 <= i < |s| :: OnDevice(b, d, s[i])
  }

  lemma StoredAll(b: Bpb, d: seq<u8>, m: Store, s: seq<nat>)
    requires HoldsStore(b, d, m)
    ensures AllOnDevice(b, d, s) <==> Stored(m, s)
  {
    forall i | 0 <= i < |s|
      ensures OnDevice(b, d, s[i]) <==> s[i] in m
    {
    }
  }

  /** A read that does not fail has the length asked for, or that of the clusters fetched. */
  lemma ReadLength(b: Bpb, d: seq<u8>, s: seq<nat>, toRead: nat, offset: nat, k: nat, skip: nat)
    requires Fits(b, d) && IsChain(FatOf(b, d, 0), s) && toRead > 0 && k < |s| && Located(b, offset, k, skip)
    ensures var n := |Covered(b, s, k, toRead)|;
            && n > 0 && skip < Span(b, n)
            && var r := ReadOf(b, d, s[0], toRead, offset);
               r.Some? ==> |r.value| == Min(Span(b, n) - skip, toRead) > 0
  {
    ReadAlongChain(b, d, s, toRead, offset, k, skip);
    var w := Covered(b, s, k, toRead);
    CoveredLength(b, s, k, toRead);
    assert Span(b, |w|) >= b.BytesPerCluster();
  }

  /** A piece of the content of some clusters of a chain is a piece of the chain's. */
  lemma HeldWithin(b: Bpb, m: Store, s: seq<nat>, k: nat, w: seq<nat>, skip: nat, want: nat)
    requires Stored(m, s) && Uniform(m, b.BytesPerCluster()) && k + |w| <= |s| && w == s[k..k + |w|]
    requires Stored(m, w) && skip < |Content(m, w)|
    ensures Holds(m, s, Span(b, k) + skip, Slice(Content(m, w), skip, want))
  {
    var c, p := Content(m, s), Content(m, w);
    assert PieceAt(c, Span(b, k), p) by {
      assert s[k..k + |w|] == w;
      ClustersAt(b, m, s, k, k + |w|);
    }
    SliceOf(c, Span(b, k), p, skip, want);
  }

  lemma SliceOf(c: seq<u8>, lo: nat, p: seq<u8>, skip: nat, want: nat)
    requires PieceAt(c, lo, p) && skip < |p|
    ensures PieceAt(c, lo + skip, Slice(p, skip, want))
  {
    var q := Slice(p, skip, want);
    forall i | 0 <= i < |q|
      ensures q[i] == c[lo + skip..lo + skip + |q|][i]
    {
      assert q[i] == p[skip + i];
    }
  }

  lemma ClustersAt(b: Bpb, m: Store, s: seq<nat>, i: nat, j: nat)
    requires Stored(m, s) && Uniform(m, b.BytesPerCluster()) && i <= j <= |s|
    ensures PieceAt(Content(m, s), Span(b, i), Content(m, s[i..j]))
  {
    SpanIs(b, i);
    ContentSlice(m, s, b.BytesPerCluster(), i, j, Span(b, i));
  }

  /** Where each batch is consecutive, a read returns the file's bytes at its offset. */
  lemma BatchWiseRead(b: Bpb, d: seq<u8>, m: Store, s: seq<nat>, toRead: nat, offset: nat, k: nat, skip: nat)
    requires Fits(b, d) && IsChain(FatOf(b, d, 0), s) && HoldsStore(b, d, m) && Uniform(m, b.BytesPerCluster())
    requires Stored(m, s)
    requires toRead > 0 && k < |s| && Located(b, offset, k, skip) && BatchWise(Covered(b, s, k, toRead))
    ensures var r := ReadOf(b, d, s[0], toRead, offset); r.Some? && Holds(m, s, offset, r.value)
  {
    var w := Covered(b, s, k, toRead);
    ReadAlongChain(b, d, s, toRead, offset, k, skip);
    CoveredLength(b, s, k, toRead);
    assert Stored(m, w);
    FetchedIsContent(b, d, m, w);
    assert Span(b, |w|) >= b.BytesPerCluster();
    HeldWithin(b, m, s, k, w, skip, toRead);
  }

  /** The same parameter block and tables, and a data region of the same size. */
  ghost predicate SameTables(b: Bpb, d: seq<u8>, d': seq<u8>) {
    |d'| == |d| && forall i: nat | i < |d| && i < b.DataStart() * 512 :: d'[i] == d[i]
  }

  lemma SameTablesSameChain(b: Bpb, d: seq<u8>, d': seq<u8>, s: seq<nat>)
    requires Fits(b, d) && SameTables(b, d, d') && AllOnDevice(b, d, s)
    ensures Fits(b, d') && FatOf(b, d', 0) == FatOf(b, d, 0) && AllOnDevice(b, d', s)
  {
    DataWriteKeepsTables(b, d, d', b.DataStart() * 512);
  }

  /** The read does not fail, and what it returns is in the file at the offset. */
  ghost predicate Right(b: Bpb, d: seq<u8>, s: seq<nat>, toRead: nat, offset: nat)
    requires s != [] && 2 <= s[0] && b.sectorsPerCluster > 0
  {
    var r := ReadOf(b, d, s[0], toRead, offset);
    r.Some? && Holds(StoreOf(b, d), s, offset, r.value)
  }

  /** The device with every byte of cluster `c` set to `v`. */
  function Marked(b: Bpb, d: seq<u8>, c: nat, v: u8): (r: seq<u8>)
    requires OnDevice(b, d, c)
    ensures |r| == |d|
    ensures forall i: nat | i < |d| :: r[i] == if InCluster(b, c, i) then v else d[i]
  {
    ClusterPlace(b, d, c);
    Splice(d, b.ClusterToSector(c) * 512, seq(b.BytesPerCluster(), _ => v))
  }

  lemma MarkedTables(b: Bpb, d: seq<u8>, c: nat, v: u8)
    requires OnDevice(b, d, c)
    ensures SameTables(b, d, Marked(b, d, c, v))
  {
    ClusterPlace(b, d, c);
  }

  lemma MarkedCluster(b: Bpb, d: seq<u8>, c: nat, v: u8, e: nat)
    requires b.sectorsPerCluster > 0 && OnDevice(b, d, c) && OnDevice(b, d, e)
    ensures ClusterOf(b, Marked(b, d, c, v), e)[0] == if e == c then v else ClusterOf(b, d, e)[0]
  {
    ClusterPlace(b, d, e);
    var i := b.ClusterToSector(e) * 512;
    assert InCluster(b, e, i);
    if e != c && InCluster(b, c, i) {
      ClustersApart(b, c, e, i);
    }
  }

  /** A byte that cluster `e` does not start with. */
  function Unlike(b: Bpb, d: seq<u8>, e: nat): (v: u8)
    requires b.sectorsPerCluster > 0
    ensures OnDevice(b, d, e) ==> ClusterOf(b, d, e)[0] != v
  {
    if OnDevice(b, d, e) && ClusterOf(b, d, e)[0] == 0 then 1 else 0
  }

  lemma LastClusterNeeded(b: Bpb, toRead: nat, t: nat)
    requires b.BytesPerCluster() > 0 && t < ClustersNeeded(toRead, b.BytesPerCluster())
    ensures Span(b, t) < toRead
  {
    var n := ClustersNeeded(toRead, b.BytesPerCluster());
    SpanIs(b, n - 1);
    SpanSum(b, t, n - 1 - t);
  }

  /** A right read starts each later cluster it covers with that cluster's first byte. */
  lemma RightByte(b: Bpb, m: Store, s: seq<nat>, toRead: nat, offset: nat, k: nat, skip: nat, t: nat, x: seq<u8>)
    requires Stored(m, s) && Uniform(m, b.BytesPerCluster()) && k + t < |s| && Located(b, offset, k, skip)
    requires skip < |x| && Holds(m, s, offset, Slice(x, skip, toRead))
    requires skip <= Span(b, t) < |x| && Span(b, t) - skip < toRead
    ensures |m[s[k + t]]| > 0 && x[Span(b, t)] == m[s[k + t]][0]
  {
    SpanSum(b, k, t);
    ClusterStart(b, m, s, k + t);
    SlicedByte(Content(m, s), offset, x, skip, toRead, Span(b, t), Span(b, k + t));
  }

  lemma ClusterStart(b: Bpb, m: Store, s: seq<nat>, i: nat)
    requires Stored(m, s) && Uniform(m, b.BytesPerCluster()) && b.BytesPerCluster() > 0 && i < |s|
    ensures |m[s[i]]| > 0 && Span(b, i) < |Content(m, s)| && Content(m, s)[Span(b, i)] == m[s[i]][0]
  {
    SpanIs(b, i);
    ContentAt(m, s, b.BytesPerCluster(), i, Span(b, i));
    FirstOf(Content(m, s), Span(b, i), b.BytesPerCluster());
  }

  /** Byte `i` of what was fetched lies as far behind `skip` in the piece read. */
  lemma SlicedByte(c: seq<u8>, offset: nat, x: seq<u8>, skip: nat, toRead: nat, i: nat, at: nat)
    requires skip <= i < |x| && i - skip < toRead && PieceAt(c, offset, Slice(x, skip, toRead))
    requires at + skip == offset + i
    ensures at < |c| && c[at] == x[i]
  {
    assert Slice(x, skip, toRead)[i - skip] == x[i];
  }

  lemma FirstOf(c: seq<u8>, at: nat, n: nat)
    requires n > 0 && at + n <= |c|
    ensures c[at..at + n][0] == c[at]
  {
  }

  /** Marking a cluster that its batch mistakes for another does not show in what is fetched. */
  lemma FetchedElsewhere(b: Bpb, d: seq<u8>, w: seq<nat>, t: nat, v: u8, x: seq<u8>)
    requires Numbers(w) && t < |w| && w[t] != Assumed(w, t) && OnDevice(b, d, w[t]) && b.sectorsPerCluster > 0
    requires v == Unlike(b, d, Assumed(w, t)) && Fetched(b, Marked(b, d, w[t], v), w, BatchCount(w)) == Some(x)
    ensures b.BytesPerCluster() <= Span(b, t) < |x| && x[Span(b, t)] != v
  {
    var d' := Marked(b, d, w[t], v);
    FetchedByte(b, d', w, BatchCount(w), x, t);
    OnSameSize(b, d, d', Assumed(w, t));
    MarkedCluster(b, d, w[t], v, Assumed(w, t));
    FirstIsAssumed(b, w, t);
  }

  lemma OnSameSize(b: Bpb, d: seq<u8>, d': seq<u8>, c: nat)
    requires |d| == |d'|
    ensures OnDevice(b, d, c) <==> OnDevice(b, d', c)
  {
  }

  lemma FirstIsAssumed(b: Bpb, w: seq<nat>, t: nat)
    requires t < |w| && w[t] != Assumed(w, t)
    ensures t > 0 && Span(b, t) >= b.BytesPerCluster()
  {
  }

  lemma MarkedFirst(b: Bpb, d: seq<u8>, c: nat, v: u8, m: Store)
    requires OnDevice(b, d, c) && b.sectorsPerCluster > 0 && HoldsStore(b, Marked(b, d, c, v), m)
    ensures c in m && |m[c]| > 0 && m[c][0] == v
  {
    assert OnDevice(b, Marked(b, d, c, v), c);
    MarkedCluster(b, d, c, v, c);
    assert m[c] == ClusterOf(b, Marked(b, d, c, v), c);
  }

  /** If the `t`-th cluster fetched is not numbered as its batch assumes, then on a device with
      the same tables, some contents of that cluster make the read wrong. */
  lemma FragmentedReadWrong(b: Bpb, d: seq<u8>, s: seq<nat>, toRead: nat, offset: nat, k: nat, skip: nat, t: nat)
    returns (d': seq<u8>)
    requires Fits(b, d) && IsChain(FatOf(b, d, 0), s) && AllOnDevice(b, d, s)
    requires toRead > 0 && k < |s| && Located(b, offset, k, skip)
    requires var w := Covered(b, s, k, toRead); t < |w| && w[t] != Assumed(w, t)
    ensures SameTables(b, d, d') && !Right(b, d', s, toRead, offset)
  {
    var w := Covered(b, s, k, toRead);
    CoveredLength(b, s, k, toRead);
    var e := Assumed(w, t);
    var v := Unlike(b, d, e);
    assert w[t] == s[k + t];
    d' := Marked(b, d, w[t], v);
    MarkedTables(b, d, w[t], v);
    SameTablesSameChain(b, d, d', s);
    ReadAlongChain(b, d', s, toRead, offset, k, skip);
    ReadLength(b, d', s, toRead, offset, k, skip);
    if Right(b, d', s, toRead, offset) {
      var x, m := Fetched(b, d', w, BatchCount(w)).value, StoreOf(b, d');
      FetchedElsewhere(b, d, w, t, v, x);
      LastClusterNeeded(b, toRead, t);
      StoredAll(b, d', m, s);
      RightByte(b, m, s, toRead, offset, k, skip, t, x);
      MarkedFirst(b, d, w[t], v, m);
    }
  }

  /** A read is right whatever the clusters hold if and only if, of the clusters it fetches, each
      batch of 64 is numbered consecutively. A read inside one cluster always is. */
  lemma ReadRightIff(b: Bpb, d: seq<u8>, s: seq<nat>, toRead: nat, offset: nat, k: nat, skip: nat)
    requires Fits(b, d) && IsChain(FatOf(b, d, 0), s) && AllOnDevice(b, d, s)
    requires toRead > 0 && k < |s| && Located(b, offset, k, skip)
    ensures (forall d' {:trigger SameTables(b, d, d')} | SameTables(b, d, d') :: Right(b, d', s, toRead, offset))
            <==> BatchWise(Covered(b, s, k, toRead))
  {
    var w := Covered(b, s, k, toRead);
    if BatchWise(w) {
      forall d' | SameTables(b, d, d')
        ensures Right(b, d', s, toRead, offset)
      {
        SameTablesSameChain(b, d, d', s);
        StoredAll(b, d', StoreOf(b, d'), s);
        BatchWiseRead(b, d', StoreOf(b, d'), s, toRead, offset, k, skip);
      }
    } else {
      var t: nat :| t < |w| && w[t] != Assumed(w, t);
      var d' := FragmentedReadWrong(b, d, s, toRead, offset, k, skip, t);
    }
  }

  // ---------- reading a file ----------

  /** The file's size fits its chain, as every write leaves it. */
  ghost predicate Readable(f: Fat32File)
    reads f, f.vol
  {
    f.Valid() && f.size <= Span(f.vol.b, |f.chain|)
  }

  lemma ReadableFacts(f: Fat32File)
    requires Readable(f) && f.size > 0
    ensures Fits(f.vol.b, f.vol.disk) && IsChain(FatOf(f.vol.b, f.vol.disk, 0), f.chain) && f.chain[0] == f.start
    ensures HoldsStore(f.vol.b, f.vol.disk, f.vol.store) && Stored(f.vol.store, f.chain)
  {
    FileChainStored(f.vol.store, f.vol.table, f.chain);
    assert FatOf(f.vol.b, f.vol.disk, 0) == f.vol.table;
  }

  /** The read along the chain `s`, and what it is worth at the place where byte `offset` lies. */
  ghost predicate ReadsAt(b: Bpb, d: seq<u8>, m: Store, s: seq<nat>, toRead: nat, offset: nat, r: Option<seq<u8>>) {
    && s != [] && 2 <= s[0] && b.BytesPerCluster() > 0
    && r == ReadOf(b, d, s[0], toRead, offset)
    && (forall k: nat, skip: nat {:trigger Located(b, offset, k, skip)} | k < |s| && Located(b, offset, k, skip) ::
          ReadsWell(b, m, s, toRead, offset, k, skip, r))
  }

  lemma ReadOfReadsAt(b: Bpb, d: seq<u8>, m: Store, s: seq<nat>, toRead: nat, offset: nat)
    requires Fits(b, d) && IsChain(FatOf(b, d, 0), s) && HoldsStore(b, d, m) && Uniform(m, b.BytesPerCluster())
    requires Stored(m, s)
    requires toRead > 0
    ensures ReadsAt(b, d, m, s, toRead, offset, ReadOf(b, d, s[0], toRead, offset))
  {
    forall k: nat, skip: nat | k < |s| && Located(b, offset, k, skip)
      ensures ReadsWell(b, m, s, toRead, offset, k, skip, ReadOf(b, d, s[0], toRead, offset))
    {
      ReadOfReadsWell(b, d, m, s, toRead, offset, k, skip);
    }
  }

  method ReadSome(f: Fat32File, toRead: nat, offset: nat) returns (r: Option<seq<u8>>)
    requires Readable(f) && offset < f.size && toRead > 0
    ensures ReadsAt(f.vol.b, f.vol.disk, f.vol.store, f.chain, toRead, offset, r)
  {
    ReadableFacts(f);
    r := ReadChain(f.vol, f.start, toRead, offset);
    ReadOfReadsAt(f.vol.b, f.vol.disk, f.vol.store, f.chain, toRead, offset);
  }

  /** The bytes a read puts into a buffer of length `len`; None is an I/O error. */
  method Read(f: Fat32File, len: nat, offset: nat) returns (r: Option<seq<u8>>)
    requires Readable(f)
    ensures offset >= f.size || len == 0 ==> r == Some([])
    ensures offset < f.size && len > 0 ==>
              ReadsAt(f.vol.b, f.vol.disk, f.vol.store, f.chain, Min(f.size - offset, len), offset, r)
    ensures offset < f.size ==> exists k: nat, skip: nat :: k < |f.chain| && Located(f.vol.b, offset, k, skip)
  {
    if offset < f.size {
      LocatedWithin(f.vol.b, |f.chain|, offset);
    }
    if offset >= f.size || len == 0 {
      return Some([]);
    }
    r := ReadSome(f, Min(f.size - offset, len), offset);
  }

  lemma ReadOfReadsWell(b: Bpb, d: seq<u8>, m: Store, s: seq<nat>, toRead: nat, offset: nat, k: nat, skip: nat)
    requires Fits(b, d) && IsChain(FatOf(b, d, 0), s) && HoldsStore(b, d, m) && Uniform(m, b.BytesPerCluster())
    requires Stored(m, s)
    requires toRead > 0 && k < |s| && Located(b, offset, k, skip)
    ensures ReadsWell(b, m, s, toRead, offset, k, skip, ReadOf(b, d, s[0], toRead, offset))
  {
    ReadLength(b, d, s, toRead, offset, k, skip);
    if BatchWise(Covered(b, s, k, toRead)) {
      BatchWiseRead(b, d, m, s, toRead, offset, k, skip);
    }
  }

  /** A read that starts `skip` bytes into the `k`-th cluster: its length, and, where each batch of
      the clusters it fetches is consecutive, the file's bytes. */
  ghost predicate ReadsWell(b: Bpb, m: Store, s: seq<nat>, toRead: nat, offset: nat, k: nat, skip: nat,
                            r: Option<seq<u8>>)
    requires k < |s| && b.BytesPerCluster() > 0
  {
    var w := Covered(b, s, k, toRead);
    && skip < Span(b, |w|)
    && (r.Some? ==> |r.value| == Min(Span(b, |w|) - skip, toRead) > 0)
    && (BatchWise(w) ==> r.Some? && Holds(m, s, offset, r.value))
  }

  /** The clusters that hold the first `size` bytes are fetched by one read, which is complete. */
  lemma WholeRead(b: Bpb, s: seq<nat>, size: nat)
    requires b.BytesPerCluster() > 0 && 0 < size <= Span(b, |s|)
    ensures var n := ClustersNeeded(size, b.BytesPerCluster());
            0 < n <= |s| && size <= Span(b, n) && Covered(b, s, 0, size) == s[..n] && Located(b, 0, 0, 0)
  {
    var n := ClustersNeeded(size, b.BytesPerCluster());
    SpanIs(b, n);
    LastClusterNeeded(b, size, n - 1);
    if n - 1 >= |s| {
      SpanSum(b, |s|, n - 1 - |s|);
    }
  }

  lemma WholeReadsWell(b: Bpb, m: Store, s: seq<nat>, size: nat, r: Option<seq<u8>>)
    requires b.BytesPerCluster() > 0 && 0 < size <= Span(b, |s|) && ReadsWell(b, m, s, size, 0, 0, 0, r)
    ensures r.Some? ==> |r.value| == size
    ensures BatchWise(Covered(b, s, 0, size)) ==> r.Some? && Holds(m, s, 0, r.value)
  {
    WholeRead(b, s, size);
  }

  /** What one read of the whole file returns. */
  ghost predicate ReadsWhole(f: Fat32File, r: Option<seq<u8>>)
    requires 2 <= f.start && f.vol.b.BytesPerCluster() > 0
    requires ClustersNeeded(f.size, f.vol.b.BytesPerCluster()) <= |f.chain|
    reads f, f.vol
  {
    && r == ReadOf(f.vol.b, f.vol.disk, f.start, f.size, 0)
    && (r.Some? ==> |r.value| == f.size)
    && (BatchWise(f.chain[..ClustersNeeded(f.size, f.vol.b.BytesPerCluster())]) ==>
          r.Some? && Holds(f.vol.store, f.chain, 0, r.value))
  }

  /** The read of the loop: what is left of the file, from byte `at` on. */
  method ReadRest(f: Fat32File, at: nat) returns (r: Option<seq<u8>>)
    requires Readable(f) && at < f.size
    ensures 2 <= f.start && f.vol.b.BytesPerCluster() > 0
    ensures ClustersNeeded(f.size, f.vol.b.BytesPerCluster()) <= |f.chain|
    ensures at == 0 ==> ReadsWhole(f, r)
  {
    ReadableFacts(f);
    WholeRead(f.vol.b, f.chain, f.size);
    r := Read(f, f.size - at, at);
    if at == 0 {
      WholeReadsWell(f.vol.b, f.vol.store, f.chain, f.size, r);
    }
  }

  lemma EmptyFile(f: Fat32File)
    requires Readable(f) && f.size == 0
    ensures Holds(f.vol.store, f.chain, 0, [])
  {
    FileChainStored(f.vol.store, f.vol.table, f.chain);
  }

  /** Reads until the size reported for the file is covered or a read comes back empty. The first
      read covers it: the file's bytes, where each batch of its clusters is consecutive. */
  method ReadRawAll(f: Fat32File) returns (r: Option<seq<u8>>)
    requires Readable(f)
    ensures f.size == 0 ==> r == Some([]) && Holds(f.vol.store, f.chain, 0, [])
    ensures f.size > 0 ==>
              && 2 <= f.start && f.vol.b.BytesPerCluster() > 0
              && ClustersNeeded(f.size, f.vol.b.BytesPerCluster()) <= |f.chain|
              && ReadsWhole(f, r)
  {
    var size, buf: seq<u8> := f.size, [];
    if size == 0 {
      EmptyFile(f);
    }
    while |buf| < size
      invariant buf != [] ==>
                  && 2 <= f.start && f.vol.b.BytesPerCluster() > 0
                  && ClustersNeeded(f.size, f.vol.b.BytesPerCluster()) <= |f.chain|
                  && ReadsWhole(f, Some(buf))
      decreases size - |buf|
    {
      var n := ReadRest(f, |buf|);
      if n.None? {
        return None;
      }
      if |n.value| == 0 {
        break;
      }
      assert buf + n.value == n.value;
      buf := buf + n.value;
    }
    r := Some(buf);
  }

  /** A file is read whole and right, whatever its clusters hold, if and only if each batch of the
      clusters its size needs is numbered consecutively. */
  lemma WholeFileRightIff(b: Bpb, d: seq<u8>, s: seq<nat>, size: nat)
    requires Fits(b, d) && IsChain(FatOf(b, d, 0), s) && AllOnDevice(b, d, s) && 0 < size <= Span(b, |s|)
    ensures ClustersNeeded(size, b.BytesPerCluster()) <= |s|
    ensures (forall d' {:trigger SameTables(b, d, d')} | SameTables(b, d, d') :: ReadWhole(b, d', s, size))
            <==> BatchWise(s[..ClustersNeeded(size, b.BytesPerCluster())])
  {
    WholeRead(b, s, size);
    ReadRightIff(b, d, s, size, 0, 0, 0);
    forall d' | SameTables(b, d, d')
      ensures ReadWhole(b, d', s, size) <==> Right(b, d', s, size, 0)
    {
      SameTablesSameChain(b, d, d', s);
      WholeRight(b, d', s, size);
    }
  }

  lemma WholeRight(b: Bpb, d: seq<u8>, s: seq<nat>, size: nat)
    requires Fits(b, d) && IsChain(FatOf(b, d, 0), s) && 0 < size <= Span(b, |s|)
    ensures ReadWhole(b, d, s, size) <==> Right(b, d, s, size, 0)
  {
    WholeRead(b, s, size);
    WholeLength(b, d, s, size, 0);
  }

  lemma WholeLength(b: Bpb, d: seq<u8>, s: seq<nat>, size: nat, start: nat)
    requires Fits(b, d) && IsChain(FatOf(b, d, 0), s) && 0 < size && start == 0 && Located(b, start, start, start)
    requires size <= Span(b, |Covered(b, s, start, size)|)
    ensures ReadOf(b, d, s[0], size, start).Some? ==> |ReadOf(b, d, s[0], size, start).value| == size
  {
    ReadLength(b, d, s, size, start, start, start);
  }

  /** One read from the start returns the first `size` bytes of the file. */
  ghost predicate ReadWhole(b: Bpb, d: seq<u8>, s: seq<nat>, size: nat)
    requires s != [] && 2 <= s[0] && b.sectorsPerCluster > 0
  {
    Right(b, d, s, size, 0) && |ReadOf(b, d, s[0], size, 0).value| == size
  }

  /** Such files arise: two files started and the first extended. Whatever its size beyond one
      cluster, there are contents on which it is read wrongly. */
  lemma FragmentedFile(b: Bpb, d: seq<u8>, t: Fat, size: nat)
    requires 5 <= |t| <= BAD_CLUSTER && AllFree(t)
    requires Fits(b, d) && FatOf(b, d, 0) == ApplyAll(t, [Start(true), Start(true), Extend(2, true)])
    requires AllOnDevice(b, d, [2, 4]) && b.BytesPerCluster() < size <= Span(b, 2)
    ensures exists d' :: SameTables(b, d, d') && !ReadWhole(b, d', [2, 4], size)
  {
    FragmentedChain(t);
    var s := [2, 4];
    WholeFileRightIff(b, d, s, size);
    var n := ClustersNeeded(size, b.BytesPerCluster());
    assert n == 2 by {
      SpanIs(b, n);
    }
    assert s[..n] == s;
    assert Assumed(s, 1) == 3;
    assert !BatchWise(s);
  }
}
