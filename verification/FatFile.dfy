/**
 Files on a FAT32 volume: writing through an open file, growing its chain as
 needed, and truncating on disk, with the directory entry that records head and size.
 */
module FatFile {
  import opened Options
  import opened Bytes
  import opened FatTable
  import opened FatContent
  import opened FatLayout
  import opened FatVolume

  /** A volume on which every cluster in use is within the device. */
  ghost predicate Mounted(vol: Volume)
    reads vol
  {
    vol.Valid() && WellFormed(vol.table) && AllStored(vol.store, vol.table)
  }

  // ---------- growing and cutting chains ----------

  lemma FullWhenNoneFits(vol: Volume, t: Fat)
    requires vol.Valid() && SameLinks(t, vol.table)
    requires var c := LowestFree(t, 2); c.None? || c.value !in vol.store
    ensures DeviceFull(vol.store, vol.table)
  {
    var c := LowestFree(t, 2);
    forall e: nat | Cluster(vol.table, e) && Free(vol.table, e)
      ensures e !in vol.store
    {
      assert Free(t, e);
      if c.Some? && e in vol.store { StoreDownwardClosed(vol, c.value, e); }
    }
  }

  /** The allocation loop shared by writing and truncating: extend `s` to at
      least `needed` clusters. It stops early only when the device is full. */
  method GrowChain(vol: Volume, s: seq<nat>, needed: nat) returns (grown: seq<nat>, ok: bool)
    requires Mounted(vol) && FileChain(vol.table, s)
    modifies vol
    ensures vol.Valid() && |vol.disk| == |old(vol.disk)|
    ensures Grown(old(vol.table), old(vol.store), s, vol.table, vol.store, grown, vol.b.BytesPerCluster())
    ensures ok ==> |grown| == Max(|s|, needed)
    ensures !ok ==> |grown| < needed && DeviceFull(vol.store, vol.table)
  {
    ghost var t, m, bpc := vol.table, vol.store, vol.b.BytesPerCluster();
    grown := s;
    while |grown| < needed
      invariant vol.Valid() && |vol.disk| == |old(vol.disk)| && Grown(t, m, s, vol.table, vol.store, grown, bpc)
      invariant |s| <= |grown| && (|grown| <= needed || grown == s)
      decreases needed - |grown|
    {
      ghost var t1, m1 := vol.table, vol.store;
      GrownTail(t, m, s, t1, m1, grown, bpc);
      var c := vol.AllocateCluster(LastOf(grown));
      if c.None? {
        GrownSameLinks(t, m, s, t1, m1, grown, vol.table, bpc);
        FullWhenNoneFits(vol, t1);
        return grown, false;
      }
      GrownStep(t, m, s, t1, m1, grown, c.value, vol.table, bpc);
      grown := grown + [c.value];
    }
    ok := true;
  }

  /** The shrinking loop: end mark on the last cluster kept, the rest freed. */
  method CutChain(vol: Volume, s: seq<nat>, k: nat)
    requires vol.Valid() && k < |s| && IsChain(vol.table, s)
    modifies vol`disk, vol`table
    ensures vol.Valid() && |vol.disk| == |old(vol.disk)| && vol.table == Truncated(old(vol.table), s, k)
  {
    if k > 0 {
      var ok := vol.WriteFatEntry(s[k - 1], END_OF_CHAIN);
    }
    ghost var v := vol.table;
    var i := k;
    while i < |s|
      invariant k <= i <= |s| && vol.Valid() && |vol.disk| == |old(vol.disk)| && vol.table == Cleared(v, s[k..i])
    {
      var ok := vol.WriteFatEntry(s[i], 0);
      assert s[k..i + 1][..i - k] == s[k..i];
      i := i + 1;
    }
    assert s[k..|s|] == s[k..];
  }

  /** The chain part of truncation: shrink, or grow by zeroed clusters. */
  method Resize(vol: Volume, s: seq<nat>, needed: nat, ghost dir: nat) returns (s': seq<nat>, ok: bool)
    requires Mounted(vol) && FileChain(vol.table, s)
    requires Cluster(vol.table, dir) && !Free(vol.table, dir) && dir in vol.store && dir !in s
    modifies vol
    ensures Mounted(vol) && |vol.disk| == |old(vol.disk)| && FileChain(vol.table, s') && dir !in s'
    ensures if ok then |s'| == needed else |s| <= |s'| < needed && DeviceFull(vol.store, vol.table)
    ensures Resized(old(vol.table), old(vol.store), s, vol.table, vol.store, s', dir, vol.b.BytesPerCluster())
    ensures Cluster(vol.table, dir) && !Free(vol.table, dir) && dir in vol.store
    ensures vol.store[dir] == old(vol.store)[dir]
  {
    ghost var t, m, bpc := vol.table, vol.store, vol.b.BytesPerCluster();
    if needed < |s| {
      CutChain(vol, s, needed);
      s', ok := s[..needed], true;
      CutFacts(t, m, s, needed);
      CutResized(t, m, s, needed, dir, bpc);
    } else {
      s', ok := GrowChain(vol, s, needed);
      EntryKept(t, m, s, vol.table, vol.store, s', bpc, dir);
      GrownResized(t, m, s, vol.table, vol.store, s', dir, bpc);
    }
  }

  // ---------- writing into clusters ----------

  method UpdateDirEntry(vol: Volume, c: nat, off: nat, head: nat, size: nat)
    requires vol.Valid() && c in vol.store && off + 32 <= vol.b.BytesPerCluster()
    modifies vol`disk, vol`store
    ensures vol.Valid() && |vol.disk| == |old(vol.disk)|
    ensures |old(vol.store)[c]| == vol.b.BytesPerCluster()
    ensures vol.store == old(vol.store)[c := DirPatch(old(vol.store)[c], off, head, size)]
  {
    assert |vol.store[c]| == vol.b.BytesPerCluster() && 2 <= c;
    var cl := vol.ReadCluster(c);
    var ok := vol.WriteCluster(c, DirPatch(cl.value, off, head, size));
  }

  /** One iteration of the copying loop: read a cluster, overwrite part of it, write it back. */
  method WriteChunk(vol: Volume, s: seq<nat>, idx: nat, intra: nat, piece: seq<u8>, ghost pos: nat)
    requires vol.Valid() && Stored(vol.store, s) && Distinct(s) && idx < |s|
    requires intra + |piece| <= vol.b.BytesPerCluster() && pos == idx * vol.b.BytesPerCluster() + intra
    modifies vol`disk, vol`store
    ensures vol.Valid() && |vol.disk| == |old(vol.disk)| && vol.store.Keys == old(vol.store).Keys
    ensures pos + |piece| <= |old(Content(vol.store, s))|
    ensures Content(vol.store, s) == Splice(old(Content(vol.store, s)), pos, piece)
    ensures forall e | e in vol.store && e !in s :: vol.store[e] == old(vol.store)[e]
  {
    ContentUpdate(vol.store, s, vol.b.BytesPerCluster(), idx, intra, piece, pos);
    assert |vol.store[s[idx]]| == vol.b.BytesPerCluster() && 2 <= s[idx];
    var cl := vol.ReadCluster(s[idx]);
    var ok := vol.WriteCluster(s[idx], Splice(cl.value, intra, piece));
  }

  lemma WriteStep(was: seq<u8>, offset: nat, buf: seq<u8>, n: nat, m: nat)
    requires n <= m <= |buf| && offset + m <= |was|
    ensures Splice(Splice(was, offset, buf[..n]), offset + n, buf[n..m]) == Splice(was, offset, buf[..m])
    ensures Splice(was, offset, buf[..0]) == was
  {
  }

  /** The copying loop: `buf` goes into the clusters of `s` from byte `offset` on. */
  method WriteThrough(vol: Volume, s: seq<nat>, buf: seq<u8>, offset: nat) returns (n: nat)
    requires vol.Valid() && Stored(vol.store, s) && Distinct(s)
    modifies vol`disk, vol`store
    ensures vol.Valid() && |vol.disk| == |old(vol.disk)| && vol.store.Keys == old(vol.store).Keys
    ensures n <= |buf| && (n == |buf| || |s| * vol.b.BytesPerCluster() <= offset + n)
    ensures Overwritten(old(Content(vol.store, s)), offset, buf[..n], Content(vol.store, s))
    ensures forall e | e in vol.store && e !in s :: vol.store[e] == old(vol.store)[e]
  {
    var bpc := vol.b.BytesPerCluster();
    ghost var was := Content(vol.store, s);
    SplitOffset(offset, bpc);
    n := 0;
    var idx: nat, intra: nat := offset / bpc, offset % bpc;
    while n < |buf| && idx < |s|
      invariant vol.Valid() && |vol.disk| == |old(vol.disk)| && vol.store.Keys == old(vol.store).Keys
      invariant n <= |buf| && intra < bpc && (n < |buf| ==> idx * bpc + intra == offset + n)
      invariant Overwritten(was, offset, buf[..n], Content(vol.store, s))
      invariant forall e | e in vol.store && e !in s :: vol.store[e] == old(vol.store)[e]
    {
      var room := bpc - intra;
      var len := if room < |buf| - n then room else |buf| - n;
      WriteChunk(vol, s, idx, intra, buf[n..n + len], offset + n);
      WriteStep(was, offset, buf, n, n + len);
      MulStep(idx, bpc);
      n, idx, intra := n + len, idx + 1, 0;
    }
    if n < |buf| && idx > |s| {
      MulLess(|s|, idx, bpc);
    }
  }

  // ---------- an open file ----------

  class Fat32File {
    const vol: Volume
    var start: nat
    var size: nat
    const entryCluster: nat
    const entryOffset: nat
    /** The clusters of the file, in order. */
    ghost var chain: seq<nat>

    constructor (vol: Volume, start: nat, size: nat, entryCluster: nat, entryOffset: nat)
      ensures this.vol == vol && this.start == start && this.size == size
      ensures this.entryCluster == entryCluster && this.entryOffset == entryOffset
      ensures chain == if start == 0 then [] else Walk(vol.table, start, |vol.table|)
    {
      this.vol, this.start, this.size := vol, start, size;
      this.entryCluster, this.entryOffset := entryCluster, entryOffset;
      chain := if start == 0 then [] else Walk(vol.table, start, |vol.table|);
    }

    /** The directory entry sits in a live cluster of a mounted volume. */
    ghost predicate OnVolume()
      reads this, vol
    {
      && Mounted(vol) && Cluster(vol.table, entryCluster) && !Free(vol.table, entryCluster)
      && entryCluster in vol.store && |vol.store[entryCluster]| == vol.b.BytesPerCluster()
      && entryOffset + 32 <= vol.b.BytesPerCluster()
    }

    /** The handle holds the file's current head and size, as its directory entry records them. */
    ghost predicate Valid()
      reads this, vol
    {
      && OnVolume() && size < U32
      && FileChain(vol.table, chain) && start == HeadOf(chain) && entryCluster !in chain
      && DirHead(vol.store[entryCluster], entryOffset) == start
      && DirSize(vol.store[entryCluster], entryOffset) == size
    }

    /** Make room for `needed` clusters. */
    method Reserve(needed: nat) returns (grown: seq<nat>, ok: bool)
      requires Valid()
      modifies `start, `chain, vol
      ensures OnVolume() && |vol.disk| == |old(vol.disk)| && chain == grown && start == HeadOf(chain)
      ensures Grown(old(vol.table), old(vol.store), old(chain), vol.table, vol.store, grown, vol.b.BytesPerCluster())
      ensures ok ==> |grown| == Max(|old(chain)|, needed)
      ensures !ok ==> DeviceFull(vol.store, vol.table)
      ensures entryCluster !in grown && vol.store[entryCluster] == old(vol.store)[entryCluster]
    {
      var collected := CollectChain(vol, start, chain);
      grown, ok := GrowChain(vol, collected, needed);
      EntryKept(old(vol.table), old(vol.store), old(chain), vol.table, vol.store, grown, vol.b.BytesPerCluster(),
        entryCluster);
      if start == 0 && grown != [] {
        start := grown[0];
      }
      chain := grown;
    }

    /** Make room and copy the bytes; the directory entry is not touched yet. */
    method Fill(needed: nat, buf: seq<u8>, offset: nat) returns (n: nat, ok: bool)
      requires Valid()
      modifies `start, `chain, vol
      ensures OnVolume() && |vol.disk| == |old(vol.disk)| && start == HeadOf(chain)
      ensures entryCluster !in chain && vol.store[entryCluster] == old(vol.store)[entryCluster]
      ensures OthersUntouched(old(vol.table), old(vol.store), vol.table, vol.store, chain, entryCluster)
      ensures FileChain(vol.table, chain)
      ensures !ok ==> DeviceFull(vol.store, vol.table)
      ensures !ok ==> Grown(old(vol.table), old(vol.store), old(chain), vol.table, vol.store, chain,
                            vol.b.BytesPerCluster())
      ensures ok ==> n <= |buf| && (n == |buf| || |chain| * vol.b.BytesPerCluster() <= offset + n)
      ensures ok ==> |chain| == Max(|old(chain)|, needed)
      ensures ok ==> Wrote(old(vol.table), old(vol.store), old(chain), vol.table, vol.store, chain, entryCluster,
              offset, buf[..n], vol.b.BytesPerCluster())
    {
      ghost var t0, m0, s, bpc := vol.table, vol.store, chain, vol.b.BytesPerCluster();
      var grown;
      grown, ok := Reserve(needed);
      n := 0;
      if ok {
        assert Stored(vol.store, grown) && Distinct(grown) by {
          GrownData(t0, m0, s, vol.table, vol.store, grown, bpc);
        }
        ghost var m1 := vol.store;
        n := WriteThrough(vol, grown, buf, offset);
        GrownThenWritten(t0, m0, s, vol.table, m1, grown, vol.store, entryCluster, offset, buf[..n], bpc);
      } else {
        OthersAfter(t0, m0, s, vol.table, vol.store, grown, vol.store, entryCluster, bpc);
      }
    }

    /** Room for a file of `newSize` bytes is room for all of the buffer, below 32 bits. */
    method FillTo(newSize: nat, buf: seq<u8>, offset: nat) returns (n: nat, ok: bool)
      requires Valid() && AsU32(offset + |buf|) <= newSize
      modifies `start, `chain, vol
      ensures OnVolume() && |vol.disk| == |old(vol.disk)| && start == HeadOf(chain)
      ensures entryCluster !in chain && vol.store[entryCluster] == old(vol.store)[entryCluster]
      ensures OthersUntouched(old(vol.table), old(vol.store), vol.table, vol.store, chain, entryCluster)
      ensures FileChain(vol.table, chain)
      ensures !ok ==> DeviceFull(vol.store, vol.table)
      ensures !ok ==> Grown(old(vol.table), old(vol.store), old(chain), vol.table, vol.store, chain,
                            vol.b.BytesPerCluster())
      ensures ok ==> n <= |buf| && (offset + |buf| < U32 ==> n == |buf|)
      ensures ok ==> |chain| == Max(|old(chain)|, ClustersNeeded(newSize, vol.b.BytesPerCluster()))
      ensures ok ==> Wrote(old(vol.table), old(vol.store), old(chain), vol.table, vol.store, chain, entryCluster,
              offset, buf[..n], vol.b.BytesPerCluster())
    {
      var needed := ClustersNeeded(newSize, vol.b.BytesPerCluster());
      n, ok := Fill(needed, buf, offset);
      if ok {
        FullLength(offset, |buf|, n, newSize, needed, |chain|, vol.b.BytesPerCluster());
      }
    }

    /** Bring the directory entry up to date with the handle. */
    method Record(newSize: nat)
      requires OnVolume() && newSize < U32 && FileChain(vol.table, chain) && entryCluster !in chain
      requires start == HeadOf(chain)
      modifies `size, vol`disk, vol`store
      ensures Valid() && size == newSize && |vol.disk| == |old(vol.disk)|
      ensures vol.store ==
              old(vol.store)[entryCluster := DirPatch(old(vol.store)[entryCluster], entryOffset, start, newSize)]
    {
      DirRoundTrip(vol.store[entryCluster], entryOffset, start, newSize);
      UpdateDirEntry(vol, entryCluster, entryOffset, start, newSize);
      size := newSize;
    }

    /** The same for a file just written, which recording does not change. */
    method RecordWrite(newSize: nat, ghost t: Fat, ghost m: Store, ghost s: seq<nat>, ghost offset: nat,
                       ghost p: seq<u8>)
      requires OnVolume() && newSize < U32 && FileChain(vol.table, chain) && entryCluster !in chain
      requires start == HeadOf(chain)
      requires Wrote(t, m, s, vol.table, vol.store, chain, entryCluster, offset, p, vol.b.BytesPerCluster())
      modifies `size, vol`disk, vol`store
      ensures Valid() && size == newSize && |vol.disk| == |old(vol.disk)|
      ensures vol.store[entryCluster] == DirPatch(old(vol.store)[entryCluster], entryOffset, start, newSize)
      ensures Wrote(t, m, s, vol.table, vol.store, chain, entryCluster, offset, p, vol.b.BytesPerCluster())
    {
      ghost var m1 := vol.store;
      Record(newSize);
      WroteThenRecorded(t, m, s, vol.table, m1, chain, entryCluster, offset, p, vol.b.BytesPerCluster(),
        vol.store[entryCluster]);
    }

    /** Write `buf` at `offset`. The result is the number of bytes written, or None when no
        cluster could be found for them: then the chain may have grown by zeroed clusters, but
        no byte of the file or of its directory has changed. */
    method Write(buf: seq<u8>, offset: nat) returns (r: Option<nat>)
      requires Valid()
      modifies `start, `size, `chain, vol
      ensures OnVolume() && |vol.disk| == |old(vol.disk)|
      ensures r.None? ==> DeviceFull(vol.store, vol.table) && size == old(size) && start == HeadOf(chain)
      ensures r.None? ==> Grown(old(vol.table), old(vol.store), old(chain), vol.table, vol.store, chain,
                            vol.b.BytesPerCluster())
      ensures vol.store[entryCluster] ==
              if r.Some? && (size != old(size) || start != old(start))
              then DirPatch(old(vol.store)[entryCluster], entryOffset, start, size) else old(vol.store)[entryCluster]
      ensures OthersUntouched(old(vol.table), old(vol.store), vol.table, vol.store, chain, entryCluster)
      ensures FileChain(vol.table, chain)
      ensures r.Some? ==> Valid() && size == Max(old(size), AsU32(offset + |buf|))
      ensures r.Some? ==> EntryWords(vol.store[entryCluster], entryOffset, start, size)
      ensures r.Some? ==> r.value <= |buf| && (offset + |buf| < U32 ==> r.value == |buf|)
      ensures r.Some? ==> |chain| == Max(|old(chain)|, ClustersNeeded(size, vol.b.BytesPerCluster()))
      ensures r.Some? ==> Wrote(old(vol.table), old(vol.store), old(chain), vol.table, vol.store, chain,
              entryCluster, offset, buf[..r.value], vol.b.BytesPerCluster())
    {
      var newSize := Max(size, AsU32(offset + |buf|));
      var oldStart := start;
      ghost var t0, m0, s0 := vol.table, vol.store, chain;
      var n, ok := FillTo(newSize, buf, offset);
      if !ok {
        return None;
      }
      if newSize != size || start != oldStart {
        RecordWrite(newSize, t0, m0, s0, offset, buf[..n]);
      }
      DirWords(vol.store[entryCluster], entryOffset);
      r := Some(n);
    }
  }

  /** First cluster of a chain, 0 for the empty one. */
  function HeadOf(s: seq<nat>): nat {
    if s == [] then 0 else s[0]
  }

  method CollectChain(vol: Volume, start: nat, ghost s: seq<nat>) returns (r: seq<nat>)
    requires Mounted(vol) && FileChain(vol.table, s) && start == HeadOf(s)
    ensures r == s
  {
    r := [];
    if start != 0 {
      r := vol.CollectClusterChain(start);
      ChainUnique(vol.table, r, s);
    }
  }

  // ---------- truncating ----------

  /** The directory entry of a resized file. */
  method RecordResize(vol: Volume, dir: nat, off: nat, ghost s': seq<nat>, head: nat, size: nat,
                      ghost t: Fat, ghost m: Store, ghost s: seq<nat>)
    requires Mounted(vol) && dir in vol.store && off + 32 <= vol.b.BytesPerCluster() && dir !in s'
    requires Resized(t, m, s, vol.table, vol.store, s', dir, vol.b.BytesPerCluster())
    requires head < U32 && size < U32
    modifies vol`disk, vol`store
    ensures Mounted(vol) && |vol.disk| == |old(vol.disk)| && |old(vol.store)[dir]| == vol.b.BytesPerCluster()
    ensures vol.store == old(vol.store)[dir := DirPatch(old(vol.store)[dir], off, head, size)]
    ensures Resized(t, m, s, vol.table, vol.store, s', dir, vol.b.BytesPerCluster())
    ensures EntryWords(vol.store[dir], off, head, size)
  {
    ghost var m1 := vol.store;
    UpdateDirEntry(vol, dir, off, head, size);
    DirRoundTrip(m1[dir], off, head, size);
    DirWords(vol.store[dir], off);
    ResizedThenRecorded(t, m, s, vol.table, m1, s', dir, vol.b.BytesPerCluster(), vol.store[dir]);
  }

  /** The head that a directory entry records. */
  method ReadHead(vol: Volume, dir: nat, off: nat) returns (head: nat)
    requires vol.Valid() && dir in vol.store && off + 32 <= |vol.store[dir]|
    ensures head == DirHead(vol.store[dir], off)
    ensures EntryWords(vol.store[dir], off, head, DirSize(vol.store[dir], off))
  {
    var cl := vol.ReadCluster(dir);
    head := DirHead(cl.value, off);
    DirWords(cl.value, off);
  }

  /** The chain brought to the new length, and that recorded. */
  method ResizeAndRecord(vol: Volume, dir: nat, off: nat, newSize: nat, s: seq<nat>)
    returns (ok: bool, ghost s': seq<nat>)
    requires Mounted(vol) && FileChain(vol.table, s) && off + 32 <= vol.b.BytesPerCluster()
    requires Cluster(vol.table, dir) && !Free(vol.table, dir) && dir in vol.store && dir !in s
    modifies vol
    ensures Mounted(vol) && |vol.disk| == |old(vol.disk)| && FileChain(vol.table, s') && dir !in s'
    ensures !ok ==> DeviceFull(vol.store, vol.table) && s <= s'
    ensures ok ==> vol.b.BytesPerCluster() > 0 && |s'| == ClustersNeeded(newSize, vol.b.BytesPerCluster())
    ensures Resized(old(vol.table), old(vol.store), s, vol.table, vol.store, s', dir, vol.b.BytesPerCluster())
    ensures dir in vol.store && off + 32 <= |old(vol.store)[dir]|
    ensures vol.store[dir] ==
            if ok then DirPatch(old(vol.store)[dir], off, HeadOf(s'), AsU32(newSize)) else old(vol.store)[dir]
    ensures ok ==> EntryWords(vol.store[dir], off, HeadOf(s'), AsU32(newSize))
  {
    ghost var t0, m0 := vol.table, vol.store;
    assert |vol.store[dir]| == vol.b.BytesPerCluster();
    var needed := ClustersNeeded(newSize, vol.b.BytesPerCluster());
    var resized: seq<nat>;
    resized, ok := Resize(vol, s, needed, dir);
    s' := resized;
    if ok {
      HeadBound(vol.table, s');
      RecordResize(vol, dir, off, s', HeadOf(resized), AsU32(newSize), t0, m0, s);
    }
  }

  /**
   Resize the file whose directory entry sits at (`dirCluster`, `dirOffset`).
   `s` is its chain before and `s'` its chain after. When the device is full, the chain
   may have grown by zeroed clusters and the directory entry is as it was.
   */
  method TruncateOnDisk(vol: Volume, dirCluster: nat, dirOffset: nat, newSize: nat, ghost s: seq<nat>)
    returns (ok: bool, ghost s': seq<nat>)
    requires Mounted(vol) && Cluster(vol.table, dirCluster) && !Free(vol.table, dirCluster)
    requires dirCluster in vol.store && dirOffset + 32 <= |vol.store[dirCluster]|
    requires FileChain(vol.table, s) && DirHead(vol.store[dirCluster], dirOffset) == HeadOf(s) && dirCluster !in s
    modifies vol
    ensures Mounted(vol) && |vol.disk| == |old(vol.disk)| && FileChain(vol.table, s') && dirCluster !in s'
    ensures !ok ==> DeviceFull(vol.store, vol.table) && s <= s'
    ensures ok ==> vol.b.BytesPerCluster() > 0 && |s'| == ClustersNeeded(newSize, vol.b.BytesPerCluster())
    ensures Resized(old(vol.table), old(vol.store), s, vol.table, vol.store, s', dirCluster, vol.b.BytesPerCluster())
    ensures dirCluster in vol.store
    ensures vol.store[dirCluster] ==
            if ok then DirPatch(old(vol.store)[dirCluster], dirOffset, HeadOf(s'), AsU32(newSize))
            else old(vol.store)[dirCluster]
    ensures EntryWords(old(vol.store)[dirCluster], dirOffset, HeadOf(s), DirSize(old(vol.store)[dirCluster], dirOffset))
    ensures ok ==> EntryWords(vol.store[dirCluster], dirOffset, HeadOf(s'), AsU32(newSize))
  {
    var start := ReadHead(vol, dirCluster, dirOffset);
    var chain := CollectChain(vol, start, s);
    assert |vol.store[dirCluster]| == vol.b.BytesPerCluster();
    ok, s' := ResizeAndRecord(vol, dirCluster, dirOffset, newSize, chain);
  }

  // ---------- other files ----------

  /** A file: its chain and size, and the place of the directory entry that records them. */
  ghost predicate FileAt(t: Fat, m: Store, s: seq<nat>, size: nat, dir: nat, off: nat) {
    && FileChain(t, s) && Stored(m, s)
    && Cluster(t, dir) && !Free(t, dir) && dir in m && dir !in s
    && off + 32 <= |m[dir]| && DirHead(m[dir], off) == HeadOf(s) && DirSize(m[dir], off) == size
  }

  /** Two entries of 32 bytes that do not overlap. */
  predicate EntriesApart(dir: nat, off: nat, dir2: nat, off2: nat) {
    dir != dir2 || off + 32 <= off2 || off2 + 32 <= off
  }

  /** The directory cluster kept every byte outside one entry. */
  ghost predicate EntryOnly(was: seq<u8>, now: seq<u8>, off: nat) {
    |now| == |was| && forall i: nat | i < |was| && !(off <= i < off + 32) :: now[i] == was[i]
  }

  /** The clusters of `s` link to one another only. */
  ghost predicate SelfContained(t: Fat, s: seq<nat>) {
    forall c: nat {:trigger Next(t, c)} | c in s && Next(t, c).Some? :: Next(t, c).value in s
  }

  lemma ChainSelfContained(t: Fat, s: seq<nat>)
    requires FileChain(t, s)
    ensures SelfContained(t, s)
  {
    forall c: nat | c in s && Next(t, c).Some?
      ensures Next(t, c).value in s
    {
      var i :| 0 <= i < |s| && s[i] == c;
      if i < |s| - 1 {
        assert Next(t, s[i]) == Some(s[i + 1]);
      }
    }
  }

  /** Files with different heads share no cluster. */
  lemma FilesApart(t: Fat, s: seq<nat>, w: seq<nat>)
    requires WellFormed(t) && FileChain(t, s) && FileChain(t, w) && (s == [] || w == [] || s[0] != w[0])
    ensures forall i: nat | i < |w| :: w[i] !in s
  {
    forall i: nat, j: nat | i < |w| && j < |s|
      ensures s[j] != w[i]
    {
      HeadsDisjoint(t, s, w, j, i);
    }
  }

  /** What changes only the clusters of one file and its own directory entry leaves any other
      file as it was: chain, content, and what its directory entry says. */
  lemma OtherFileKept(t: Fat, m: Store, t': Fat, m': Store, s: seq<nat>, dir: nat, off: nat,
                      w: seq<nat>, size: nat, dir2: nat, off2: nat)
    requires OthersUntouched(t, m, t', m', s, dir) && SelfContained(t', s)
    requires dir in m && EntryOnly(m[dir], m'[dir], off)
    requires FileAt(t, m, w, size, dir2, off2) && EntriesApart(dir, off, dir2, off2)
    requires dir2 !in s && dir !in w && forall i: nat | i < |w| :: w[i] !in s
    ensures FileAt(t', m', w, size, dir2, off2) && Content(m', w) == Content(m, w)
  {
    ContentSame(m, m', w);
    if w != [] {
      forall i | 0 <= i < |w|
        ensures Next(t', w[i]) == Next(t, w[i])
      {
      }
      ChainSame(t, t', w);
      OtherHeadKept(t, t', s, w);
    }
    EntrySame(m[dir2], m'[dir2], if dir2 == dir then off else |m[dir2]|, off2);
  }

  lemma OtherHeadKept(t: Fat, t': Fat, s: seq<nat>, w: seq<nat>)
    requires w != [] && Head(t, w[0]) && w[0] !in s && SelfContained(t', s) && |t'| == |t|
    requires forall e: nat | Cluster(t, e) && e !in s :: (Free(t', e) <==> Free(t, e)) && Next(t', e) == Next(t, e)
    ensures Head(t', w[0])
  {
    forall c: nat | Cluster(t', c)
      ensures Next(t', c) != Some(w[0])
    {
      assert c in s || Next(t', c) == Next(t, c);
    }
  }

  lemma EntrySame(was: seq<u8>, now: seq<u8>, off: nat, off2: nat)
    requires off2 + 32 <= |was| && EntryOnly(was, now, off) && (off + 32 <= off2 || off2 + 32 <= off)
    ensures DirHead(now, off2) == DirHead(was, off2) && DirSize(now, off2) == DirSize(was, off2)
  {
  }

  /** A file grows into free clusters, so never into another file or its directory. */
  lemma GrownBeside(t: Fat, s: seq<nat>, s': seq<nat>, w: seq<nat>, dir2: nat)
    requires WellFormed(t) && NewlyTaken(t, s, s') && FileChain(t, w) && (forall i: nat | i < |w| :: w[i] !in s)
    requires Cluster(t, dir2) && !Free(t, dir2) && dir2 !in s
    ensures dir2 !in s' && forall i: nat | i < |w| :: w[i] !in s'
  {
    assert s' == s + s'[|s|..];
    forall i: nat, j: nat | i < |w| && j < |s'|
      ensures w[i] != s'[j]
    {
      ChainLive(t, w, i);
      if j < |s| {
        assert s'[j] == s[j];
      }
    }
  }

  /** Two open files of one volume that are different files. */
  ghost predicate Separate(f: Fat32File, g: Fat32File)
    reads f, g
  {
    && f.vol == g.vol
    && (f.chain == [] || g.chain == [] || f.chain[0] != g.chain[0])
    && EntriesApart(f.entryCluster, f.entryOffset, g.entryCluster, g.entryOffset)
    && g.entryCluster !in f.chain && f.entryCluster !in g.chain
  }

  /** Writing to one file, successfully or not, leaves another open file valid, with its content. */
  method WriteBeside(f: Fat32File, g: Fat32File, buf: seq<u8>, offset: nat) returns (r: Option<nat>)
    requires f.Valid() && g.Valid() && Separate(f, g)
    modifies f`start, f`size, f`chain, f.vol
    ensures g.Valid() && Stored(g.vol.store, g.chain) && Stored(old(g.vol.store), g.chain)
    ensures Content(g.vol.store, g.chain) == Content(old(g.vol.store), g.chain)
    ensures r.Some? ==> f.Valid() && Separate(f, g)
  {
    ghost var t, m, s := f.vol.table, f.vol.store, f.chain;
    FileChainStored(m, t, g.chain);
    r := f.Write(buf, offset);
    ghost var dir, off := f.entryCluster, f.entryOffset;
    DirRoundTrip(m[dir], off, f.start, f.size);
    WroteBeside(t, m, s, f.vol.table, f.vol.store, f.chain, dir, off, g.chain, g.size, g.entryCluster, g.entryOffset);
  }

  lemma WroteBeside(t: Fat, m: Store, s: seq<nat>, t': Fat, m': Store, s': seq<nat>, dir: nat, off: nat,
                    w: seq<nat>, size: nat, dir2: nat, off2: nat)
    requires WellFormed(t) && FileChain(t, s) && FileChain(t', s') && NewlyTaken(t, s, s')
    requires OthersUntouched(t, m, t', m', s', dir) && dir in m && EntryOnly(m[dir], m'[dir], off)
    requires FileAt(t, m, w, size, dir2, off2) && EntriesApart(dir, off, dir2, off2)
    requires (s == [] || w == [] || s[0] != w[0]) && dir2 !in s && dir !in w
    ensures FileAt(t', m', w, size, dir2, off2) && Content(m', w) == Content(m, w)
    ensures dir2 !in s' && (s' == [] || w == [] || s'[0] != w[0])
  {
    FilesApart(t, s, w);
    GrownBeside(t, s, s', w, dir2);
    ChainSelfContained(t', s');
    OtherFileKept(t, m, t', m', s', dir, off, w, size, dir2, off2);
  }

  /** So does truncating the file of another directory entry. */
  method TruncateBeside(vol: Volume, dirCluster: nat, dirOffset: nat, newSize: nat, ghost s: seq<nat>,
                        ghost size: nat, g: Fat32File)
    returns (ok: bool)
    requires g.Valid() && g.vol == vol && FileAt(vol.table, vol.store, s, size, dirCluster, dirOffset)
    requires (s == [] || g.chain == [] || s[0] != g.chain[0])
    requires EntriesApart(dirCluster, dirOffset, g.entryCluster, g.entryOffset)
    requires g.entryCluster !in s && dirCluster !in g.chain
    modifies vol
    ensures g.Valid() && Stored(g.vol.store, g.chain) && Stored(old(g.vol.store), g.chain)
    ensures Content(g.vol.store, g.chain) == Content(old(g.vol.store), g.chain)
  {
    ghost var t, m := vol.table, vol.store;
    FileChainStored(m, t, g.chain);
    ghost var s';
    ok, s' := TruncateOnDisk(vol, dirCluster, dirOffset, newSize, s);
    HeadBound(vol.table, s');
    DirRoundTrip(m[dirCluster], dirOffset, HeadOf(s'), AsU32(newSize));
    ResizedBeside(t, m, s, vol.table, vol.store, s', dirCluster, dirOffset, vol.b.BytesPerCluster(),
                  g.chain, g.size, g.entryCluster, g.entryOffset);
  }

  lemma ResizedBeside(t: Fat, m: Store, s: seq<nat>, t': Fat, m': Store, s': seq<nat>, dir: nat, off: nat, bpc: nat,
                      w: seq<nat>, size: nat, dir2: nat, off2: nat)
    requires WellFormed(t) && FileChain(t, s) && FileChain(t', s') && Resized(t, m, s, t', m', s', dir, bpc)
    requires dir in m && EntryOnly(m[dir], m'[dir], off)
    requires FileAt(t, m, w, size, dir2, off2) && EntriesApart(dir, off, dir2, off2)
    requires (s == [] || w == [] || s[0] != w[0]) && dir2 !in s && dir !in w
    ensures FileAt(t', m', w, size, dir2, off2) && Content(m', w) == Content(m, w)
  {
    FilesApart(t, s, w);
    ResizedSelfContained(t, m, s, t', m', s', dir, bpc);
    if |s'| >= |s| {
      GrownBeside(t, s, s', w, dir2);
    }
    OtherFileKept(t, m, t', m', if |s'| < |s| then s else s', dir, off, w, size, dir2, off2);
  }

  lemma HeadBound(t: Fat, s: seq<nat>)
    requires WellFormed(t) && FileChain(t, s)
    ensures HeadOf(s) < U32
  {
  }

  lemma ResizedSelfContained(t: Fat, m: Store, s: seq<nat>, t': Fat, m': Store, s': seq<nat>, dir: nat, bpc: nat)
    requires Resized(t, m, s, t', m', s', dir, bpc) && FileChain(t', s')
    requires (forall i: nat | i < |s| :: Cluster(t, s[i]))
    ensures SelfContained(t', if |s'| < |s| then s else s')
  {
    ChainSelfContained(t', s');
    if |s'| < |s| {
      assert s == s' + s[|s'|..];
    }
  }
}
