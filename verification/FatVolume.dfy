/**
 A mounted FAT32 volume: the device's bytes, and the operations that follow,
 allocate and free clusters. `table` and `store` are what the bytes mean: the
 allocation table that every copy holds, and the contents of every cluster the
 device has room for. A transfer fails exactly when it would pass the device's end.
 */
module FatVolume {
  import opened Options
  import opened Bytes
  import opened FatTable
  import opened FatLayout
  import opened FatContent

  /** The first `n` copies of the table on the device are `t`. */
  ghost predicate HoldsTable(b: Bpb, d: seq<u8>, t: Fat, n: nat)
    requires Fits(b, d) && n <= b.numFats
  {
    forall k: nat {:trigger FatOf(b, d, k)} | k < n :: FatOf(b, d, k) == t
  }

  /** `m` lists the clusters on the device, with their contents. */
  ghost predicate HoldsStore(b: Bpb, d: seq<u8>, m: Store) {
    && (forall c: nat {:trigger OnDevice(b, d, c)} :: OnDevice(b, d, c) <==> c in m)
    && (forall c: nat {:trigger ClusterOf(b, d, c)} | OnDevice(b, d, c) :: m[c] == ClusterOf(b, d, c))
  }

  ghost function StoreOf(b: Bpb, d: seq<u8>): (m: Store)
    requires b.sectorsPerCluster > 0
    ensures HoldsStore(b, d, m) && Uniform(m, b.BytesPerCluster())
  {
    assert forall c: nat {:trigger OnDevice(b, d, c)} | OnDevice(b, d, c) :: c < |d| + 2 by {
      forall c: nat | OnDevice(b, d, c) ensures c < |d| + 2 { DeviceBound(b, d, c); }
    }
    map c: nat | c < |d| + 2 && OnDevice(b, d, c) :: ClusterOf(b, d, c)
  }

  class Volume {
    const b: Bpb
    var disk: seq<u8>
    ghost var table: Fat
    ghost var store: Store
    /** The copies of the table that agree: all of them, if they did when the volume was
        mounted, or at least the first, which is the one that is read. */
    ghost const agreeing: nat

    constructor (b: Bpb, disk: seq<u8>)
      requires Fits(b, disk) && b.Entries() <= BAD_CLUSTER
      ensures Valid() && this.b == b && this.disk == disk
      ensures table == FatOf(b, disk, 0) && store == StoreOf(b, disk)
      ensures agreeing == if Mirrored(b, disk) then b.numFats else 1
    {
      this.b, this.disk := b, disk;
      table, store := FatOf(b, disk, 0), StoreOf(b, disk);
      agreeing := if Mirrored(b, disk) then b.numFats else 1;
    }

    /** Cluster numbers also stay below the end marks. */
    ghost predicate Valid()
      reads this
    {
      && Fits(b, disk) && |table| == b.Entries() <= BAD_CLUSTER && 1 <= agreeing <= b.numFats
      && HoldsTable(b, disk, table, agreeing) && HoldsStore(b, disk, store)
      && Uniform(store, b.BytesPerCluster())
    }

    method ReadSectors(sector: nat, count: nat) returns (r: Option<seq<u8>>)
      ensures r == if (sector + count) * 512 <= |disk| then Some(disk[sector * 512..(sector + count) * 512]) else None
    {
      if (sector + count) * 512 <= |disk| {
        r := Some(disk[sector * 512..(sector + count) * 512]);
      } else {
        r := None;
      }
    }

    method WriteSectors(sector: nat, count: nat, buf: seq<u8>) returns (ok: bool)
      requires |buf| == count * 512
      modifies `disk
      ensures ok <==> (sector + count) * 512 <= |old(disk)|
      ensures disk == if ok then Splice(old(disk), sector * 512, buf) else old(disk)
    {
      ok := (sector + count) * 512 <= |disk|;
      if ok {
        disk := Splice(disk, sector * 512, buf);
      }
    }

    method ReadCluster(c: nat) returns (r: Option<seq<u8>>)
      requires Valid() && 2 <= c
      ensures r == if c in store then Some(store[c]) else None
    {
      assert OnDevice(b, disk, c) <==> c in store;
      r := ReadSectors(b.ClusterToSector(c), b.sectorsPerCluster);
      if r.Some? {
        assert r.value == ClusterOf(b, disk, c);
      }
    }

    /** Replaces one cluster; no table copy and no other cluster changes. */
    method WriteCluster(c: nat, buf: seq<u8>) returns (ok: bool)
      requires Valid() && 2 <= c && |buf| == b.BytesPerCluster()
      modifies `disk, `store
      ensures Valid() && |disk| == |old(disk)| && (ok <==> c in old(store))
      ensures store == if ok then old(store)[c := buf] else old(store)
      ensures SameBoot(b, old(disk), disk)
    {
      ghost var d := disk;
      assert OnDevice(b, disk, c) <==> c in store;
      ok := WriteSectors(b.ClusterToSector(c), b.sectorsPerCluster, buf);
      if ok {
        store := store[c := buf];
        ClusterWritten(b, d, table, agreeing, old(store), c, buf);
      }
    }

    method FollowClusterChain(c: nat) returns (r: Option<nat>)
      ensures r == NextOnDisk(b, disk, c)
    {
      var sector, off := b.FatStart() + 4 * c / 512, 4 * c % 512;
      EntryPlace(c);
      var buf := ReadSectors(sector, 1);
      if buf.None? {
        return None;
      }
      Le32Slice(disk, sector * 512, (sector + 1) * 512, off);
      var entry := Unpack(Le32(buf.value, off)).low;
      if entry >= END_MIN {
        r := None;
      } else if entry < 2 {
        r := None;
      } else {
        r := Some(entry);
      }
    }

    lemma NextIs(c: nat)
      requires Valid() && c < |table|
      ensures NextOnDisk(b, disk, c) == Next(table, c)
    {
      NextAgrees(b, disk, c);
      assert FatOf(b, disk, 0) == table;
    }

    /** A sector of the first copy: 128 entries of the table. */
    method ReadFatSector(q: nat) returns (r: Option<seq<u8>>)
      requires Valid() && q < b.sectorsPerFat
      ensures r.Some? && |r.value| == 512 && 128 * q + 128 <= |table|
      ensures forall y: nat {:trigger Word(r.value, y)} | y < 128 :: Word(r.value, y) == table[128 * q + y]
    {
      r := ReadSectors(b.FatStart() + q, 1);
      assert FatOf(b, disk, 0) == table;
      SectorWords(b, disk, q, if r.Some? then r.value else [], table);
    }

    /** Sets the low 28 bits of entry `c` in every copy of the table, and nothing else. */
    method WriteFatEntry(c: nat, next: nat) returns (ok: bool)
      requires Valid() && c < |table|
      modifies `disk, `table
      ensures ok && Valid() && |disk| == |old(disk)|
      ensures table == Put(old(table), c, next % LOW28)
      ensures SameBoot(b, old(disk), disk)
    {
      EntryPlace(c);
      var q, off := 4 * c / 512, 4 * c % 512;
      var was := ReadFatSector(q);
      if was.None? {
        return false;
      }
      var entry := Le32(was.value, off) / LOW28 * LOW28 + next % LOW28;
      var buf := Splice(was.value, off, ToLe32(entry));
      PatchedSector(table, q, c % 128, was.value, buf, next);
      WriteAllCopies(q, buf, Put(table, c, next % LOW28));
      ok := true;
    }

    /** The mirroring loop: the same sector into every copy. */
    method WriteAllCopies(q: nat, buf: seq<u8>, ghost u: Fat)
      requires Valid() && q < b.sectorsPerFat && |buf| == 512 && |u| == |table|
      requires forall e: nat | e < |u| && (e < 128 * q || 128 * q + 128 <= e) :: u[e] == table[e]
      requires forall x: nat | x < 128 :: Word(buf, x) == u[128 * q + x]
      modifies `disk, `table
      ensures Valid() && |disk| == |old(disk)| && table == u
      ensures SameBoot(b, old(disk), disk)
    {
      ghost var d0, t := disk, table;
      var k := 0;
      while k < b.numFats
        invariant k <= b.numFats && Fits(b, disk) && CopiesWritten(b, disk, k, t, u, agreeing)
        invariant SameAround(b, d0, disk)
      {
        WriteCopy(k, q, buf, d0, t, u);
        k := k + 1;
      }
      table := u;
      AllCopiesWritten(b, d0, disk, t, u, agreeing, store);
    }

    method WriteCopy(k: nat, q: nat, buf: seq<u8>, ghost d0: seq<u8>, ghost t: Fat, ghost u: Fat)
      requires Fits(b, disk) && k < b.numFats && q < b.sectorsPerFat && |buf| == 512 && |u| == |t| == b.Entries()
      requires agreeing <= b.numFats && CopiesWritten(b, disk, k, t, u, agreeing) && SameAround(b, d0, disk)
      requires forall e: nat | e < |t| && (e < 128 * q || 128 * q + 128 <= e) :: u[e] == t[e]
      requires forall x: nat | x < 128 :: Word(buf, x) == u[128 * q + x]
      modifies `disk
      ensures Fits(b, disk) && CopiesWritten(b, disk, k + 1, t, u, agreeing) && SameAround(b, d0, disk)
    {
      SectorInside(b, disk, k, q);
      CopyWritten(b, d0, disk, k, q, buf, t, u, agreeing);
      var ok := WriteSectors(b.FatStart() + q + k * b.sectorsPerFat, 1, buf);
    }

    /** At most `max` clusters of the chain starting at `start`. */
    method CollectClusterChainLimited(start: nat, max: nat) returns (chain: seq<nat>)
      ensures chain == WalkOnDisk(b, disk, start, max)
    {
      chain := [];
      ghost var whole := WalkOnDisk(b, disk, start, max);
      var cluster, i := start, 0;
      while i < max
        invariant i <= max && whole == chain + WalkOnDisk(b, disk, cluster, max - i)
      {
        ghost var before := chain;
        chain := chain + [cluster];
        var next := FollowClusterChain(cluster);
        WalkUnroll(b, disk, before, cluster, next, max - i);
        if next.None? {
          return;
        }
        cluster := next.value;
        i := i + 1;
      }
    }

    /** The whole chain: on a well-formed table complete and without repetition,
        on any device contents at all no longer than the table. */
    method CollectClusterChain(start: nat) returns (chain: seq<nat>)
      requires b.Sound()
      ensures |chain| <= b.Entries()
      ensures Valid() && WellFormed(table) && Cluster(table, start) && !Bad(table, start) ==>
                IsChain(table, chain) && Distinct(chain) && chain[0] == start
    {
      var maxClusters := b.sectorsPerFat * 512 / 4;
      var limit := if maxClusters > 0 then maxClusters else 1_048_576;
      chain := CollectClusterChainLimited(start, limit);
      WalkLength(b, disk, start, limit);
      if Valid() && WellFormed(table) && Cluster(table, start) && !Bad(table, start) {
        assert FatOf(b, disk, 0) == table;
        CompleteWalk(b, disk, table, start);
      }
    }

    /** The lowest-numbered free cluster of the table. */
    method FindFreeCluster() returns (r: Option<nat>)
      requires Valid()
      ensures r == LowestFree(table, 2)
    {
      assert FatOf(b, disk, 0) == table;
      var maxClusters := b.sectorsPerFat * 512 / 4;
      var q := 0;
      while q < b.sectorsPerFat
        invariant q <= b.sectorsPerFat && forall c: nat | 2 <= c < 128 * q :: !Free(table, c)
      {
        var buf := ReadSectors(b.FatStart() + q, 1);
        SectorWords(b, disk, q, if buf.Some? then buf.value else [], table);
        if buf.Some? {
          var x := 0;
          while x < 128
            invariant x <= 128 && forall c: nat | 2 <= c < 128 * q + x :: !Free(table, c)
          {
            var cluster := (q * 512 + 4 * x) / 4;
            assert cluster == 128 * q + x && Word(buf.value, x) == table[128 * q + x];
            if 2 <= cluster < maxClusters && Unpack(Le32(buf.value, 4 * x)).low == 0 {
              LowestFreeIs(table, 2, cluster);
              return Some(cluster);
            }
            x := x + 1;
          }
        }
        q := q + 1;
      }
      r := None;
    }

    /** Takes the lowest free cluster, links it after `prev` and zeroes it. If its
        sectors lie past the device's end, the two entries are written back. */
    method AllocateCluster(prev: Option<nat>) returns (r: Option<nat>)
      requires Valid() && (prev.Some? ==> prev.value < |table|)
      modifies `disk, `table, `store
      ensures Valid() && |disk| == |old(disk)|
      ensures var c := LowestFree(old(table), 2);
              && r == (if c.Some? && c.value in old(store) then c else None)
              && table == Taken(old(table), prev, r.Some?)
      ensures r.Some? ==> Cluster(old(table), r.value) && table == Allocated(old(table), r.value, prev)
      ensures store == if r.Some? then old(store)[r.value := Zeros(b.BytesPerCluster())] else old(store)
      ensures |table| == |old(table)| && forall c: nat | c < |table| :: table[c].top == old(table)[c].top
      ensures WellFormed(old(table)) && (prev.Some? ==> Tail(old(table), prev.value)) ==>
                WellFormed(table) && (r.None? ==> SameLinks(old(table), table))
    {
      ghost var t := table;
      if WellFormed(t) && (prev.Some? ==> Tail(t, prev.value)) {
        TakenWellFormed(t, prev);
      }
      r := FindFreeCluster();
      if r.None? {
        return;
      }
      var c := r.value;
      Link(c, prev);
      var ok := WriteCluster(c, Zeros(b.BytesPerCluster()));
      if !ok {
        Unlink(c, prev);
        return None;
      }
    }

    method Link(c: nat, prev: Option<nat>)
      requires Valid() && Cluster(table, c) && (prev.Some? ==> prev.value < |table|)
      modifies `disk, `table
      ensures Valid() && |disk| == |old(disk)| && table == Allocated(old(table), c, prev)
    {
      var ok := WriteFatEntry(c, END_OF_CHAIN);
      if prev.Some? {
        ok := WriteFatEntry(prev.value, c);
      }
    }

    method Unlink(c: nat, prev: Option<nat>)
      requires Valid() && Cluster(table, c) && (prev.Some? ==> prev.value < |table|)
      modifies `disk, `table
      ensures Valid() && |disk| == |old(disk)|
      ensures table == Put(if prev.Some? then Put(old(table), prev.value, END_OF_CHAIN) else old(table), c, 0)
    {
      if prev.Some? {
        var ok := WriteFatEntry(prev.value, END_OF_CHAIN);
      }
      var ok := WriteFatEntry(c, 0);
    }

    /** Clears the entries of the chain starting at `start`. */
    method FreeClusterChain(start: nat) returns (ok: bool)
      requires Valid() && WellFormed(table) && start < |table| && !Bad(table, start)
      modifies `disk, `table
      ensures ok && Valid() && |disk| == |old(disk)|
      ensures start < 2 ==> table == old(table)
      ensures start >= 2 ==> var s := Walk(old(table), start, |old(table)|);
                             IsChain(old(table), s) && table == Cleared(old(table), s)
    {
      if start < 2 {
        return true;
      }
      WalkIsComplete(table, start);
      FreeChain(start, Walk(table, start, |table|));
      ok := true;
    }

    /** The freeing loop, over the chain `s`. */
    method FreeChain(start: nat, ghost s: seq<nat>)
      requires Valid() && IsChain(table, s) && Distinct(s) && s[0] == start && |s| <= |table|
      modifies `disk, `table
      ensures Valid() && |disk| == |old(disk)| && table == Cleared(old(table), s)
    {
      ghost var t := table;
      var maxClusters := b.sectorsPerFat * 512 / 4;
      var limit := if maxClusters > 0 then maxClusters else 1_048_576;
      var cluster, i := start, 0;
      while i < limit
        invariant i < |s| && cluster == s[i] && Valid() && |disk| == |old(disk)| && table == Cleared(t, s[..i])
      {
        FreeStep(t, s, i);
        NextIs(cluster);
        var next := FollowClusterChain(cluster);
        var ok := WriteFatEntry(cluster, 0);
        if next.None? {
          assert s[..i + 1] == s;
          return;
        }
        cluster := next.value;
        i := i + 1;
      }
      assert false;
    }
  }

  lemma CompleteWalk(b: Bpb, d: seq<u8>, t: Fat, c: nat)
    requires Fits(b, d) && FatOf(b, d, 0) == t && WellFormed(t) && Cluster(t, c) && !Bad(t, c)
    ensures var s := WalkOnDisk(b, d, c, |t|); IsChain(t, s) && Distinct(s) && s[0] == c
  {
    WalkAgrees(b, d, c, |t|);
    WalkIsComplete(t, c);
  }

  /** Of the first `n` copies, `k` hold `u` and the others still `t`. */
  ghost predicate CopiesWritten(b: Bpb, d: seq<u8>, k: nat, t: Fat, u: Fat, n: nat)
    requires Fits(b, d) && n <= b.numFats
  {
    forall j: nat {:trigger FatOf(b, d, j)} | j < n :: FatOf(b, d, j) == if j < k then u else t
  }

  /** Nothing before the table copies differs. */
  ghost predicate SameBoot(b: Bpb, d: seq<u8>, d': seq<u8>) {
    |d'| == |d| && forall i: nat | i < |d| && i < b.FatStart() * 512 :: d'[i] == d[i]
  }

  /** Nothing before and nothing after the table copies differs. */
  ghost predicate SameAround(b: Bpb, d: seq<u8>, d': seq<u8>) {
    |d'| == |d| && forall i: nat | i < |d| && (i < b.FatStart() * 512 || b.DataStart() * 512 <= i) :: d'[i] == d[i]
  }

  /** One turn of the mirroring loop. */
  lemma CopyWritten(b: Bpb, d0: seq<u8>, d: seq<u8>, k: nat, q: nat, buf: seq<u8>, t: Fat, u: Fat, n: nat)
    requires Fits(b, d) && k < b.numFats && q < b.sectorsPerFat && |buf| == 512 && |u| == |t| == b.Entries()
    requires n <= b.numFats && CopiesWritten(b, d, k, t, u, n) && SameAround(b, d0, d)
    requires forall e: nat | e < |t| && (e < 128 * q || 128 * q + 128 <= e) :: u[e] == t[e]
    requires forall x: nat | x < 128 :: Word(buf, x) == u[128 * q + x]
    ensures b.CopyBase(k) + 512 * q + 512 <= |d|
    ensures var d' := Splice(d, b.CopyBase(k) + 512 * q, buf);
            Fits(b, d') && CopiesWritten(b, d', k + 1, t, u, n) && SameAround(b, d0, d')
  {
    SectorInside(b, d, k, q);
    var d' := Splice(d, b.CopyBase(k) + 512 * q, buf);
    forall j: nat | j < n
      ensures FatOf(b, d', j) == if j < k + 1 then u else t
    {
      if j == k {
        assert FatOf(b, d, k) == t;
        SectorWrite(b, d, k, q, buf, t, u);
      } else {
        if j < k { CopiesApart(b, j, k); } else { CopiesApart(b, k, j); }
        FatSame(b, d, d', j);
      }
    }
  }

  lemma AllCopiesWritten(b: Bpb, d0: seq<u8>, d: seq<u8>, t: Fat, u: Fat, n: nat, m: Store)
    requires Fits(b, d) && n <= b.numFats && CopiesWritten(b, d, b.numFats, t, u, n) && SameAround(b, d0, d)
    requires HoldsStore(b, d0, m)
    ensures HoldsTable(b, d, u, n) && HoldsStore(b, d, m)
    ensures SameBoot(b, d0, d)
  {
    StoreKept(b, d0, d, m);
  }

  /** Bytes past the tables kept: clusters kept. */
  lemma StoreKept(b: Bpb, d: seq<u8>, d': seq<u8>, m: Store)
    requires HoldsStore(b, d, m) && |d'| == |d|
    requires forall i: nat | b.DataStart() * 512 <= i < |d| :: d'[i] == d[i]
    ensures HoldsStore(b, d', m)
  {
    forall c: nat | OnDevice(b, d', c)
      ensures c in m && m[c] == ClusterOf(b, d', c)
    {
      assert OnDevice(b, d, c);
      ClusterSame(b, d, d', c);
    }
    forall c: nat ensures OnDevice(b, d', c) <==> c in m {
      assert OnDevice(b, d', c) <==> OnDevice(b, d, c);
    }
  }

  lemma ClusterWritten(b: Bpb, d: seq<u8>, t: Fat, n: nat, m: Store, c: nat, buf: seq<u8>)
    requires Fits(b, d) && n <= b.numFats && HoldsTable(b, d, t, n) && HoldsStore(b, d, m) && OnDevice(b, d, c)
    requires |buf| == b.BytesPerCluster()
    ensures b.ClusterToSector(c) * 512 + |buf| <= |d|
    ensures var d' := Splice(d, b.ClusterToSector(c) * 512, buf);
            && Fits(b, d') && HoldsTable(b, d', t, n) && HoldsStore(b, d', m[c := buf])
            && SameBoot(b, d, d')
  {
    ClusterWrite(b, d, c, buf);
    ClusterPlace(b, d, c);
    var d' := Splice(d, b.ClusterToSector(c) * 512, buf);
    forall k: nat | k < n ensures FatOf(b, d', k) == t {
      assert FatOf(b, d, k) == t;
    }
    forall e: nat | OnDevice(b, d', e)
      ensures e in m[c := buf] && m[c := buf][e] == ClusterOf(b, d', e)
    {
      assert OnDevice(b, d, e);
      if e != c {
        OtherCluster(b, d, d', c, e);
        assert m[e] == ClusterOf(b, d, e);
      }
    }
    forall e: nat ensures OnDevice(b, d', e) <==> e in m[c := buf] {
      assert OnDevice(b, d', e) <==> OnDevice(b, d, e);
    }
  }

  /** Lower-numbered clusters come first on the device. */
  lemma StoreDownwardClosed(vol: Volume, c: nat, e: nat)
    requires vol.Valid() && 2 <= c <= e && e in vol.store
    ensures c in vol.store
  {
    assert OnDevice(vol.b, vol.disk, e) <==> e in vol.store;
    if c < e {
      MulGap(c - 2, e - 2, vol.b.sectorsPerCluster);
    }
    assert OnDevice(vol.b, vol.disk, c);
  }

  lemma FreeStep(t: Fat, s: seq<nat>, i: nat)
    requires IsChain(t, s) && Distinct(s) && i < |s|
    ensures Next(Cleared(t, s[..i]), s[i]) == Next(t, s[i])
    ensures Next(t, s[i]) == if i < |s| - 1 then Some(s[i + 1]) else None
    ensures Put(Cleared(t, s[..i]), s[i], 0) == Cleared(t, s[..i + 1])
  {
    ClearedEntries(t, s[..i]);
    assert s[..i + 1][..i] == s[..i];
    assert s[i] !in s[..i];
  }

  lemma TakenWellFormed(t: Fat, prev: Option<nat>)
    requires WellFormed(t) && (prev.Some? ==> Tail(t, prev.value))
    ensures WellFormed(Taken(t, prev, true)) && WellFormed(Taken(t, prev, false)) && SameLinks(t, Taken(t, prev, false))
  {
    TakenKeepsWellFormed(t, prev, true);
    TakenKeepsWellFormed(t, prev, false);
    var c := LowestFree(t, 2);
    if c.Some? {
      RollBackKeepsWellFormed(t, c.value, prev);
    }
  }
}
