/**
 The layout of a FAT32 volume on a device with 512-byte sectors: where the
 parameter block puts the copies of the table and the clusters, and what writing
 one sector or one cluster changes.
 */
module FatLayout {
  import opened Options
  import opened Bytes
  import opened FatTable

  /** The fields of the BIOS parameter block the driver uses, as `mount_fat32` accepts them. */
  datatype Bpb = Bpb(partitionStart: nat, reserved: nat, numFats: nat, sectorsPerFat: nat, sectorsPerCluster: nat) {
    predicate Sound() {
      numFats > 0 && sectorsPerFat > 0 && sectorsPerCluster > 0
    }

    function FatStart(): nat {
      partitionStart + reserved
    }

    function DataStart(): nat {
      FatStart() + numFats * sectorsPerFat
    }

    function ClusterToSector(c: nat): nat
      requires 2 <= c
    {
      DataStart() + (c - 2) * sectorsPerCluster
    }

    function BytesPerCluster(): nat {
      sectorsPerCluster * 512
    }

    /** Entries per copy of the table, at four bytes each. */
    function Entries(): nat {
      sectorsPerFat * 128
    }

    /** First byte of copy `k` of the table. */
    function CopyBase(k: nat): nat {
      (FatStart() + k * sectorsPerFat) * 512
    }
  }

  lemma MulGap(a: nat, b: nat, s: nat)
    requires a < b
    ensures a * s + s <= b * s
  {
    assert (b - a - 1) * s >= 0;
    assert b * s == a * s + s + (b - a - 1) * s;
  }

  // ---------- reading the volume's bytes ----------

  ghost predicate Fits(b: Bpb, d: seq<u8>) {
    b.Sound() && b.DataStart() * 512 <= |d| && |d| % 512 == 0
  }

  lemma CopyInside(b: Bpb, d: seq<u8>, k: nat)
    requires Fits(b, d) && k < b.numFats
    ensures b.FatStart() * 512 <= b.CopyBase(k) && b.CopyBase(k) + 4 * b.Entries() <= b.DataStart() * 512
  {
    MulGap(k, b.numFats, b.sectorsPerFat);
    assert b.FatStart() + k * b.sectorsPerFat + b.sectorsPerFat <= b.DataStart();
  }

  lemma CopiesApart(b: Bpb, j: nat, k: nat)
    requires j < k
    ensures b.CopyBase(j) + 4 * b.Entries() <= b.CopyBase(k)
  {
    MulGap(j, k, b.sectorsPerFat);
  }

  function Unpack(v: nat): Cell {
    Cell(v / LOW28, v % LOW28)
  }

  /** The low 28 bits count, the four above them are kept aside. */
  lemma UnpackExact(v: nat)
    ensures Unpack(v).low < 0x1000_0000 && v == Unpack(v).top * 0x1000_0000 + Unpack(v).low
  {
  }

  /** The table copies follow the reserved sectors one after another, and the clusters, from number
      2 on, follow the last copy. */
  lemma LayoutFollows(b: Bpb, k: nat, c: nat)
    requires 2 <= c
    ensures b.CopyBase(0) == (b.partitionStart + b.reserved) * 512
    ensures b.CopyBase(k + 1) == b.CopyBase(k) + b.sectorsPerFat * 512
    ensures b.ClusterToSector(2) * 512 == b.CopyBase(b.numFats)
    ensures b.ClusterToSector(c + 1) == b.ClusterToSector(c) + b.sectorsPerCluster
    ensures b.BytesPerCluster() == b.sectorsPerCluster * 512 && 4 * b.Entries() == b.sectorsPerFat * 512
  {
    NextMultiple(k, b.sectorsPerFat);
    NextMultiple(c - 2, b.sectorsPerCluster);
  }

  lemma NextMultiple(k: nat, n: nat)
    ensures (k + 1) * n == k * n + n
  {
  }

  /** Copy `k` of the table. */
  ghost function FatOf(b: Bpb, d: seq<u8>, k: nat): (t: Fat)
    requires Fits(b, d) && k < b.numFats
    ensures |t| == b.Entries()
  {
    CopyInside(b, d, k);
    seq(b.Entries(), c requires 0 <= c < b.Entries() => Unpack(Le32(d, b.CopyBase(k) + 4 * c)))
  }

  ghost predicate Mirrored(b: Bpb, d: seq<u8>)
    requires Fits(b, d)
  {
    forall k: nat | k < b.numFats :: FatOf(b, d, k) == FatOf(b, d, 0)
  }

  /** The clusters that the device actually holds. */
  predicate OnDevice(b: Bpb, d: seq<u8>, c: nat) {
    2 <= c && (b.ClusterToSector(c) + b.sectorsPerCluster) * 512 <= |d|
  }

  function ClusterOf(b: Bpb, d: seq<u8>, c: nat): (r: seq<u8>)
    requires OnDevice(b, d, c)
    ensures |r| == b.BytesPerCluster()
  {
    d[b.ClusterToSector(c) * 512..(b.ClusterToSector(c) + b.sectorsPerCluster) * 512]
  }

  // Entry c is word c % 128 of sector c / 128 of each copy; the driver computes
  // the same as 4c / 512 and 4c % 512.

  lemma EntryPlace(c: nat)
    ensures 4 * c / 512 == c / 128 && 4 * c % 512 == 4 * (c % 128)
  {
  }

  function Word(buf: seq<u8>, x: nat): Cell
    requires |buf| == 512 && x < 128
  {
    Unpack(Le32(buf, 4 * x))
  }

  lemma EntryOf(b: Bpb, d: seq<u8>, k: nat, e: nat)
    requires Fits(b, d) && k < b.numFats && e < b.Entries()
    ensures b.CopyBase(k) + 4 * e + 4 <= |d| && FatOf(b, d, k)[e] == Unpack(Le32(d, b.CopyBase(k) + 4 * e))
  {
    CopyInside(b, d, k);
  }

  lemma WordInSector(d: seq<u8>, base: nat, q: nat, buf: seq<u8>, e: nat)
    requires |buf| == 512 && base + 512 * q + 512 <= |d| && base + 4 * e + 4 <= |d|
    ensures Le32(Splice(d, base + 512 * q, buf), base + 4 * e) ==
            if 128 * q <= e < 128 * q + 128 then Le32(buf, 4 * (e - 128 * q)) else Le32(d, base + 4 * e)
  {
    Le32Splice(d, base + 512 * q, buf, base + 4 * e);
  }

  lemma SectorWriteEntry(b: Bpb, d: seq<u8>, k: nat, q: nat, buf: seq<u8>, e: nat)
    requires Fits(b, d) && k < b.numFats && q < b.sectorsPerFat && |buf| == 512 && e < b.Entries()
    requires b.CopyBase(k) + 512 * q + 512 <= |d| && Fits(b, Splice(d, b.CopyBase(k) + 512 * q, buf))
    ensures FatOf(b, Splice(d, b.CopyBase(k) + 512 * q, buf), k)[e] ==
            if 128 * q <= e < 128 * q + 128 then Word(buf, e - 128 * q) else FatOf(b, d, k)[e]
  {
    EntryOf(b, d, k, e);
    EntryOf(b, Splice(d, b.CopyBase(k) + 512 * q, buf), k, e);
    WordInSector(d, b.CopyBase(k), q, buf, e);
  }

  lemma SectorInside(b: Bpb, d: seq<u8>, k: nat, q: nat)
    requires Fits(b, d) && k < b.numFats && q < b.sectorsPerFat
    ensures b.FatStart() * 512 <= b.CopyBase(k)
    ensures b.CopyBase(k) + 512 * q + 512 <= b.CopyBase(k) + 4 * b.Entries() <= b.DataStart() * 512 <= |d|
    ensures (b.FatStart() + q + k * b.sectorsPerFat) * 512 == b.CopyBase(k) + 512 * q
  {
    CopyInside(b, d, k);
  }

  /** Writing `buf` over sector `q` of copy `k`. */
  lemma SectorWrite(b: Bpb, d: seq<u8>, k: nat, q: nat, buf: seq<u8>, t: Fat, u: Fat)
    requires Fits(b, d) && k < b.numFats && q < b.sectorsPerFat && |buf| == 512
    requires b.CopyBase(k) + 512 * q + 512 <= |d|
    requires FatOf(b, d, k) == t && |u| == |t|
    requires forall e: nat | e < |t| && (e < 128 * q || 128 * q + 128 <= e) :: u[e] == t[e]
    requires forall x: nat | x < 128 :: Word(buf, x) == u[128 * q + x]
    ensures Fits(b, Splice(d, b.CopyBase(k) + 512 * q, buf))
    ensures FatOf(b, Splice(d, b.CopyBase(k) + 512 * q, buf), k) == u
  {
    var v := FatOf(b, Splice(d, b.CopyBase(k) + 512 * q, buf), k);
    forall e: nat | e < |u|
      ensures v[e] == u[e]
    {
      SectorWriteEntry(b, d, k, q, buf, e);
      if 128 * q <= e < 128 * q + 128 {
        assert Word(buf, e - 128 * q) == u[128 * q + (e - 128 * q)];
      }
    }
  }

  /** The words of a sector of the first copy are entries of the table. */
  lemma SectorWords(b: Bpb, d: seq<u8>, q: nat, buf: seq<u8>, t: Fat)
    requires Fits(b, d) && q < b.sectorsPerFat && t == FatOf(b, d, 0)
    requires (b.FatStart() + q) * 512 + 512 <= |d| ==>
            buf == d[(b.FatStart() + q) * 512..(b.FatStart() + q) * 512 + 512]
    ensures (b.FatStart() + q) * 512 + 512 <= |d| && |buf| == 512
    ensures forall x: nat | x < 128 :: Word(buf, x) == t[128 * q + x]
  {
    CopyInside(b, d, 0);
    var at := (b.FatStart() + q) * 512;
    forall x: nat | x < 128
      ensures Word(buf, x) == t[128 * q + x]
    {
      EntryOf(b, d, 0, 128 * q + x);
      Le32Slice(d, at, at + 512, 4 * x);
    }
  }

  lemma Merge(w: nat, next: nat, v: nat)
    requires w < 0x1_0000_0000 && v == w / LOW28 * LOW28 + next % LOW28
    ensures v < 0x1_0000_0000 && Unpack(v) == Cell(w / LOW28, next % LOW28)
  {
  }

  lemma PatchedBytes(was: seq<u8>, x: nat, piece: seq<u8>, y: nat)
    requires |was| == 512 && x < 128 && y < 128 && |piece| == 4
    ensures Le32(Splice(was, 4 * x, piece), 4 * y) == if y == x then Le32(piece, 0) else Le32(was, 4 * y)
  {
    Le32Splice(was, 4 * x, piece, 4 * y);
  }

  lemma PatchedWord(was: seq<u8>, x: nat, v: nat, y: nat)
    requires |was| == 512 && x < 128 && y < 128 && v < 0x1_0000_0000
    ensures Word(Splice(was, 4 * x, ToLe32(v)), y) == if y == x then Unpack(v) else Word(was, y)
  {
    var piece := ToLe32(v);
    assert Le32(piece, 0) == v;
    PatchedBytes(was, x, piece, y);
  }

  /** The sector buffer the driver writes back, seen word by word. */
  lemma PatchedSector(t: Fat, q: nat, x: nat, was: seq<u8>, buf: seq<u8>, next: nat)
    requires |was| == 512 && x < 128 && 128 * q + 128 <= |t|
    requires forall y: nat | y < 128 :: Word(was, y) == t[128 * q + y]
    requires buf == Splice(was, 4 * x, ToLe32(Le32(was, 4 * x) / LOW28 * LOW28 + next % LOW28))
    ensures forall y: nat | y < 128 :: Word(buf, y) == Put(t, 128 * q + x, next % LOW28)[128 * q + y]
  {
    var u := Put(t, 128 * q + x, next % LOW28);
    var v := Le32(was, 4 * x) / LOW28 * LOW28 + next % LOW28;
    Le32Bound(was, 4 * x);
    Merge(Le32(was, 4 * x), next, v);
    assert Word(was, x) == t[128 * q + x];
    forall y: nat | y < 128
      ensures Word(buf, y) == u[128 * q + y]
    {
      PatchedWord(was, x, v, y);
      assert Word(was, y) == t[128 * q + y];
    }
  }

  /** A table copy depends only on its own bytes. */
  lemma FatSame(b: Bpb, d: seq<u8>, d': seq<u8>, k: nat)
    requires Fits(b, d) && |d'| == |d| && k < b.numFats
    requires forall i: nat | b.CopyBase(k) <= i < b.CopyBase(k) + 4 * b.Entries() && i < |d| :: d'[i] == d[i]
    ensures Fits(b, d') && FatOf(b, d', k) == FatOf(b, d, k)
  {
    CopyInside(b, d, k);
    forall e: nat | e < b.Entries()
      ensures FatOf(b, d', k)[e] == FatOf(b, d, k)[e]
    {
    }
  }

  /** The lookup as the driver does it, for any cluster number and any device contents. */
  function NextOnDisk(b: Bpb, d: seq<u8>, c: nat): Option<nat> {
    var sector := b.FatStart() + 4 * c / 512;
    if (sector + 1) * 512 > |d| then None else Decode(Unpack(Le32(d, sector * 512 + 4 * c % 512)).low)
  }

  function WalkOnDisk(b: Bpb, d: seq<u8>, c: nat, fuel: nat): seq<nat>
    decreases fuel
  {
    if fuel == 0 then []
    else match NextOnDisk(b, d, c)
      case None => [c]
      case Some(e) => [c] + WalkOnDisk(b, d, e, fuel - 1)
  }

  lemma WalkUnroll(b: Bpb, d: seq<u8>, before: seq<nat>, c: nat, next: Option<nat>, fuel: nat)
    requires fuel > 0 && next == NextOnDisk(b, d, c)
    ensures before + WalkOnDisk(b, d, c, fuel) == if next.None? then before + [c]
            else (before + [c]) + WalkOnDisk(b, d, next.value, fuel - 1)
  {
  }

  lemma EntryBytes(b: Bpb, d: seq<u8>, c: nat, sector: nat, off: nat)
    requires Fits(b, d) && c < b.Entries() && sector == b.FatStart() + c / 128 && off == 4 * (c % 128)
    ensures (sector + 1) * 512 <= |d| && sector * 512 + off == b.CopyBase(0) + 4 * c
  {
    CopyInside(b, d, 0);
    assert b.CopyBase(0) == b.FatStart() * 512;
    assert c == 128 * (c / 128) + c % 128;
  }

  lemma NextAgrees(b: Bpb, d: seq<u8>, c: nat)
    requires Fits(b, d) && c < b.Entries()
    ensures NextOnDisk(b, d, c) == Next(FatOf(b, d, 0), c)
  {
    EntryPlace(c);
    EntryBytes(b, d, c, b.FatStart() + 4 * c / 512, 4 * c % 512);
    EntryOf(b, d, 0, c);
  }

  /** Where links stay inside the table, the walk on the device is the walk of the table. */
  lemma {:induction false} WalkAgrees(b: Bpb, d: seq<u8>, c: nat, fuel: nat)
    requires Fits(b, d) && LinksLive(FatOf(b, d, 0)) && Cluster(FatOf(b, d, 0), c) && !Bad(FatOf(b, d, 0), c)
    ensures WalkOnDisk(b, d, c, fuel) == Walk(FatOf(b, d, 0), c, fuel)
    decreases fuel
  {
    NextAgrees(b, d, c);
    if fuel > 0 && Next(FatOf(b, d, 0), c).Some? {
      WalkAgrees(b, d, Next(FatOf(b, d, 0), c).value, fuel - 1);
    }
  }

  lemma {:induction false} WalkLength(b: Bpb, d: seq<u8>, c: nat, fuel: nat)
    ensures |WalkOnDisk(b, d, c, fuel)| <= fuel
    decreases fuel
  {
    if fuel > 0 && NextOnDisk(b, d, c).Some? {
      WalkLength(b, d, NextOnDisk(b, d, c).value, fuel - 1);
    }
  }

  /** Byte `i` of the device belongs to cluster `c`. */
  predicate InCluster(b: Bpb, c: nat, i: nat)
    requires 2 <= c
  {
    b.ClusterToSector(c) * 512 <= i < (b.ClusterToSector(c) + b.sectorsPerCluster) * 512
  }

  lemma ClustersApart(b: Bpb, c: nat, e: nat, i: nat)
    requires 2 <= c && 2 <= e && InCluster(b, c, i) && InCluster(b, e, i)
    ensures c == e
  {
    if c < e {
      MulGap(c - 2, e - 2, b.sectorsPerCluster);
    } else if e < c {
      MulGap(e - 2, c - 2, b.sectorsPerCluster);
    }
  }

  /** Writing past the tables leaves every copy as it was. */
  lemma DataWriteKeepsTables(b: Bpb, d: seq<u8>, d': seq<u8>, at: nat)
    requires Fits(b, d) && |d'| == |d| && b.DataStart() * 512 <= at
    requires forall i: nat | i < at && i < |d| :: d'[i] == d[i]
    ensures Fits(b, d') && forall k: nat {:trigger FatOf(b, d', k)} | k < b.numFats :: FatOf(b, d', k) == FatOf(b, d, k)
  {
    forall k: nat | k < b.numFats
      ensures FatOf(b, d', k) == FatOf(b, d, k)
    {
      CopyInside(b, d, k);
      FatSame(b, d, d', k);
    }
  }

  lemma ClusterPlace(b: Bpb, d: seq<u8>, c: nat)
    requires OnDevice(b, d, c)
    ensures b.DataStart() * 512 <= b.ClusterToSector(c) * 512
    ensures b.ClusterToSector(c) * 512 + b.BytesPerCluster()
            == (b.ClusterToSector(c) + b.sectorsPerCluster) * 512 <= |d|
  {
    assert (c - 2) * b.sectorsPerCluster >= 0;
  }

  /** Overwriting cluster `c` changes that cluster and neither a table copy nor another cluster. */
  lemma ClusterWrite(b: Bpb, d: seq<u8>, c: nat, buf: seq<u8>)
    requires Fits(b, d) && OnDevice(b, d, c) && |buf| == b.BytesPerCluster()
    ensures b.ClusterToSector(c) * 512 + |buf| <= |d|
    ensures var d' := Splice(d, b.ClusterToSector(c) * 512, buf);
            && Fits(b, d')
            && (forall k: nat {:trigger FatOf(b, d', k)} | k < b.numFats :: FatOf(b, d', k) == FatOf(b, d, k))
            && ClusterOf(b, d', c) == buf
            && (forall i: nat | i < |d| && !InCluster(b, c, i) :: d'[i] == d[i])
  {
    ClusterPlace(b, d, c);
    var d' := Splice(d, b.ClusterToSector(c) * 512, buf);
    DataWriteKeepsTables(b, d, d', b.ClusterToSector(c) * 512);
  }

  /** A write confined to cluster `c` leaves every other cluster alone. */
  lemma OtherCluster(b: Bpb, d: seq<u8>, d': seq<u8>, c: nat, e: nat)
    requires |d'| == |d| && 2 <= c && c != e && OnDevice(b, d, e)
    requires forall i: nat | b.DataStart() * 512 <= i < |d| && !InCluster(b, c, i) :: d'[i] == d[i]
    ensures ClusterOf(b, d', e) == ClusterOf(b, d, e)
  {
    ClusterPlace(b, d, e);
    forall i: nat | InCluster(b, e, i) && i < |d|
      ensures d'[i] == d[i]
    {
      if InCluster(b, c, i) { ClustersApart(b, c, e, i); }
    }
  }

  /** A cluster depends only on bytes past the table copies. */
  lemma ClusterSame(b: Bpb, d: seq<u8>, d': seq<u8>, c: nat)
    requires |d'| == |d| && OnDevice(b, d, c)
    requires forall i: nat | b.DataStart() * 512 <= i < |d| :: d'[i] == d[i]
    ensures OnDevice(b, d', c) && ClusterOf(b, d', c) == ClusterOf(b, d, c)
  {
    ClusterPlace(b, d, c);
  }

  lemma MulAtLeast(a: nat, n: nat)
    requires n > 0
    ensures a <= a * n
  {
  }

  lemma DeviceBound(b: Bpb, d: seq<u8>, c: nat)
    requires b.sectorsPerCluster > 0 && OnDevice(b, d, c)
    ensures c < |d| + 2
  {
    MulAtLeast(c - 2, b.sectorsPerCluster);
  }
}
