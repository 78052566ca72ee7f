/**
 Runs over the open files of a volume: what is written is read back, and however the writes to
 several files are interleaved, each file sees exactly its own.
 */
module FatRuns {
  import opened Options
  import opened Bytes
  import opened FatTable
  import opened FatContent
  import opened FatLayout
  import opened FatVolume
  import opened FatFile
  import opened FatRead

  // ---------- reading back ----------

  lemma SizeFits(b: Bpb, n: nat, size: nat)
    requires b.BytesPerCluster() > 0 && ClustersNeeded(size, b.BytesPerCluster()) <= n
    ensures size <= Span(b, n)
  {
    var k := ClustersNeeded(size, b.BytesPerCluster());
    SpanIs(b, k);
    SpanSum(b, k, n - k);
  }

  /** A read that starts `skip` bytes into the `k`-th cluster, where each batch is consecutive, gives
      back what was written there: all of it that lies in the clusters fetched. */
  ghost predicate ReadBack(b: Bpb, s: seq<nat>, buf: seq<u8>, k: nat, skip: nat, back: Option<seq<u8>>)
    requires k < |s| && b.BytesPerCluster() > 0
  {
    var w := Covered(b, s, k, |buf|);
    BatchWise(w) ==>
      && skip < Span(b, |w|)
      && back == Some(buf[..Min(Span(b, |w|) - skip, |buf|)])
  }

  lemma HeldAfterWrite(m: Store, s: seq<nat>, was: seq<u8>, offset: nat, buf: seq<u8>, back: seq<u8>)
    requires Stored(m, s) && Overwritten(was, offset, buf, Content(m, s)) && Holds(m, s, offset, back)
    requires |back| <= |buf|
    ensures back == buf[..|back|]
  {
    forall i | 0 <= i < |back|
      ensures back[i] == buf[i]
    {
      assert back[i] == Content(m, s)[offset + i];
    }
  }

  lemma ReadsBackAt(b: Bpb, d: seq<u8>, m: Store, s: seq<nat>, was: seq<u8>, offset: nat, buf: seq<u8>,
                    back: Option<seq<u8>>, k: nat, skip: nat)
    requires buf != [] && Stored(m, s) && Overwritten(was, offset, buf, Content(m, s))
    requires ReadsAt(b, d, m, s, |buf|, offset, back) && k < |s| && Located(b, offset, k, skip)
    ensures ReadBack(b, s, buf, k, skip, back)
  {
    assert ReadsWell(b, m, s, |buf|, offset, k, skip, back);
    if BatchWise(Covered(b, s, k, |buf|)) {
      HeldAfterWrite(m, s, was, offset, buf, back.value);
    }
  }

  /** `back` is what reading `|buf|` bytes at `offset` gives after `buf` was written there. */
  ghost predicate RoundTrip(b: Bpb, s: seq<nat>, offset: nat, buf: seq<u8>, back: Option<seq<u8>>) {
    && b.BytesPerCluster() > 0
    && (exists k: nat, skip: nat :: k < |s| && Located(b, offset, k, skip))
    && (forall k: nat, skip: nat {:trigger Located(b, offset, k, skip)} | k < |s| && Located(b, offset, k, skip) ::
          ReadBack(b, s, buf, k, skip, back))
  }

  lemma WrittenReadsBack(b: Bpb, d: seq<u8>, m: Store, s: seq<nat>, was: seq<u8>, offset: nat, buf: seq<u8>,
                         back: Option<seq<u8>>)
    requires buf != [] && Stored(m, s) && Overwritten(was, offset, buf, Content(m, s)) && offset < Span(b, |s|)
    requires ReadsAt(b, d, m, s, |buf|, offset, back)
    ensures RoundTrip(b, s, offset, buf, back)
  {
    LocatedWithin(b, |s|, offset);
    forall k: nat, skip: nat | k < |s| && Located(b, offset, k, skip)
      ensures ReadBack(b, s, buf, k, skip, back)
    {
      ReadsBackAt(b, d, m, s, was, offset, buf, back, k, skip);
    }
  }

  /** What a write leaves, over the bytes it found. */
  lemma WroteOver(t: Fat, m: Store, s: seq<nat>, t': Fat, m': Store, s': seq<nat>, dir: nat, offset: nat,
                  buf: seq<u8>, n: nat, bpc: nat)
    returns (was: seq<u8>)
    requires n == |buf| && Wrote(t, m, s, t', m', s', dir, offset, buf[..n], bpc)
    ensures Stored(m', s') && Overwritten(was, offset, buf, Content(m', s'))
  {
    was := Content(m, s) + ZeroClusters(|s'| - |s|, bpc);
    assert buf[..n] == buf;
  }

  lemma WrittenReadable(f: Fat32File)
    requires f.Valid() && ClustersNeeded(f.size, f.vol.b.BytesPerCluster()) <= |f.chain|
    ensures Readable(f)
  {
    SizeFits(f.vol.b, |f.chain|, f.size);
  }

  /** The file now holds the buffer at the offset, over bytes it held or zeroes. */
  ghost predicate Holding(f: Fat32File, was: seq<u8>, offset: nat, buf: seq<u8>)
    reads f, f.vol
  {
    && offset + |buf| <= f.size
    && Stored(f.vol.store, f.chain)
    && Overwritten(was, offset, buf, Content(f.vol.store, f.chain))
  }

  /** A write leaves a file whose size fits its chain and, below 32 bits, all of the buffer. */
  method WriteWhole(f: Fat32File, buf: seq<u8>, offset: nat) returns (r: Option<nat>, ghost was: seq<u8>)
    requires f.Valid()
    modifies f`start, f`size, f`chain, f.vol
    ensures r.Some? ==> Readable(f)
    ensures r.Some? && offset + |buf| < U32 ==> r.value == |buf| && Holding(f, was, offset, buf)
  {
    ghost var t, m, s, bpc := f.vol.table, f.vol.store, f.chain, f.vol.b.BytesPerCluster();
    was := [];
    r := f.Write(buf, offset);
    if r.Some? {
      assert Readable(f) by {
        WrittenReadable(f);
      }
      if offset + |buf| < U32 {
        was := WroteOver(t, m, s, f.vol.table, f.vol.store, f.chain, f.entryCluster, offset, buf, r.value, bpc);
      }
    }
  }

  /** Writes a buffer and reads as many bytes at the same offset. */
  method WriteThenRead(f: Fat32File, buf: seq<u8>, offset: nat) returns (r: Option<nat>, back: Option<seq<u8>>)
    requires f.Valid()
    modifies f`start, f`size, f`chain, f.vol
    ensures r.Some? ==> Readable(f)
    ensures r.Some? && buf != [] && offset + |buf| < U32 ==> RoundTrip(f.vol.b, f.chain, offset, buf, back)
  {
    back := None;
    ghost var was;
    r, was := WriteWhole(f, buf, offset);
    if r.Some? {
      back := ReadWritten(f, buf, offset, was);
    }
  }

  method ReadWritten(f: Fat32File, buf: seq<u8>, offset: nat, ghost was: seq<u8>) returns (back: Option<seq<u8>>)
    requires Readable(f)
    ensures buf != [] && Holding(f, was, offset, buf) ==> RoundTrip(f.vol.b, f.chain, offset, buf, back)
  {
    back := Read(f, |buf|, offset);
    if buf != [] && Holding(f, was, offset, buf) {
      WrittenReadsBack(f.vol.b, f.vol.disk, f.vol.store, f.chain, was, offset, buf, back);
    }
  }

  // ---------- interleaved writes ----------

  /** What a file holds: its clusters end to end, how many they are, and its size. */
  datatype Image = Image(content: seq<u8>, clusters: nat, size: nat)

  ghost function ImageOf(f: Fat32File): Image
    reads f, f.vol
  {
    Image(if Stored(f.vol.store, f.chain) then Content(f.vol.store, f.chain) else [], |f.chain|, f.size)
  }

  /** The image after a write that stored `n` bytes of the buffer. */
  ghost function Written(im: Image, buf: seq<u8>, offset: nat, n: nat, bpc: nat): Image
    requires bpc > 0 && n <= |buf|
  {
    var size := Max(im.size, AsU32(offset + |buf|));
    var clusters := Max(im.clusters, ClustersNeeded(size, bpc));
    var room := im.content + ZeroClusters(clusters - im.clusters, bpc);
    Image(if offset + n <= |room| then Splice(room, offset, buf[..n]) else room, clusters, size)
  }

  ghost predicate FileHolds(files: seq<Fat32File>, vol: Volume, images: seq<Image>, k: nat)
    requires k < |files| == |images|
    reads files[k], vol
  {
    files[k].vol == vol && files[k].Valid() && ImageOf(files[k]) == images[k]
  }

  ghost predicate PairApart(files: seq<Fat32File>, j: nat, k: nat)
    requires j < |files| && k < |files|
    reads files[j], files[k]
  {
    Separate(files[j], files[k])
  }

  /** All files but the `i`-th are valid and hold these images. */
  ghost predicate OthersHold(files: seq<Fat32File>, vol: Volume, images: seq<Image>, i: nat)
    reads files, vol
  {
    && |images| == |files|
    && forall k: nat {:trigger FileHolds(files, vol, images, k)} | k < |files| && k != i ::
         FileHolds(files, vol, images, k)
  }

  /** Open files of one volume, each with its own clusters and directory entry, and what they hold. */
  ghost predicate Session(files: seq<Fat32File>, vol: Volume, images: seq<Image>)
    reads files, vol
  {
    && OthersHold(files, vol, images, |files|)
    && forall j: nat, k: nat {:trigger PairApart(files, j, k)} | j < |files| && k < |files| && j != k ::
         PairApart(files, j, k)
  }

  lemma WrittenImage(was: Image, now: Image, buf: seq<u8>, offset: nat, n: nat, bpc: nat)
    requires bpc > 0 && n <= |buf|
    requires now.size == Max(was.size, AsU32(offset + |buf|))
    requires now.clusters == Max(was.clusters, ClustersNeeded(now.size, bpc))
    requires Overwritten(was.content + ZeroClusters(now.clusters - was.clusters, bpc), offset, buf[..n], now.content)
    ensures now == Written(was, buf, offset, n, bpc)
  {
    var room := was.content + ZeroClusters(now.clusters - was.clusters, bpc);
    if n == 0 && offset <= |room| {
      assert Splice(room, offset, buf[..n]) == room;
    }
  }

  /** An open file, as the tables and clusters of its volume record it. */
  ghost predicate FileOn(g: Fat32File, t: Fat, m: Store)
    reads g
  {
    && FileAt(t, m, g.chain, g.size, g.entryCluster, g.entryOffset)
    && |m[g.entryCluster]| == g.vol.b.BytesPerCluster()
    && g.start == HeadOf(g.chain) && g.size < U32
  }

  lemma ValidOn(g: Fat32File)
    ensures g.Valid() <==> Mounted(g.vol) && FileOn(g, g.vol.table, g.vol.store)
  {
    if g.Valid() {
      FileChainStored(g.vol.store, g.vol.table, g.chain);
    }
  }

  /** All that has changed since table `t` and clusters `m` is the chain `s` of the file, its
      clusters and its directory entry. */
  ghost predicate Confined(f: Fat32File, t: Fat, m: Store, s: seq<nat>)
    reads f, f.vol
  {
    && Mounted(f.vol) && WellFormed(t) && FileChain(t, s) && FileChain(f.vol.table, f.chain)
    && NewlyTaken(t, s, f.chain)
    && OthersUntouched(t, m, f.vol.table, f.vol.store, f.chain, f.entryCluster)
    && f.entryCluster in m && EntryOnly(m[f.entryCluster], f.vol.store[f.entryCluster], f.entryOffset)
  }

  /** The chain `s` and the directory entry of `f` are not those of `g`. */
  ghost predicate ApartFrom(f: Fat32File, s: seq<nat>, g: Fat32File)
    reads g
  {
    && f.vol == g.vol && EntriesApart(f.entryCluster, f.entryOffset, g.entryCluster, g.entryOffset)
    && (s == [] || g.chain == [] || s[0] != g.chain[0]) && g.entryCluster !in s && f.entryCluster !in g.chain
  }

  /** What a write to `f` leaves of another file. */
  lemma OtherStays(f: Fat32File, g: Fat32File, t: Fat, m: Store, s: seq<nat>)
    requires Confined(f, t, m, s) && ApartFrom(f, s, g) && FileOn(g, t, m)
    ensures g.Valid() && Separate(f, g) && Separate(g, f)
    ensures ImageOf(g) == Image(Content(m, g.chain), |g.chain|, g.size)
  {
    WroteBeside(t, m, s, g.vol.table, g.vol.store, f.chain, f.entryCluster, f.entryOffset,
                g.chain, g.size, g.entryCluster, g.entryOffset);
    ValidOn(g);
  }

  /** What a write leaves, as images. */
  lemma WroteImage(t: Fat, m: Store, s: seq<nat>, t': Fat, m': Store, s': seq<nat>, dir: nat, offset: nat,
                   buf: seq<u8>, n: nat, bpc: nat, was: Image, now: Image)
    requires bpc > 0 && n <= |buf| && Wrote(t, m, s, t', m', s', dir, offset, buf[..n], bpc)
    requires was == Image(Content(m, s), |s|, was.size) && now == Image(Content(m', s'), |s'|, now.size)
    requires now.size == Max(was.size, AsU32(offset + |buf|))
    requires now.clusters == Max(was.clusters, ClustersNeeded(now.size, bpc))
    ensures now == Written(was, buf, offset, n, bpc)
  {
    WrittenImage(was, now, buf, offset, n, bpc);
  }

  lemma EntryPatched(was: seq<u8>, now: seq<u8>, off: nat, head: nat, size: nat)
    requires off + 32 <= |was| && head < U32 && size < U32 && (now == was || now == DirPatch(was, off, head, size))
    ensures EntryOnly(was, now, off)
  {
    DirRoundTrip(was, off, head, size);
  }

  lemma GrownTaken(t: Fat, m: Store, s: seq<nat>, t': Fat, m': Store, s': seq<nat>, bpc: nat)
    requires Grown(t, m, s, t', m', s', bpc)
    ensures NewlyTaken(t, s, s')
  {
  }

  /** The image a successful write leaves. */
  ghost predicate ImageWritten(f: Fat32File, was: Image, buf: seq<u8>, offset: nat, n: nat)
    reads f, f.vol
  {
    && f.Valid() && n <= |buf| && (offset + |buf| < U32 ==> n == |buf|) && f.vol.b.BytesPerCluster() > 0
    && ImageOf(f) == Written(was, buf, offset, n, f.vol.b.BytesPerCluster())
  }

  method WriteConfined(f: Fat32File, buf: seq<u8>, offset: nat) returns (r: Option<nat>)
    requires f.Valid()
    modifies f, f.vol
    ensures Confined(f, old(f.vol.table), old(f.vol.store), old(f.chain)) && f.vol.b.BytesPerCluster() > 0
    ensures if r.None? then DeviceFull(f.vol.store, f.vol.table)
            else ImageWritten(f, old(ImageOf(f)), buf, offset, r.value)
  {
    ghost var t, m, s, was, bpc := f.vol.table, f.vol.store, f.chain, ImageOf(f), f.vol.b.BytesPerCluster();
    r := f.Write(buf, offset);
    assert EntryOnly(m[f.entryCluster], f.vol.store[f.entryCluster], f.entryOffset) by {
      HeadBound(f.vol.table, f.chain);
      EntryPatched(m[f.entryCluster], f.vol.store[f.entryCluster], f.entryOffset, f.start, f.size);
    }
    if r.Some? {
      assert ImageOf(f) == Written(was, buf, offset, r.value, bpc) by {
        WroteImage(t, m, s, f.vol.table, f.vol.store, f.chain, f.entryCluster, offset, buf, r.value, bpc, was,
          ImageOf(f));
      }
    } else {
      GrownTaken(t, m, s, f.vol.table, f.vol.store, f.chain, bpc);
    }
  }

  /** The file `g` is on the volume as `t` and `m` record it, apart from `f`, with this image. */
  ghost predicate Other(f: Fat32File, s: seq<nat>, g: Fat32File, t: Fat, m: Store, im: Image)
    reads g
  {
    && g != f && ApartFrom(f, s, g) && FileOn(g, t, m)
    && im == Image(Content(m, g.chain), |g.chain|, g.size)
  }

  /** The files other than the `i`-th, on table `t` and clusters `m`, while `s` was its chain. */
  ghost predicate Rest(files: seq<Fat32File>, i: nat, s: seq<nat>, t: Fat, m: Store, images: seq<Image>)
    requires i < |files| == |images|
    reads set k | 0 <= k < |files| && k != i :: files[k]
  {
    && (forall k: nat {:trigger Other(files[i], s, files[k], t, m, images[k])} | k < |files| && k != i ::
          Other(files[i], s, files[k], t, m, images[k]))
    && (forall j: nat, k: nat {:trigger PairApart(files, j, k)} |
          j < |files| && k < |files| && j != k && j != i && k != i :: PairApart(files, j, k))
  }

  lemma RestBefore(files: seq<Fat32File>, vol: Volume, images: seq<Image>, i: nat)
    requires Session(files, vol, images) && i < |files|
    ensures Rest(files, i, files[i].chain, vol.table, vol.store, images)
    ensures forall k: nat | k < |files| && k != i :: files[k] != files[i]
  {
    forall k: nat | k < |files| && k != i
      ensures Other(files[i], files[i].chain, files[k], vol.table, vol.store, images[k])
    {
      assert FileHolds(files, vol, images, i) && FileHolds(files, vol, images, k) && PairApart(files, i, k);
      ValidOn(files[k]);
    }
  }

  lemma RestAfter(files: seq<Fat32File>, vol: Volume, images: seq<Image>, i: nat, t: Fat, m: Store, s: seq<nat>,
                  im: Image)
    requires i < |files| == |images| && files[i].vol == vol
    requires Confined(files[i], t, m, s) && Rest(files, i, s, t, m, images)
    ensures OthersHold(files, vol, images, i)
    ensures files[i].Valid() && ImageOf(files[i]) == im ==> Session(files, vol, images[i := im])
  {
    var now := images[i := im];
    forall k: nat | k < |files| && k != i
      ensures FileHolds(files, vol, images, k) && FileHolds(files, vol, now, k) && PairApart(files, i, k)
      ensures PairApart(files, k, i)
    {
      assert Other(files[i], s, files[k], t, m, images[k]);
      OtherStays(files[i], files[k], t, m, s);
    }
    if files[i].Valid() && ImageOf(files[i]) == im {
      assert FileHolds(files, vol, now, i);
    }
  }

  /** Writing to one of several open files leaves all others valid and as they were. */
  method WriteAmong(files: seq<Fat32File>, vol: Volume, i: nat, buf: seq<u8>, offset: nat, ghost images: seq<Image>)
    returns (r: Option<nat>)
    requires Session(files, vol, images) && i < |files|
    modifies files[i], vol
    ensures vol.b.BytesPerCluster() > 0
    ensures r.None? ==> DeviceFull(vol.store, vol.table) && OthersHold(files, vol, images, i)
    ensures r.Some? ==>
              && r.value <= |buf| && (offset + |buf| < U32 ==> r.value == |buf|)
              && Session(files, vol, images[i := Written(images[i], buf, offset, r.value, vol.b.BytesPerCluster())])
  {
    var f := files[i];
    assert FileHolds(files, vol, images, i);
    ghost var t, m, s := vol.table, vol.store, f.chain;
    RestBefore(files, vol, images, i);
    r := WriteConfined(f, buf, offset);
    RestAfter(files, vol, images, i, t, m, s, ImageOf(f));
  }

  datatype WriteOp = WriteOp(file: nat, buf: seq<u8>, offset: nat)

  /** Each write is to one of `n` files, and each of the first ones stored no more than its buffer. */
  ghost predicate Possible(ops: seq<WriteOp>, done: seq<nat>, n: nat) {
    && |done| <= |ops|
    && (forall i {:trigger ops[i]} | 0 <= i < |ops| :: ops[i].file < n)
    && (forall i {:trigger done[i]} | 0 <= i < |done| :: done[i] <= |ops[i].buf|)
  }

  /** The images after the first `|done|` writes. */
  ghost function Replay(images: seq<Image>, ops: seq<WriteOp>, done: seq<nat>, bpc: nat): (r: seq<Image>)
    requires bpc > 0 && Possible(ops, done, |images|)
    ensures |r| == |images|
    decreases |done|
  {
    if done == [] then images
    else
      var n := |done| - 1;
      var before := Replay(images, ops, done[..n], bpc);
      before[ops[n].file := Written(before[ops[n].file], ops[n].buf, ops[n].offset, done[n], bpc)]
  }

  /** The writes to file `k`, in order. */
  ghost function Own(ops: seq<WriteOp>, done: seq<nat>, k: nat): (r: seq<(WriteOp, nat)>)
    requires |done| <= |ops| && forall i {:trigger done[i]} | 0 <= i < |done| :: done[i] <= |ops[i].buf|
    ensures forall i {:trigger r[i]} | 0 <= i < |r| :: r[i].1 <= |r[i].0.buf|
    decreases |done|
  {
    if done == [] then []
    else
      var n := |done| - 1;
      Own(ops, done[..n], k) + if ops[n].file == k then [(ops[n], done[n])] else []
  }

  /** One file's image after writes to it alone. */
  ghost function Alone(im: Image, writes: seq<(WriteOp, nat)>, bpc: nat): Image
    requires bpc > 0 && forall i {:trigger writes[i]} | 0 <= i < |writes| :: writes[i].1 <= |writes[i].0.buf|
  {
    if writes == [] then im
    else
      var (op, n) := writes[|writes| - 1];
      Written(Alone(im, writes[..|writes| - 1], bpc), op.buf, op.offset, n, bpc)
  }

  /** However the writes are interleaved, each file is as if its own writes had been the only ones. */
  lemma {:induction false} EachFileAlone(images: seq<Image>, ops: seq<WriteOp>, done: seq<nat>, bpc: nat, k: nat)
    requires bpc > 0 && Possible(ops, done, |images|) && k < |images|
    ensures Replay(images, ops, done, bpc)[k] == Alone(images[k], Own(ops, done, k), bpc)
    decreases |done|
  {
    if done != [] {
      var n := |done| - 1;
      EachFileAlone(images, ops, done[..n], bpc, k);
      var own := Own(ops, done[..n], k);
      if ops[n].file == k {
        assert (own + [(ops[n], done[n])])[..|own|] == own;
      } else {
        assert own + [] == own;
      }
    }
  }

  /** The first writes were carried out in full, below 32 bits. */
  ghost predicate Full(ops: seq<WriteOp>, done: seq<nat>) {
    && |done| <= |ops|
    && forall i {:trigger done[i]} | 0 <= i < |done| :: ops[i].offset + |ops[i].buf| < U32 ==> done[i] == |ops[i].buf|
  }

  lemma ReplayNext(images: seq<Image>, ops: seq<WriteOp>, done: seq<nat>, n: nat, bpc: nat)
    requires bpc > 0 && Possible(ops, done, |images|) && Full(ops, done) && |done| < |ops|
    requires var op := ops[|done|]; n <= |op.buf| && (op.offset + |op.buf| < U32 ==> n == |op.buf|)
    ensures Possible(ops, done + [n], |images|) && Full(ops, done + [n])
    ensures var op, was := ops[|done|], Replay(images, ops, done, bpc);
            Replay(images, ops, done + [n], bpc) == was[op.file := Written(was[op.file], op.buf, op.offset, n, bpc)]
  {
    assert (done + [n])[..|done|] == done;
  }

  /** Carries out writes to open files, in order, until one finds no free cluster. */
  method WriteRun(files: seq<Fat32File>, vol: Volume, ops: seq<WriteOp>, ghost images: seq<Image>)
    returns (done: seq<nat>)
    requires Session(files, vol, images) && Possible(ops, [], |files|) && vol.b.BytesPerCluster() > 0
    modifies files, vol
    ensures Possible(ops, done, |files|) && Full(ops, done)
    ensures var now := Replay(images, ops, done, vol.b.BytesPerCluster());
            if |done| == |ops| then Session(files, vol, now)
            else DeviceFull(vol.store, vol.table) && OthersHold(files, vol, now, ops[|done|].file)
  {
    ghost var now, bpc := images, vol.b.BytesPerCluster();
    done := [];
    while |done| < |ops|
      invariant Possible(ops, done, |files|) && Full(ops, done)
      invariant now == Replay(images, ops, done, bpc) && Session(files, vol, now)
      decreases |ops| - |done|
    {
      var op := ops[|done|];
      var r := WriteAmong(files, vol, op.file, op.buf, op.offset, now);
      if r.None? {
        return;
      }
      ReplayNext(images, ops, done, r.value, bpc);
      now := now[op.file := Written(now[op.file], op.buf, op.offset, r.value, bpc)];
      done := done + [r.value];
    }
  }
}
