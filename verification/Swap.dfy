/**
 Swap areas: slots handed out from a bitmap, pages stored in RAM or on a disk. The steps are
 relations between states, so that a run is any sequence of them.
 */
module Swap {
  import opened Options
  import opened Bytes
  import opened SwapBitmap

  const PAGE: nat := 4096
  const SECTOR: nat := 512
  const SECTORS_PER_PAGE: nat := 8

  type Page = p: seq<u8> | |p| == 4096 witness Zeros(4096)

  /** A disk is the bytes of its sectors; requests past its end fail. */
  datatype Storage = Ram(buf: seq<u8>) | Disk(buf: seq<u8>, start: nat)

  datatype Slot = Slot(area: nat, index: nat)

  datatype Area = Area(storage: Storage, bitmap: Bitmap, freeCount: nat) {
    ghost predicate Valid() {
      && bitmap.Valid()
      && freeCount == |bitmap.Free()|
      && (storage.Ram? ==> |storage.buf| == bitmap.len * PAGE)
    }

    function OffsetOf(index: nat): nat {
      if storage.Ram? then index * PAGE else (storage.start + index * SECTORS_PER_PAGE) * SECTOR
    }

    /** The slot exists and the storage reaches that far. */
    predicate Reachable(index: nat) {
      index < bitmap.len && OffsetOf(index) + PAGE <= |storage.buf|
    }

    function PageAt(index: nat): Page
      requires Reachable(index)
    {
      storage.buf[OffsetOf(index)..OffsetOf(index) + PAGE]
    }

    function WithPage(index: nat, page: Page): Area
      requires Reachable(index)
    {
      this.(storage := storage.(buf := Splice(storage.buf, OffsetOf(index), page)))
    }
  }

  type Areas = seq<Area>

  ghost predicate AllValid(a: Areas) {
    forall i {:trigger a[i]} | 0 <= i < |a| :: a[i].Valid()
  }

  predicate InRange(a: Areas, s: Slot) {
    s.area < |a| && s.index < a[s.area].bitmap.len
  }

  ghost predicate IsFree(a: Areas, s: Slot)
    requires AllValid(a)
  {
    s.area < |a| && s.index in a[s.area].bitmap.Free()
  }

  // ---------- steps ----------

  /** The lowest free slot of the first area that has one. */
  ghost predicate IsChosen(a: Areas, r: Option<Slot>)
    requires AllValid(a)
  {
    match r
    case None => forall i {:trigger a[i]} | 0 <= i < |a| :: a[i].bitmap.Free() == {}
    case Some(s) =>
      && IsFree(a, s)
      && (forall i {:trigger a[i]} | 0 <= i < s.area :: a[i].bitmap.Free() == {})
      && (forall k | k in a[s.area].bitmap.Free() :: s.index <= k)
  }

  function Take(a: Areas, s: Slot): Areas
    requires InRange(a, s) && a[s.area].freeCount > 0
    requires |a[s.area].bitmap.bytes| == (a[s.area].bitmap.len + 7) / 8
  {
    var area := a[s.area];
    a[s.area := area.(bitmap := area.bitmap.Set(s.index, false), freeCount := area.freeCount - 1)]
  }

  /** Frees an outstanding slot; anything else is left alone. */
  ghost function Release(a: Areas, s: Slot): Areas
    requires AllValid(a)
  {
    if InRange(a, s) && !IsFree(a, s) then
      var area := a[s.area];
      a[s.area := area.(bitmap := area.bitmap.Set(s.index, true), freeCount := area.freeCount + 1)]
    else a
  }

  function Write(a: Areas, s: Slot, page: Page): Option<Areas> {
    if s.area < |a| && a[s.area].Reachable(s.index) then Some(a[s.area := a[s.area].WithPage(s.index, page)]) else None
  }

  function ReadFrom(a: Areas, s: Slot): Option<Page> {
    if s.area < |a| && a[s.area].Reachable(s.index) then Some(a[s.area].PageAt(s.index)) else None
  }

  datatype Event =
    | Allocated(r: Option<Slot>)
    | Freed(s: Slot)
    | Wrote(s: Slot, page: Page, ok: bool)
    | ReadBack(s: Slot, got: Option<Page>)
    | SwappedOut(out: Page, r: Option<Slot>)

  ghost predicate Step(a: Areas, e: Event, b: Areas) {
    && AllValid(a)
    && match e
       case Allocated(r) => IsChosen(a, r) && b == (if r.None? then a else TakeFree(a, r.value))
       case Freed(s) => b == Release(a, s)
       case Wrote(s, page, ok) =>
         (ok <==> Write(a, s, page).Some?) && b == if ok then Write(a, s, page).value else a
       case ReadBack(s, page) => page == ReadFrom(a, s) && b == a
       case SwappedOut(page, None) =>
         b == a && (IsChosen(a, None) || exists s {:trigger IsFree(a, s)} ::
           IsChosen(a, Some(s)) && Write(a, s, page).None?)
       case SwappedOut(page, Some(s)) => IsChosen(a, Some(s)) && Write(TakeFree(a, s), s, page) == Some(b)
  }

  ghost function TakeFree(a: Areas, s: Slot): Areas
    requires AllValid(a) && IsFree(a, s)
  {
    FreeCounted(a[s.area].bitmap, s.index);
    Take(a, s)
  }

  lemma FreeCounted(bm: Bitmap, i: nat)
    requires bm.Valid() && i in bm.Free()
    ensures |bm.Free()| > 0 && i < bm.len
  {
  }

  // ---------- what every step keeps ----------

  lemma CardPlus(s: set<nat>, x: nat)
    ensures x !in s ==> |s + {x}| == |s| + 1
    ensures x in s ==> |s - {x}| == |s| - 1
  {
  }

  lemma TakeKeeps(a: Areas, s: Slot)
    requires AllValid(a) && IsFree(a, s)
    ensures AllValid(TakeFree(a, s)) && !IsFree(TakeFree(a, s), s)
    ensures forall t: Slot {:trigger IsFree(TakeFree(a, s), t)} | t != s :: IsFree(TakeFree(a, s), t) <==> IsFree(a, t)
  {
    a[s.area].bitmap.SetFree(s.index, false);
    CardPlus(a[s.area].bitmap.Free(), s.index);
  }

  lemma ReleaseKeeps(a: Areas, s: Slot)
    requires AllValid(a)
    ensures AllValid(Release(a, s)) && (InRange(a, s) ==> IsFree(Release(a, s), s))
    ensures forall t: Slot {:trigger IsFree(Release(a, s), t)} | t != s :: IsFree(Release(a, s), t) <==> IsFree(a, t)
  {
    if InRange(a, s) && !IsFree(a, s) {
      a[s.area].bitmap.SetFree(s.index, true);
      CardPlus(a[s.area].bitmap.Free(), s.index);
    }
  }

  lemma WriteKeeps(a: Areas, s: Slot, page: Page)
    requires AllValid(a) && Write(a, s, page).Some?
    ensures AllValid(Write(a, s, page).value)
    ensures forall t: Slot {:trigger IsFree(Write(a, s, page).value, t)} ::
            IsFree(Write(a, s, page).value, t) <==> IsFree(a, t)
  {
  }

  lemma StepKeepsValid(a: Areas, e: Event, b: Areas)
    requires Step(a, e, b)
    ensures AllValid(b)
  {
    match e
    case Allocated(None) =>
    case Allocated(Some(s)) =>
      TakeKeeps(a, s);
    case Freed(s) =>
      ReleaseKeeps(a, s);
    case Wrote(s, page, ok) =>
      if ok {
        WriteKeeps(a, s, page);
      }
    case ReadBack(_, _) =>
    case SwappedOut(_, None) =>
    case SwappedOut(page, Some(s)) =>
      TakeKeeps(a, s);
      WriteKeeps(TakeFree(a, s), s, page);
  }

  /** Freeing twice changes nothing more. */
  lemma ReleaseTwice(a: Areas, s: Slot)
    requires AllValid(a)
    ensures AllValid(Release(a, s)) && Release(Release(a, s), s) == Release(a, s)
  {
    ReleaseKeeps(a, s);
  }

  /** A slot taken and given back leaves everything as it was. */
  lemma TakeRelease(a: Areas, s: Slot)
    requires AllValid(a) && IsFree(a, s)
    ensures AllValid(TakeFree(a, s)) && Release(TakeFree(a, s), s) == a
  {
    TakeKeeps(a, s);
    var bm := a[s.area].bitmap;
    assert bm.Get(s.index);
    var b := bm.bytes[s.index / 8];
    PutBack(b, s.index % 8);
    assert bm.Set(s.index, false).Set(s.index, true) == bm;
  }

  // ---------- pages stay ----------

  /** The slot is outstanding and holds this page. */
  ghost predicate Keeps(a: Areas, s: Slot, page: Page) {
    AllValid(a) && !IsFree(a, s) && ReadFrom(a, s) == Some(page)
  }

  ghost predicate Disturbs(e: Event, s: Slot) {
    (e.Freed? && e.s == s) || (e.Wrote? && e.s == s)
  }

  ghost predicate HandsOut(e: Event, s: Slot) {
    (e.Allocated? && e.r == Some(s)) || (e.SwappedOut? && e.r == Some(s))
  }

  lemma PagesApart(a: Area, i: nat, j: nat, page: Page)
    requires a.Reachable(i) && a.Reachable(j) && i != j
    ensures a.WithPage(i, page).Reachable(j) && a.WithPage(i, page).PageAt(j) == a.PageAt(j)
    ensures a.WithPage(i, page).Reachable(i) && a.WithPage(i, page).PageAt(i) == page
  {
    assert a.OffsetOf(i) + PAGE <= a.OffsetOf(j) || a.OffsetOf(j) + PAGE <= a.OffsetOf(i);
    var w := a.WithPage(i, page);
    assert w.PageAt(j) == a.PageAt(j);
    assert w.PageAt(i) == page;
  }

  /** A written page reads back, and writing leaves every other slot's page. */
  lemma WriteThenRead(a: Areas, s: Slot, page: Page, t: Slot)
    requires Write(a, s, page).Some?
    ensures ReadFrom(Write(a, s, page).value, t) == if t == s then Some(page) else ReadFrom(a, t)
  {
    var area := a[s.area];
    if t == s {
      assert area.WithPage(s.index, page).PageAt(s.index) == page;
    } else if t.area == s.area && area.Reachable(t.index) {
      PagesApart(area, s.index, t.index, page);
    }
  }

  lemma TakeKeepsPage(a: Areas, t: Slot, s: Slot, page: Page)
    requires Keeps(a, s, page) && IsFree(a, t)
    ensures t != s && Keeps(TakeFree(a, t), s, page)
  {
    TakeKeeps(a, t);
  }

  lemma ReleaseKeepsPage(a: Areas, t: Slot, s: Slot, page: Page)
    requires Keeps(a, s, page) && t != s
    ensures Keeps(Release(a, t), s, page)
  {
    ReleaseKeeps(a, t);
  }

  lemma WriteKeepsPage(a: Areas, t: Slot, p: Page, s: Slot, page: Page)
    requires Keeps(a, s, page) && t != s && Write(a, t, p).Some?
    ensures Keeps(Write(a, t, p).value, s, page)
  {
    WriteKeeps(a, t, p);
    WriteThenRead(a, t, p, s);
  }

  lemma StepKeepsPage(a: Areas, e: Event, b: Areas, s: Slot, page: Page)
    requires Step(a, e, b) && Keeps(a, s, page) && !Disturbs(e, s)
    ensures Keeps(b, s, page) && !HandsOut(e, s)
  {
    match e
    case Allocated(r) =>
      if r.Some? {
        TakeKeepsPage(a, r.value, s, page);
      }
    case Freed(t) =>
      ReleaseKeepsPage(a, t, s, page);
    case Wrote(t, p, ok) =>
      if ok {
        WriteKeepsPage(a, t, p, s, page);
      }
    case ReadBack(_, _) =>
    case SwappedOut(p, r) =>
      if r.Some? {
        TakeKeepsPage(a, r.value, s, page);
        WriteKeepsPage(TakeFree(a, r.value), r.value, p, s, page);
      }
  }

  ghost predicate StepAt(states: seq<Areas>, events: seq<Event>, i: nat)
    requires |states| == |events| + 1 && i < |events|
  {
    Step(states[i], events[i], states[i + 1])
  }

  ghost predicate IsRun(states: seq<Areas>, events: seq<Event>) {
    && |states| == |events| + 1
    && forall i {:trigger StepAt(states, events, i)} | 0 <= i < |events| :: StepAt(states, events, i)
  }

  /** Through any run that neither frees nor rewrites the slot, its page stays and the slot
      is never handed out again. */
  lemma {:induction false} RunKeepsPage(states: seq<Areas>, events: seq<Event>, s: Slot, page: Page, n: nat)
    requires IsRun(states, events) && Keeps(states[0], s, page) && n <= |events|
    requires forall i {:trigger Disturbs(events[i], s)} | 0 <= i < n :: !Disturbs(events[i], s)
    ensures Keeps(states[n], s, page)
    ensures forall i {:trigger HandsOut(events[i], s)} | 0 <= i < n :: !HandsOut(events[i], s)
    decreases n
  {
    if n > 0 {
      RunKeepsPage(states, events, s, page, n - 1);
      assert StepAt(states, events, n - 1);
      StepKeepsPage(states[n - 1], events[n - 1], states[n], s, page);
    }
  }

  lemma SwappedOutKeeps(a: Areas, page: Page, s: Slot, b: Areas)
    requires Step(a, SwappedOut(page, Some(s)), b)
    ensures Keeps(b, s, page)
  {
    TakeKeeps(a, s);
    WriteKeeps(TakeFree(a, s), s, page);
    WriteThenRead(TakeFree(a, s), s, page, s);
  }

  // ---------- where pages lie ----------

  /** The first byte of a page: a disk area begins at its first sector, and each page takes eight. */
  function FirstByte(storage: Storage, index: nat): nat {
    (if storage.Disk? then storage.start * 512 else 0) + index * 4096
  }

  /** A read or write needs the slot to exist and its 4096 bytes to be there. A write puts the page in these bytes
      and changes nothing else, a read takes it from them. */
  lemma WriteWhere(a: Areas, s: Slot, page: Page)
    ensures Write(a, s, page).Some? <==> ReadFrom(a, s).Some?
    ensures Write(a, s, page).Some? <==>
            InRange(a, s) && FirstByte(a[s.area].storage, s.index) + 4096 <= |a[s.area].storage.buf|
    ensures Write(a, s, page).Some? ==>
              var b, was, first := Write(a, s, page).value, a[s.area].storage, FirstByte(a[s.area].storage, s.index);
              && |b| == |a|
              && b == a[s.area := a[s.area].(storage := was.(buf := was.buf[..first] + page + was.buf[first + 4096..]))]
              && ReadFrom(a, s) == Some(was.buf[first..first + 4096])
  {
  }

  /** Byte `k` belongs to the sectors of the area. */
  predicate Inside(area: Area, k: nat) {
    match area.storage
    case Ram(_) => k < area.bitmap.len * 4096
    case Disk(_, start) => start * 512 <= k < (start + 8 * area.bitmap.len) * 512
  }

  ghost predicate SameOutside(a: Areas, b: Areas) {
    && |b| == |a|
    && forall i {:trigger a[i]} {:trigger b[i]} | 0 <= i < |a| :: AreaOutside(a[i], b[i])
  }

  /** Two states of an area: the same place and size, and the same bytes outside. */
  ghost predicate AreaOutside(a: Area, b: Area) {
    && b.bitmap.len == a.bitmap.len
    && b.storage == a.storage.(buf := b.storage.buf)
    && |b.storage.buf| == |a.storage.buf|
    && forall k {:trigger Inside(a, k)} {:trigger b.storage.buf[k]} | 0 <= k < |a.storage.buf| && !Inside(a, k) ::
         b.storage.buf[k] == a.storage.buf[k]
  }

  lemma WithPageOutside(a: Area, index: nat, page: Page)
    requires a.Reachable(index)
    ensures AreaOutside(a, a.WithPage(index, page))
  {
    assert index * PAGE + PAGE <= a.bitmap.len * PAGE;
  }

  /** No operation touches a byte outside the sectors of its area. */
  lemma StepKeepsOutside(a: Areas, e: Event, b: Areas)
    requires Step(a, e, b)
    ensures SameOutside(a, b)
  {
    if e.Wrote? && e.ok {
      WithPageOutside(a[e.s.area], e.s.index, e.page);
    } else if e.SwappedOut? && e.r.Some? {
      var s := e.r.value;
      WithPageOutside(TakeFree(a, s)[s.area], s.index, e.out);
    }
  }

  /** Nor does any run. */
  lemma {:induction false} RunKeepsOutside(states: seq<Areas>, events: seq<Event>, n: nat)
    requires IsRun(states, events) && n <= |events|
    ensures SameOutside(states[0], states[n])
    decreases n
  {
    if n > 0 {
      RunKeepsOutside(states, events, n - 1);
      assert StepAt(states, events, n - 1);
      StepKeepsOutside(states[n - 1], events[n - 1], states[n]);
      OutsideTransitive(states[0], states[n - 1], states[n]);
    }
  }

  lemma OutsideTransitive(a: Areas, b: Areas, c: Areas)
    requires SameOutside(a, b) && SameOutside(b, c)
    ensures SameOutside(a, c)
  {
    forall i | 0 <= i < |a|
      ensures AreaOutside(a[i], c[i])
    {
      assert AreaOutside(a[i], b[i]) && AreaOutside(b[i], c[i]);
      forall k | 0 <= k < |a[i].storage.buf| && !Inside(a[i], k)
        ensures c[i].storage.buf[k] == a[i].storage.buf[k]
      {
        assert !Inside(b[i], k);
      }
    }
  }
}
