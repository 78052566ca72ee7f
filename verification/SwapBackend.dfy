/** The swap backend: its areas and counters, updated in place. */
module SwapBackend {
  import opened Options
  import opened Bytes
  import opened SwapBitmap
  import opened Swap

  const RAM_SWAP_PAGES: nat := 64

  class Backend {
    var areas: Areas
    var totalWrites: nat
    var totalReads: nat
    var failedEvictions: nat

    constructor ()
      ensures AllValid(areas) && areas == []
    {
      areas := [];
      totalWrites, totalReads, failedEvictions := 0, 0, 0;
    }

    /** Adds an area whose slots are all free. */
    method AddArea(storage: Storage, pages: nat)
      requires AllValid(areas) && (storage.Ram? ==> |storage.buf| == pages * PAGE)
      modifies this`areas
      ensures AllValid(areas) && |areas| == |old(areas)| + 1 && areas[..|old(areas)|] == old(areas)
      ensures areas[|old(areas)|].storage == storage && areas[|old(areas)|].bitmap.len == pages
      ensures forall i: nat | i < pages :: IsFree(areas, Slot(|old(areas)|, i))
    {
      var bm := NewBitmap(pages, true);
      CountTo(bm, pages);
      areas := areas + [Area(storage, bm, pages)];
      assert forall i: nat | i < pages :: bm.Get(i);
    }

    /** The first area is always in RAM. */
    method Init()
      requires AllValid(areas)
      modifies this`areas
      ensures AllValid(areas) && areas != [] && (old(areas) != [] ==> areas == old(areas))
      ensures old(areas) == [] ==>
                && |areas| == 1 && areas[0].storage.Ram?
                && forall i: nat | i < RAM_SWAP_PAGES :: IsFree(areas, Slot(0, i))
    {
      if areas == [] {
        AddArea(Ram(Zeros(RAM_SWAP_PAGES * PAGE)), RAM_SWAP_PAGES);
      }
    }

    /** The lowest free index of the first area that is not full. */
    method AllocSlot() returns (r: Option<Slot>)
      requires AllValid(areas)
      modifies this`areas
      ensures Step(old(areas), Allocated(r), areas) && AllValid(areas)
    {
      for k := 0 to |areas|
        invariant areas == old(areas)
        invariant forall i {:trigger areas[i]} | 0 <= i < k :: areas[i].bitmap.Free() == {}
      {
        var area := areas[k];
        if area.freeCount == 0 {
          continue;
        }
        var pos := FindFirstSet(area.bitmap);
        if pos.Some? {
          var s := Slot(k, pos.value);
          areas := areas[k := area.(bitmap := area.bitmap.Set(pos.value, false), freeCount := area.freeCount - 1)];
          TakeKeeps(old(areas), s);
          return Some(s);
        }
      }
      r := None;
    }

    method FreeSlot(s: Slot)
      requires AllValid(areas)
      modifies this`areas
      ensures Step(old(areas), Freed(s), areas) && AllValid(areas)
    {
      ReleaseKeeps(areas, s);
      if s.area < |areas| {
        var area := areas[s.area];
        if s.index < area.bitmap.len && !area.bitmap.Get(s.index) {
          areas := areas[s.area := area.(bitmap := area.bitmap.Set(s.index, true), freeCount := area.freeCount + 1)];
        }
      }
    }

    method WritePage(s: Slot, page: Page) returns (ok: bool)
      requires AllValid(areas)
      modifies this
      ensures Step(old(areas), Wrote(s, page, ok), areas) && AllValid(areas)
      ensures totalWrites == old(totalWrites) + (if ok then 1 else 0)
      ensures totalReads == old(totalReads) && failedEvictions == old(failedEvictions)
    {
      if s.area >= |areas| || !areas[s.area].Reachable(s.index) {
        return false;
      }
      WriteKeeps(areas, s, page);
      areas := areas[s.area := areas[s.area].WithPage(s.index, page)];
      totalWrites := totalWrites + 1;
      return true;
    }

    method ReadPage(s: Slot) returns (page: Option<Page>)
      requires AllValid(areas)
      modifies this`totalReads
      ensures Step(areas, ReadBack(s, page), areas)
      ensures totalReads == old(totalReads) + (if page.Some? then 1 else 0)
    {
      if s.area >= |areas| || !areas[s.area].Reachable(s.index) {
        return None;
      }
      page := Some(areas[s.area].PageAt(s.index));
      totalReads := totalReads + 1;
    }

    /** Stores a page in a fresh slot; if that fails, the slot is given back and nothing but
        the failure count has changed. */
    method SwapOut(page: Page) returns (r: Option<Slot>)
      requires AllValid(areas)
      modifies this
      ensures Step(old(areas), SwappedOut(page, r), areas) && AllValid(areas)
      ensures r.Some? ==> Keeps(areas, r.value, page)
      ensures failedEvictions == old(failedEvictions) + (if r.Some? then 0 else 1)
    {
      r := AllocSlot();
      if r.None? {
        failedEvictions := failedEvictions + 1;
        return;
      }
      ghost var taken := areas;
      var ok := WritePage(r.value, page);
      if !ok {
        TakeRelease(old(areas), r.value);
        FreeSlot(r.value);
        failedEvictions := failedEvictions + 1;
        return None;
      }
      SwappedOutKeeps(old(areas), page, r.value, areas);
    }

    method SwapIn(s: Slot) returns (page: Option<Page>)
      requires AllValid(areas)
      modifies this`totalReads
      ensures page == ReadFrom(areas, s)
    {
      page := ReadPage(s);
    }
  }

  lemma CountTo(bm: Bitmap, n: nat)
    requires bm.Valid() && bm.len == n && forall i: nat {:trigger bm.Get(i)} | i < n :: bm.Get(i)
    ensures |bm.Free()| == n
  {
    Counted(bm.Free(), n);
  }

  lemma {:induction false} Counted(s: set<nat>, n: nat)
    requires forall i: nat {:trigger i in s} :: i in s <==> i < n
    ensures |s| == n
    decreases n
  {
    if n > 0 {
      Counted(s - {n - 1}, n - 1);
    } else {
      assert s == {};
    }
  }
}
