/**
 Eviction over the swap backend itself. Whether a swap-out succeeds does not depend on the page,
 and one that fails changes nothing: so a scan evicts at its first try, or never.
 */
module EvictToSwap {
  import opened Options
  import opened Swap
  import opened SwapBackend
  import Eviction

  type Frame = Eviction.Frame
  type Pages = Eviction.Pages

  /** The slot that would be handed out next can be written. */
  ghost predicate CanStore(a: Areas)
    requires AllValid(a)
  {
    exists s {:trigger IsFree(a, s)} :: IsChosen(a, Some(s)) && a[s.area].Reachable(s.index)
  }

  lemma ChosenUnique(a: Areas, r: Option<Slot>, q: Option<Slot>)
    requires AllValid(a) && IsChosen(a, r) && IsChosen(a, q)
    ensures r == q
  {
    if r.Some? && q.Some? {
      assert r.value.area == q.value.area;
    }
  }

  /** A swap-out succeeds if and only if the next slot can be written; otherwise it changes nothing. */
  lemma SwapOutIff(a: Areas, page: Page, r: Option<Slot>, b: Areas)
    requires Step(a, SwappedOut(page, r), b)
    ensures r.Some? <==> CanStore(a)
    ensures r.None? ==> b == a
  {
    if r.Some? {
      assert IsFree(a, r.value);
    } else if CanStore(a) {
      var s :| IsFree(a, s) && IsChosen(a, Some(s)) && a[s.area].Reachable(s.index);
      if IsChosen(a, None) {
        ChosenUnique(a, None, Some(s));
      } else {
        var q :| IsFree(a, q) && IsChosen(a, Some(q)) && Write(a, q, page).None?;
        ChosenUnique(a, Some(q), Some(s));
      }
    }
  }

  /** A slot in RAM can always be written, so a RAM area stores pages as long as it has a free one. */
  lemma RamStores(a: Areas, s: Slot)
    requires AllValid(a) && IsChosen(a, Some(s)) && a[s.area].storage.Ram?
    ensures CanStore(a)
  {
    var area := a[s.area];
    assert area.Valid() && IsFree(a, s);
    assert s.index < area.bitmap.len;
    Within(s.index, area.bitmap.len);
  }

  lemma Within(i: nat, n: nat)
    requires i < n
    ensures i * PAGE + PAGE <= n * PAGE
  {
  }

  /** A backend just set up can store a page. */
  lemma FreshStores(a: Areas)
    requires AllValid(a) && |a| == 1 && a[0].storage.Ram? && forall i: nat | i < RAM_SWAP_PAGES :: IsFree(a, Slot(0, i))
    ensures CanStore(a)
  {
    assert IsFree(a, Slot(0, 0));
    RamStores(a, Slot(0, 0));
  }

  method StorePage(backend: Backend, page: Page) returns (s: Option<Slot>)
    requires AllValid(backend.areas)
    modifies backend
    ensures s.Some? <==> CanStore(old(backend.areas))
    ensures s.None? ==> backend.areas == old(backend.areas)
    ensures s.Some? ==>
              Keeps(backend.areas, s.value, page) && Step(old(backend.areas), SwappedOut(page, s), backend.areas)
  {
    s := backend.SwapOut(page);
    SwapOutIff(old(backend.areas), page, s, backend.areas);
  }

  // ---------- the scan ----------

  /** What a backend that can or cannot store answers to up to `n` swap-outs. */
  function Always(n: nat, can: bool): seq<bool> {
    seq(n, _ => can)
  }

  lemma {:induction false} TriesBounded(pages: Pages, hand: nat, t: nat)
    requires hand < |pages| && t <= 2 * |pages|
    ensures Eviction.Tries(pages, hand, t) <= t
    decreases t
  {
    if t > 0 {
      TriesBounded(pages, hand, t - 1);
    }
  }

  /** The page that goes first: the first unreferenced one in circular order from the hand, or the
      one at the hand when all are referenced. */
  ghost predicate Victim(pages: Pages, hand: nat, t: nat)
    requires hand < |pages|
  {
    && t <= |pages|
    && (forall j: nat {:trigger Eviction.At(|pages|, hand, j)} | j < t ::
          pages[Eviction.At(|pages|, hand, j)].referenced)
    && (t < |pages| ==> !pages[Eviction.At(|pages|, hand, t)].referenced)
    && (t == |pages| ==> Eviction.At(|pages|, hand, t) == hand)
  }

  /** A scan over the backend finds a victim if and only if the backend can store a page. */
  lemma ScanFinds(pages: Pages, hand: nat, can: bool)
    requires hand < |pages|
    ensures Eviction.NoEviction(pages, hand, Always(2 * |pages|, can)) <==> !can
  {
    if can {
      Eviction.EvictsFirstUnreferenced(pages, hand, Always(2 * |pages|, can));
    } else {
      forall j: nat | j < 2 * |pages|
        ensures !Eviction.Evicts(pages, hand, Always(2 * |pages|, can), j)
      {
      }
    }
  }

  lemma FirstIsVictim(pages: Pages, hand: nat, can: bool, t: nat)
    requires hand < |pages| && t < 2 * |pages| && Eviction.FirstEviction(pages, hand, Always(2 * |pages|, can), t)
    ensures can && Victim(pages, hand, t)
  {
    Eviction.EvictsFirstUnreferenced(pages, hand, Always(2 * |pages|, can));
  }

  lemma AllPassed(pages: Pages, hand: nat, now: Pages)
    requires hand < |pages| && Eviction.Passed(pages, hand, 2 * |pages|, now)
    ensures |now| == |pages| && forall i | 0 <= i < |now| :: now[i] == pages[i].(referenced := false)
  {
  }

  /** The page of `frame` went into a slot, which keeps it. */
  ghost predicate Stored(a: Areas, page: Page, slot: Option<Slot>, b: Areas) {
    slot.Some? && Step(a, SwappedOut(page, slot), b) && Keeps(b, slot.value, page)
  }

  /** The two laps of the clock. */
  method Scan(reg: Eviction.Registry, backend: Backend, ram: Frame -> Page, ghost can: bool)
    returns (r: Option<Frame>, ghost slot: Option<Slot>, ghost t: nat)
    requires Eviction.Valid(reg.pages, reg.clockHand) && reg.pages != []
    requires AllValid(backend.areas) && can == CanStore(backend.areas)
    modifies reg, backend
    ensures Eviction.Valid(reg.pages, reg.clockHand) && AllValid(backend.areas)
    ensures var was, hand := old(reg.pages), old(reg.clockHand);
            if r.None? then
              && backend.areas == old(backend.areas)
              && Eviction.NoEviction(was, hand, Always(2 * |was|, can))
              && Eviction.Passed(was, hand, 2 * |was|, reg.pages)
            else
              && t < 2 * |was|
              && Eviction.FirstEviction(was, hand, Always(2 * |was|, can), t)
              && Eviction.EvictedAt(was, hand, t, r.value, reg.pages, reg.clockHand)
              && Stored(old(backend.areas), ram(r.value), slot, backend.areas)
  {
    ghost var was, hand, areas, tries := reg.pages, reg.clockHand, backend.areas, 0;
    var len := |reg.pages|;
    ghost var answers := Always(2 * len, can);
    r, slot, t := None, None, 0;
    for i := 0 to 2 * len
      invariant t == i && |reg.pages| == len && reg.clockHand < len && backend.areas == areas
      invariant Eviction.Scanned(was, hand, answers, i, reg.pages, reg.clockHand, tries)
    {
      var page := reg.pages[reg.clockHand];
      Eviction.ProbeOne(was, hand, answers, i, reg.pages, reg.clockHand, tries);
      Eviction.NextHand(len, hand, i);
      TriesBounded(was, hand, i);
      if !page.referenced {
        var s := StorePage(backend, ram(page.frame));
        if s.Some? {
          Eviction.RemoveProbed(was, hand, i, reg.pages);
          reg.RemoveAtHand();
          r, slot := Some(page.frame), s;
          return;
        }
        tries := tries + 1;
      } else {
        reg.pages := reg.pages[reg.clockHand := page.(referenced := false)];
      }
      reg.Advance();
      t := t + 1;
    }
  }

  /** Evicts a page to swap. It fails on a registry that is not empty if and only if the backend
      cannot store a page; the page evicted is in its slot. */
  method EvictOne(reg: Eviction.Registry, backend: Backend, ram: Frame -> Page)
    returns (r: Option<Frame>, ghost slot: Option<Slot>, ghost t: nat)
    requires Eviction.Valid(reg.pages, reg.clockHand) && AllValid(backend.areas)
    modifies reg, backend
    ensures Eviction.Valid(reg.pages, reg.clockHand) && AllValid(backend.areas)
    ensures r.None? <==> old(reg.pages) == [] || !CanStore(old(backend.areas))
    ensures r.None? ==>
              && backend.areas == old(backend.areas)
              && |reg.pages| == |old(reg.pages)|
              && forall i | 0 <= i < |reg.pages| :: reg.pages[i] == old(reg.pages)[i].(referenced := false)
    ensures r.Some? ==>
              && Victim(old(reg.pages), old(reg.clockHand), t)
              && Eviction.EvictedAt(old(reg.pages), old(reg.clockHand), t, r.value, reg.pages, reg.clockHand)
              && Stored(old(backend.areas), ram(r.value), slot, backend.areas)
  {
    ghost var was, hand, can := reg.pages, reg.clockHand, CanStore(backend.areas);
    r, slot, t := None, None, 0;
    if |reg.pages| == 0 {
      return;
    }
    r, slot, t := Scan(reg, backend, ram, can);
    ScanFinds(was, hand, can);
    if r.Some? {
      FirstIsVictim(was, hand, can, t);
    } else {
      AllPassed(was, hand, reg.pages);
    }
  }
}
