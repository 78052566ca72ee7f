/**
 CLOCK page eviction. Swap-out attempts are answered in order by a given sequence, so the
 results hold for whatever the swap backend does.
 */
module Eviction {
  import opened Options

  type Frame = nat

  datatype EvictablePage = EvictablePage(frame: Frame, referenced: bool)

  type Pages = seq<EvictablePage>

  /** The hand is on a page, or at 0 when there is none; frames are distinct. */
  ghost predicate Valid(pages: Pages, hand: nat) {
    && (hand < |pages| || (hand == 0 && pages == []))
    && forall i, j | 0 <= i < j < |pages| :: pages[i].frame != pages[j].frame
  }

  /** The page examined by probe `t` of a scan that starts at `hand`. */
  function At(n: nat, hand: nat, t: nat): (i: nat)
    requires hand < n && t < 2 * n
    ensures i < n
  {
    var x := hand + t;
    if x < n then x else if x < 2 * n then x - n else x - 2 * n
  }

  /** Probe `t` asks for a swap-out: the page was unreferenced, or the hand is on its second lap. */
  predicate Tried(pages: Pages, hand: nat, t: nat)
    requires hand < |pages| && t < 2 * |pages|
  {
    t >= |pages| || !pages[At(|pages|, hand, t)].referenced
  }

  /** The swap-outs asked for before probe `t`. */
  function Tries(pages: Pages, hand: nat, t: nat): nat
    requires hand < |pages| && t <= 2 * |pages|
  {
    if t == 0 then 0 else Tries(pages, hand, t - 1) + if Tried(pages, hand, t - 1) then 1 else 0
  }

  predicate Answer(answers: seq<bool>, i: nat) {
    i < |answers| && answers[i]
  }

  /** Probe `t` asks for a swap-out and gets it. */
  predicate Evicts(pages: Pages, hand: nat, answers: seq<bool>, t: nat)
    requires hand < |pages| && t < 2 * |pages|
  {
    Tried(pages, hand, t) && Answer(answers, Tries(pages, hand, t))
  }

  /** Probe `t` is the first to succeed. */
  ghost predicate FirstEviction(pages: Pages, hand: nat, answers: seq<bool>, t: nat)
    requires hand < |pages| && t < 2 * |pages|
  {
    Evicts(pages, hand, answers, t) && forall j: nat {:trigger Evicts(pages, hand, answers, j)} | j < t ::
      !Evicts(pages, hand, answers, j)
  }

  ghost predicate NoEviction(pages: Pages, hand: nat, answers: seq<bool>)
    requires hand < |pages|
  {
    forall j: nat {:trigger Evicts(pages, hand, answers, j)} | j < 2 * |pages| :: !Evicts(pages, hand, answers, j)
  }

  /** The pages after `t` probes without success: bits passed on the first lap are clear. */
  ghost predicate Passed(pages: Pages, hand: nat, t: nat, now: Pages)
    requires hand < |pages| && t <= 2 * |pages|
  {
    && |now| == |pages|
    && forall i {:trigger now[i]} | 0 <= i < |pages| ::
         now[i] == pages[i].(referenced := pages[i].referenced && Distance(|pages|, hand, i) >= t)
  }

  /** Probes from the hand to page `i`. */
  function Distance(n: nat, hand: nat, i: nat): (d: nat)
    requires hand < n && i < n
    ensures d < n && At(n, hand, d) == i
  {
    if i >= hand then i - hand else i + n - hand
  }

  function Removed(pages: Pages, i: nat): Pages
    requires i < |pages|
  {
    pages[..i] + pages[i + 1..]
  }

  lemma SmallRemainder(x: nat, n: nat)
    requires x < n
    ensures x % n == x
  {
  }

  lemma OwnRemainder(n: nat)
    requires n > 0
    ensures n % n == 0
  {
  }

  /** Probe `t` is on the page `t` steps on from the hand, round the clock. */
  lemma AtIsModulo(n: nat, hand: nat, t: nat)
    requires hand < n && t < 2 * n
    ensures At(n, hand, t) == (hand + t) % n
  {
    var x := hand + t;
    if x < n {
      SmallRemainder(x, n);
    } else if x < 2 * n {
      Rounds(x, n, 1);
    } else {
      Rounds(x, n, 2);
    }
  }

  lemma Rounds(x: nat, n: nat, k: nat)
    requires n > 0 && k * n <= x < k * n + n
    ensures x % n == x - k * n
  {
    SameRound(n, x / n - k, x - k * n, x % n);
  }

  lemma SameRound(n: nat, d: int, x: nat, r: nat)
    requires x == n * d + r && x < n && r < n
    ensures x == r
  {
    Multiples(n, d);
  }

  lemma Multiples(n: nat, d: int)
    ensures d >= 1 ==> n * d >= n
    ensures d <= -1 ==> n * d <= 0 - n
  {
    if d >= 1 {
      assert n * (d - 1) >= 0;
    } else if d <= -1 {
      assert n * (-1 - d) >= 0;
    }
  }

  /** The position after `i` on the clock. */
  function Following(n: nat, i: nat): nat
    requires i < n
  {
    if i + 1 < n then i + 1 else 0
  }

  lemma NextHand(n: nat, hand: nat, t: nat)
    requires hand < n && t < 2 * n
    ensures Following(n, At(n, hand, t)) == if t + 1 < 2 * n then At(n, hand, t + 1) else hand
  {
  }

  /** A probe sees a referenced page exactly when it does not ask for a swap-out; clearing the
      bit passes the page. */
  lemma PassOne(pages: Pages, hand: nat, t: nat, now: Pages)
    requires hand < |pages| && t < 2 * |pages| && Passed(pages, hand, t, now)
    ensures var i := At(|pages|, hand, t);
            && now[i].frame == pages[i].frame
            && (now[i].referenced <==> !Tried(pages, hand, t))
            && Passed(pages, hand, t + 1, now[i := now[i].(referenced := false)])
            && (!now[i].referenced ==> Passed(pages, hand, t + 1, now))
  {
  }

  /** Probe `t` evicted its page: bits passed before are clear, the page is gone, and the hand
      is on the page that followed it, or at the start. */
  ghost predicate EvictedAt(pages: Pages, hand: nat, t: nat, frame: Frame, now: Pages, hand': nat)
    requires hand < |pages| && t < 2 * |pages|
  {
    var k := At(|pages|, hand, t);
    && frame == pages[k].frame
    && |now| == |pages| - 1
    && (forall i {:trigger now[i]} | 0 <= i < |now| ::
          var j := if i < k then i else i + 1;
          now[i] == pages[j].(referenced := pages[j].referenced && Distance(|pages|, hand, j) >= t))
    && hand' == if k < |now| then k else 0
  }

  lemma RemoveProbed(pages: Pages, hand: nat, t: nat, now: Pages)
    requires Valid(pages, hand) && hand < |pages| && t < 2 * |pages| && Passed(pages, hand, t, now)
    ensures var k := At(|pages|, hand, t);
            var hand' := if k < |pages| - 1 then k else 0;
            && EvictedAt(pages, hand, t, pages[k].frame, Removed(now, k), hand')
            && Valid(Removed(now, k), hand')
  {
    var k := At(|pages|, hand, t);
    var r := Removed(now, k);
    assert forall i | 0 <= i < |r| :: r[i] == now[if i < k then i else i + 1];
  }

  /** The scan after `t` probes, none of which succeeded. */
  ghost predicate Scanned(pages: Pages, hand: nat, answers: seq<bool>, t: nat, now: Pages, at: nat, tries: nat)
    requires hand < |pages| && t <= 2 * |pages|
  {
    && at == (if t < 2 * |pages| then At(|pages|, hand, t) else hand)
    && Passed(pages, hand, t, now)
    && tries == Tries(pages, hand, t)
    && forall j: nat {:trigger Evicts(pages, hand, answers, j)} | j < t :: !Evicts(pages, hand, answers, j)
  }

  /** What a probe finds, and how the scan goes on unless it evicts. */
  lemma ProbeOne(pages: Pages, hand: nat, answers: seq<bool>, t: nat, now: Pages, at: nat, tries: nat)
    requires hand < |pages| && t < 2 * |pages| && Scanned(pages, hand, answers, t, now, at, tries)
    ensures |now| == |pages| && now[at].frame == pages[at].frame
    ensures !now[at].referenced && Answer(answers, tries) ==> FirstEviction(pages, hand, answers, t)
    ensures var next := if t + 1 < 2 * |pages| then At(|pages|, hand, t + 1) else hand;
            && (!now[at].referenced && !Answer(answers, tries) ==>
                  Scanned(pages, hand, answers, t + 1, now, next, tries + 1))
            && (now[at].referenced ==>
                  Scanned(pages, hand, answers, t + 1, now[at := now[at].(referenced := false)], next, tries))
  {
    PassOne(pages, hand, t, now);
  }

  class Registry {
    var pages: Pages
    var clockHand: nat

    constructor ()
      ensures Valid(pages, clockHand) && pages == []
    {
      pages := [];
      clockHand := 0;
    }

    /** Adds an unknown frame as referenced; a known one is left alone. */
    method RegisterPage(frame: Frame)
      requires Valid(pages, clockHand)
      modifies this`pages
      ensures Valid(pages, clockHand)
      ensures pages == if exists i :: 0 <= i < |old(pages)| && old(pages)[i].frame == frame then old(pages)
                       else old(pages) + [EvictablePage(frame, true)]
    {
      for k := 0 to |pages|
        invariant pages == old(pages)
        invariant forall i | 0 <= i < k :: pages[i].frame != frame
      {
        if pages[k].frame == frame {
          return;
        }
      }
      pages := pages + [EvictablePage(frame, true)];
    }

    method MarkReferenced(frame: Frame)
      requires Valid(pages, clockHand)
      modifies this`pages
      ensures Valid(pages, clockHand) && |pages| == |old(pages)|
      ensures forall i {:trigger pages[i]} | 0 <= i < |pages| ::
                pages[i] == if old(pages)[i].frame == frame then EvictablePage(frame, true) else old(pages)[i]
    {
      for k := 0 to |pages|
        invariant pages == old(pages)
        invariant forall i | 0 <= i < k :: pages[i].frame != frame
      {
        if pages[k].frame == frame {
          pages := pages[k := pages[k].(referenced := true)];
          return;
        }
      }
    }

    /** Takes the page at the hand out of the registry. */
    method RemoveAtHand()
      requires clockHand < |pages|
      modifies this
      ensures pages == Removed(old(pages), old(clockHand))
      ensures clockHand == if old(clockHand) < |pages| then old(clockHand) else 0
    {
      pages := Removed(pages, clockHand);
      if clockHand >= |pages| {
        clockHand := 0;
      }
    }

    method Advance()
      requires clockHand < |pages|
      modifies this`clockHand
      ensures clockHand == Following(|pages|, old(clockHand))
    {
      if clockHand + 1 < |pages| {
        SmallRemainder(clockHand + 1, |pages|);
      } else {
        OwnRemainder(|pages|);
      }
      clockHand := (clockHand + 1) % |pages|;
    }

    /** Evicts at the first probe whose swap-out succeeds, or none of 2n probes does. */
    method EvictOne(answers: seq<bool>) returns (r: Option<Frame>, t: nat)
      requires Valid(pages, clockHand)
      modifies this
      ensures Valid(pages, clockHand)
      ensures old(pages) == [] ==> r.None? && pages == []
      ensures old(pages) != [] && r.None? ==>
                && NoEviction(old(pages), old(clockHand), answers)
                && clockHand == old(clockHand)
                && Passed(old(pages), old(clockHand), 2 * |old(pages)|, pages)
      ensures r.Some? ==>
                && old(pages) != []
                && t < 2 * |old(pages)|
                && FirstEviction(old(pages), old(clockHand), answers, t)
                && EvictedAt(old(pages), old(clockHand), t, r.value, pages, clockHand)
    {
      t := 0;
      var len := |pages|;
      if len == 0 {
        return None, 0;
      }
      ghost var was, hand := pages, clockHand;
      var tries := 0;
      while t < 2 * len
        invariant t <= 2 * len && |pages| == len && clockHand < len
        invariant Scanned(was, hand, answers, t, pages, clockHand, tries)
      {
        var page := pages[clockHand];
        ProbeOne(was, hand, answers, t, pages, clockHand, tries);
        NextHand(len, hand, t);
        if !page.referenced {
          var ok := Answer(answers, tries);
          tries := tries + 1;
          if ok {
            RemoveProbed(was, hand, t, pages);
            RemoveAtHand();
            return Some(page.frame), t;
          }
        } else {
          pages := pages[clockHand := page.(referenced := false)];
        }
        Advance();
        t := t + 1;
      }
      r := None;
    }
  }

  // ---------- what the scan finds ----------

  lemma {:induction false} NoTries(pages: Pages, hand: nat, t: nat)
    requires hand < |pages| && t <= |pages|
    requires forall j: nat {:trigger Tried(pages, hand, j)} | j < t :: !Tried(pages, hand, j)
    ensures Tries(pages, hand, t) == 0
    decreases t
  {
    if t > 0 {
      NoTries(pages, hand, t - 1);
    }
  }

  /** The first probe that asks for a swap-out. */
  lemma {:induction false} FirstTry(pages: Pages, hand: nat, t: nat) returns (k: nat)
    requires hand < |pages| && t <= |pages|
    requires forall j: nat {:trigger Tried(pages, hand, j)} | j < t :: !Tried(pages, hand, j)
    ensures k <= |pages| && Tried(pages, hand, k) && Tries(pages, hand, k) == 0
    ensures forall j: nat {:trigger Tried(pages, hand, j)} | j < k :: !Tried(pages, hand, j)
    decreases |pages| - t
  {
    if Tried(pages, hand, t) {
      NoTries(pages, hand, t);
      k := t;
    } else {
      k := FirstTry(pages, hand, t + 1);
    }
  }

  /** If the first swap-out asked for succeeds, the victim is the first unreferenced page in
      circular order from the hand, or the page at the hand when all were referenced; it takes
      at most n + 1 probes. */
  lemma EvictsFirstUnreferenced(pages: Pages, hand: nat, answers: seq<bool>)
    requires hand < |pages| && Answer(answers, 0)
    ensures !NoEviction(pages, hand, answers)
    ensures forall t: nat {:trigger FirstEviction(pages, hand, answers, t)} |
              t < 2 * |pages| && FirstEviction(pages, hand, answers, t) ::
              && t <= |pages|
              && (forall j: nat {:trigger At(|pages|, hand, j)} | j < t :: pages[At(|pages|, hand, j)].referenced)
              && (t < |pages| ==> !pages[At(|pages|, hand, t)].referenced)
              && (t == |pages| ==> At(|pages|, hand, t) == hand)
  {
    var k := FirstTry(pages, hand, 0);
    assert Evicts(pages, hand, answers, k);
    forall t: nat | t < 2 * |pages| && FirstEviction(pages, hand, answers, t)
      ensures t == k
    {
    }
    forall j: nat | j < k
      ensures pages[At(|pages|, hand, j)].referenced
    {
      assert !Tried(pages, hand, j);
    }
  }

  /** When nothing is evicted, a swap-out of every page was asked for and failed. */
  lemma NoneMeansEveryPageFailed(pages: Pages, hand: nat, answers: seq<bool>, i: nat)
    requires hand < |pages| && NoEviction(pages, hand, answers) && i < |pages|
    ensures exists t: nat {:trigger Tried(pages, hand, t)} ::
              t < 2 * |pages| && At(|pages|, hand, t) == i && Tried(pages, hand, t)
                && !Answer(answers, Tries(pages, hand, t))
  {
    var t := |pages| + Distance(|pages|, hand, i);
    assert !Evicts(pages, hand, answers, t);
    assert Tried(pages, hand, t);
  }
}
