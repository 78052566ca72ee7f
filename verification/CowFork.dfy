/**
 Copy-on-write fork: the parent's user leaves are made read-only in place, then
 the user half of its table tree is copied into frames drawn from the allocator,
 sharing a subtree whenever an inner allocation fails.
 */
module CowFork {
  import opened Options
  import opened PageTables

  /** The answers the frame allocator will give, in order; past the end it fails. */
  type Supply = seq<Option<Frame>>

  ghost function FramesOf(s: Supply): set<Frame> {
    set o | o in s && o.Some? :: o.value
  }

  /** The allocator never hands out one frame twice. */
  ghost predicate NoRepeats(s: Supply) {
    forall i, j | 0 <= i < j < |s| :: s[i].Some? && s[j].Some? ==> s[i].value != s[j].value
  }

  // ---------- what a copy of the first k entries of a table is ----------

  /** Every lower-half walk through one of the first `k` entries maps the same thing in the copy. */
  ghost predicate SameMeaning(m0: Memory, src: Frame, m: Memory, n: Frame, level: nat, k: nat)
    requires 1 <= level <= 4
  {
    forall path: seq<Index> | |path| == level && path[0] < k && Lower(level, path[0]) ::
      Narrows(UserWalk(m0, src, level, path), UserWalk(m, n, level, path))
  }

  /** The copy has a table wherever the original has one: a frame of `taken`, or the original's own table, shared. */
  ghost predicate SameShape(m0: Memory, src: Frame, m: Memory, n: Frame, level: nat, k: nat, taken: set<Frame>)
    requires 1 <= level <= 4
  {
    forall p: seq<Index> | 0 < |p| < level && p[0] < k ::
      var t := TableAt(m, n, level, p);
      t.Some? == TableAt(m0, src, level, p).Some? && (t.Some? ==> t.value in taken || t == TableAt(m0, src, level, p))
  }

  predicate Within(p: seq<Index>, k: nat) {
    p == [] || p[0] < k
  }

  /** No frame of `taken` is linked at two places of the copy. */
  ghost predicate LinkedAtMostOnce(m: Memory, n: Frame, level: nat, k: nat, taken: set<Frame>)
    requires 1 <= level <= 4
  {
    forall p: seq<Index>, q: seq<Index> | |p| < level && |q| < level && Within(p, k) && Within(q, k) ::
      TableAt(m, n, level, p).Some? && TableAt(m, n, level, p) == TableAt(m, n, level, q) ==>
        TableAt(m, n, level, p).value in taken ==> p == q
  }

  ghost predicate Linked(m: Memory, n: Frame, level: nat, k: nat, f: Frame)
    requires 1 <= level <= 4
  {
    exists p: seq<Index> :: |p| < level && Within(p, k) && TableAt(m, n, level, p) == Some(f)
  }

  /** What the copy of an entry is: a link with the flags it had, a page made read-only, or nothing. */
  predicate EntryCopied(e: Entry, c: Entry, level: nat) {
    if e.Descends(level) then c == e.(addr := c.addr)
    else if e.UserPresent() then c == e.ReadOnly()
    else c == UNUSED
  }

  /** The first `k` entries of a table are copied. */
  ghost predicate TableCopied(m0: Memory, f: Frame, m: Memory, g: Frame, level: nat, k: nat) {
    forall j: Index {:trigger At(m, g)[j]} | j < k && Lower(level, j) :: EntryCopied(At(m0, f)[j], At(m, g)[j], level)
  }

  /** A table of `taken` below the root is a copy of the table at the same path. */
  ghost predicate CopiedAt(m0: Memory, src: Frame, m: Memory, n: Frame, level: nat, taken: set<Frame>, p: seq<Index>)
    requires 1 <= level <= 4 && 0 < |p| < level
  {
    var t := TableAt(m, n, level, p);
    t.Some? && t.value in taken ==>
      && TableAt(m0, src, level, p).Some?
      && TableCopied(m0, TableAt(m0, src, level, p).value, m, t.value, level - |p|, 512)
  }

  /** No table below the first `k` entries of the copy is shared with the original. */
  ghost predicate Whole(m: Memory, n: Frame, level: nat, k: nat, taken: set<Frame>)
    requires 1 <= level <= 4
  {
    forall p: seq<Index> | 0 < |p| < level && p[0] < k ::
      TableAt(m, n, level, p).Some? ==> TableAt(m, n, level, p).value in taken
  }

  /** `n` copies the first `k` entries of `src`, using exactly the frames of `taken`. */
  ghost predicate Cloned(m0: Memory, src: Frame, m: Memory, n: Frame, level: nat, k: nat, taken: set<Frame>)
    requires 1 <= level <= 4 && k <= 512
  {
    && n in taken
    && (forall g: Frame :: g !in taken ==> At(m, g) == At(m0, g))
    && SameMeaning(m0, src, m, n, level, k)
    && SameShape(m0, src, m, n, level, k, taken)
    && LinkedAtMostOnce(m, n, level, k, taken)
    && TableCopied(m0, src, m, n, level, k)
    && (forall p: seq<Index> {:trigger CopiedAt(m0, src, m, n, level, taken, p)} | 0 < |p| < level && p[0] < k ::
          CopiedAt(m0, src, m, n, level, taken, p))
    && (forall f {:trigger Linked(m, n, level, k, f)} :: f in taken ==> Linked(m, n, level, k, f))
    && (forall j: Index :: j < k && !Lower(level, j) ==> At(m, n)[j] == At(m0, src)[j])
    && (forall j: Index :: j >= k ==> At(m, n)[j] == UNUSED)
  }

  ghost predicate EntryMeaning(m0: Memory, src: Frame, m: Memory, n: Frame, level: nat, i: Index)
    requires 1 <= level <= 4
  {
    Lower(level, i) ==>
      forall path: seq<Index> | |path| == level && path[0] == i ::
        Narrows(UserWalk(m0, src, level, path), UserWalk(m, n, level, path))
  }

  ghost predicate EntryShape(m0: Memory, src: Frame, m: Memory, n: Frame, level: nat, i: Index, added: set<Frame>)
    requires 1 <= level <= 4
  {
    forall p: seq<Index> | 0 < |p| < level && p[0] == i ::
      var t := TableAt(m, n, level, p);
      t.Some? == TableAt(m0, src, level, p).Some? && (t.Some? ==> t.value in added || t == TableAt(m0, src, level, p))
  }

  ghost predicate EntryLinks(m: Memory, n: Frame, level: nat, i: Index, added: set<Frame>)
    requires 1 <= level <= 4
  {
    && (forall p: seq<Index>, q: seq<Index> | 0 < |p| < level && 0 < |q| < level && p[0] == q[0] == i ::
          TableAt(m, n, level, p).Some? && TableAt(m, n, level, p) == TableAt(m, n, level, q) ==>
            TableAt(m, n, level, p).value in added ==> p == q)
    && (forall f {:trigger LinkedVia(m, n, level, i, f)} :: f in added ==> LinkedVia(m, n, level, i, f))
  }

  ghost predicate LinkedVia(m: Memory, n: Frame, level: nat, i: Index, f: Frame)
    requires 1 <= level <= 4
  {
    exists p: seq<Index> :: 0 < |p| < level && p[0] == i && TableAt(m, n, level, p) == Some(f)
  }

  ghost predicate EntryTables(m0: Memory, src: Frame, m: Memory, n: Frame, level: nat, i: Index, added: set<Frame>)
    requires 1 <= level <= 4
  {
    && (Lower(level, i) ==> EntryCopied(At(m0, src)[i], At(m, n)[i], level))
    && (forall p: seq<Index> {:trigger CopiedAt(m0, src, m, n, level, added, p)} | 0 < |p| < level && p[0] == i ::
          CopiedAt(m0, src, m, n, level, added, p))
  }

  ghost predicate EntryWhole(m: Memory, n: Frame, level: nat, i: Index, added: set<Frame>)
    requires 1 <= level <= 4
  {
    forall p: seq<Index> | 0 < |p| < level && p[0] == i ::
      TableAt(m, n, level, p).Some? ==> TableAt(m, n, level, p).value in added
  }

  /** What processing entry `i` must achieve on its own, given the frames it took. */
  ghost predicate EntryCloned(m0: Memory, src: Frame, m: Memory, n: Frame, level: nat, i: Index, added: set<Frame>)
    requires 1 <= level <= 4
  {
    && (!Lower(level, i) ==> At(m, n)[i] == At(m0, src)[i])
    && EntryMeaning(m0, src, m, n, level, i)
    && EntryShape(m0, src, m, n, level, i, added)
    && EntryLinks(m, n, level, i, added)
    && EntryTables(m0, src, m, n, level, i, added)
  }

  // ---------- processing one more entry ----------

  /** The step from `m` to `m2`: entry `i` of `n` is set and only frames of `added` are written besides. */
  ghost predicate Step(m0: Memory, src: Frame, m: Memory, m2: Memory, n: Frame, level: nat, i: Index,
                       taken: set<Frame>, added: set<Frame>)
    requires 1 <= level <= 4
  {
    && Cloned(m0, src, m, n, level, i, taken)
    && added !! taken
    && Avoids(m0, src, level, taken + added)
    && (forall g: Frame :: g !in added && g != n ==> At(m2, g) == At(m, g))
    && (forall j: Index :: j != i ==> At(m2, n)[j] == At(m, n)[j])
  }

  /** The subtrees copied earlier are out of reach of the step. */
  lemma EarlierUntouched(m0: Memory, src: Frame, m: Memory, m2: Memory, n: Frame, level: nat, i: Index,
                         taken: set<Frame>, added: set<Frame>, j: Index)
    requires 1 <= level <= 4 && Step(m0, src, m, m2, n, level, i, taken, added)
    requires j < i && Lower(level, j) && At(m, n)[j].Descends(level)
    ensures AgreeUnder(m, m2, At(m, n)[j].addr, level - 1)
  {
    var g := At(m, n)[j].addr;
    forall p: seq<Index> | |p| < level - 1 && TableAt(m, g, level - 1, p).Some?
      ensures At(m2, TableAt(m, g, level - 1, p).value) == At(m, TableAt(m, g, level - 1, p).value)
    {
      TableAtStep(m, n, level, j, p);
      var q := [j] + p;
      var t := TableAt(m, n, level, q).value;
      assert q[0] < i;
      assert t !in added;
      assert t != n by {
        assert TableAt(m, n, level, []) == Some(n);
      }
    }
  }

  lemma EarlierTables(m0: Memory, src: Frame, m: Memory, m2: Memory, n: Frame, level: nat, i: Index,
                      taken: set<Frame>, added: set<Frame>, p: seq<Index>)
    requires 1 <= level <= 4 && Step(m0, src, m, m2, n, level, i, taken, added)
    requires |p| < level && Within(p, i)
    ensures TableAt(m2, n, level, p) == TableAt(m, n, level, p)
  {
    if p != [] && Lower(level, p[0]) && At(m, n)[p[0]].Descends(level) {
      EarlierUntouched(m0, src, m, m2, n, level, i, taken, added, p[0]);
      AgreeSameTables(m, m2, At(m, n)[p[0]].addr, level - 1, p[1..]);
    }
  }

  lemma EarlierWalks(m0: Memory, src: Frame, m: Memory, m2: Memory, n: Frame, level: nat, i: Index,
                     taken: set<Frame>, added: set<Frame>, path: seq<Index>)
    requires 1 <= level <= 4 && Step(m0, src, m, m2, n, level, i, taken, added)
    requires |path| == level && path[0] < i && Lower(level, path[0])
    ensures UserWalk(m2, n, level, path) == UserWalk(m, n, level, path)
  {
    if At(m, n)[path[0]].Descends(level) {
      EarlierUntouched(m0, src, m, m2, n, level, i, taken, added, path[0]);
      AgreeSameWalk(m, m2, At(m, n)[path[0]].addr, level - 1, path[1..]);
    }
  }

  lemma EarlierSame(m0: Memory, src: Frame, m: Memory, m2: Memory, n: Frame, level: nat, i: Index, taken: set<Frame>,
                    added: set<Frame>)
    requires 1 <= level <= 4 && Step(m0, src, m, m2, n, level, i, taken, added)
    ensures forall p: seq<Index> | |p| < level && Within(p, i) :: TableAt(m2, n, level, p) == TableAt(m, n, level, p)
    ensures forall path: seq<Index> | |path| == level && path[0] < i && Lower(level, path[0]) ::
              UserWalk(m2, n, level, path) == UserWalk(m, n, level, path)
  {
    forall p: seq<Index> | |p| < level && Within(p, i)
      ensures TableAt(m2, n, level, p) == TableAt(m, n, level, p)
    {
      EarlierTables(m0, src, m, m2, n, level, i, taken, added, p);
    }
    forall path: seq<Index> | |path| == level && path[0] < i && Lower(level, path[0])
      ensures UserWalk(m2, n, level, path) == UserWalk(m, n, level, path)
    {
      EarlierWalks(m0, src, m, m2, n, level, i, taken, added, path);
    }
  }

  lemma ExtendOnce(m0: Memory, src: Frame, m: Memory, m2: Memory, n: Frame, level: nat, i: Index, taken: set<Frame>,
                   added: set<Frame>)
    requires 1 <= level <= 4 && Step(m0, src, m, m2, n, level, i, taken, added)
    requires EntryCloned(m0, src, m2, n, level, i, added)
    ensures LinkedAtMostOnce(m2, n, level, i + 1, taken + added)
  {
    EarlierSame(m0, src, m, m2, n, level, i, taken, added);
    forall p: seq<Index>, q: seq<Index> | |p| < level && |q| < level && Within(p, i + 1) && Within(q, i + 1)
        && TableAt(m2, n, level, p).Some? && TableAt(m2, n, level, p) == TableAt(m2, n, level, q)
             && TableAt(m2, n, level, p).value in taken + added
      ensures p == q
    {
      // a frame of one part cannot be reached through the other
      if Within(p, i) {
        assert TableAt(m, n, level, p) == TableAt(m2, n, level, p);
        assert TableAt(m2, n, level, p).value in taken by { if p == [] {} else { assert p[0] < i; } }
      } else {
        assert p[0] == i;
      }
      if Within(q, i) {
        assert TableAt(m, n, level, q) == TableAt(m2, n, level, q);
        assert TableAt(m2, n, level, q).value in taken by { if q == [] {} else { assert q[0] < i; } }
      } else {
        assert q[0] == i;
      }
    }
  }

  lemma ExtendLinked(m0: Memory, src: Frame, m: Memory, m2: Memory, n: Frame, level: nat, i: Index,
                     taken: set<Frame>, added: set<Frame>)
    requires 1 <= level <= 4 && Step(m0, src, m, m2, n, level, i, taken, added)
    requires EntryCloned(m0, src, m2, n, level, i, added)
    ensures forall f {:trigger Linked(m2, n, level, i + 1, f)} :: f in taken + added ==> Linked(m2, n, level, i + 1, f)
  {
    EarlierSame(m0, src, m, m2, n, level, i, taken, added);
    forall f | f in taken + added
      ensures Linked(m2, n, level, i + 1, f)
    {
      if f in taken {
        assert Linked(m, n, level, i, f);
        var p: seq<Index> :| |p| < level && Within(p, i) && TableAt(m, n, level, p) == Some(f);
        assert TableAt(m2, n, level, p) == Some(f) && Within(p, i + 1);
      } else {
        assert LinkedVia(m2, n, level, i, f);
        var p: seq<Index> :| 0 < |p| < level && p[0] == i && TableAt(m2, n, level, p) == Some(f);
        assert Within(p, i + 1);
      }
    }
  }

  lemma EarlierCopied(m0: Memory, src: Frame, m: Memory, m2: Memory, n: Frame, level: nat, i: Index,
                      taken: set<Frame>, added: set<Frame>, p: seq<Index>)
    requires 1 <= level <= 4 && Step(m0, src, m, m2, n, level, i, taken, added)
    requires 0 < |p| < level && p[0] < i
    ensures CopiedAt(m0, src, m2, n, level, taken + added, p)
  {
    EarlierTables(m0, src, m, m2, n, level, i, taken, added, p);
    var t := TableAt(m, n, level, p);
    if t.Some? && t.value in taken + added {
      EarlierNotAdded(m0, src, m, m2, n, level, i, taken, added, p);
      assert CopiedAt(m0, src, m, n, level, taken, p);
      assert t.value != n by {
        assert TableAt(m, n, level, []) == Some(n) && Within([], i) && Within(p, i);
      }
      assert At(m2, t.value) == At(m, t.value);
    }
  }

  lemma ExtendCopied(m0: Memory, src: Frame, m: Memory, m2: Memory, n: Frame, level: nat, i: Index, taken: set<Frame>,
                     added: set<Frame>)
    requires 1 <= level <= 4 && Step(m0, src, m, m2, n, level, i, taken, added)
    requires EntryCloned(m0, src, m2, n, level, i, added)
    ensures TableCopied(m0, src, m2, n, level, i + 1)
    ensures forall p: seq<Index> {:trigger CopiedAt(m0, src, m2, n, level, taken + added, p)} |
              0 < |p| < level && p[0] < i + 1 :: CopiedAt(m0, src, m2, n, level, taken + added, p)
  {
    forall p: seq<Index> | 0 < |p| < level && p[0] < i + 1
      ensures CopiedAt(m0, src, m2, n, level, taken + added, p)
    {
      if p[0] < i {
        EarlierCopied(m0, src, m, m2, n, level, i, taken, added, p);
      } else if TableAt(m2, n, level, p).Some? {
        EntryNotTaken(m0, src, m, m2, n, level, i, taken, added, p);
        assert CopiedAt(m0, src, m2, n, level, added, p);
      }
    }
  }

  /** The larger copy shares nothing exactly if neither the earlier entries nor this one did. */
  lemma ExtendWhole(m0: Memory, src: Frame, m: Memory, m2: Memory, n: Frame, level: nat, i: Index, taken: set<Frame>,
                    added: set<Frame>)
    requires 1 <= level <= 4 && Step(m0, src, m, m2, n, level, i, taken, added)
    requires EntryCloned(m0, src, m2, n, level, i, added)
    ensures Whole(m2, n, level, i + 1, taken + added) <==>
            Whole(m, n, level, i, taken) && EntryWhole(m2, n, level, i, added)
  {
    EarlierSame(m0, src, m, m2, n, level, i, taken, added);
    forall p: seq<Index> | 0 < |p| < level && p[0] < i && TableAt(m, n, level, p).Some?
      ensures TableAt(m2, n, level, p) == TableAt(m, n, level, p) && TableAt(m, n, level, p).value !in added
    {
      assert Within(p, i);
      EarlierNotAdded(m0, src, m, m2, n, level, i, taken, added, p);
    }
    forall p: seq<Index> | 0 < |p| < level && p[0] == i && TableAt(m2, n, level, p).Some?
      ensures TableAt(m2, n, level, p).value !in taken
    {
      EntryNotTaken(m0, src, m, m2, n, level, i, taken, added, p);
    }
    if Whole(m, n, level, i, taken) && EntryWhole(m2, n, level, i, added) {
      WholeSum(m, m2, n, level, i, taken, added);
    }
    if Whole(m2, n, level, i + 1, taken + added) {
      WholeParts(m, m2, n, level, i, taken, added);
    }
  }

  lemma WholeParts(m: Memory, m2: Memory, n: Frame, level: nat, i: Index, taken: set<Frame>, added: set<Frame>)
    requires 1 <= level <= 4 && Whole(m2, n, level, i + 1, taken + added)
    requires forall p: seq<Index> | 0 < |p| < level && p[0] < i && TableAt(m, n, level, p).Some? ::
               TableAt(m2, n, level, p) == TableAt(m, n, level, p) && TableAt(m, n, level, p).value !in added
    requires forall p: seq<Index> | 0 < |p| < level && p[0] == i && TableAt(m2, n, level, p).Some? ::
            TableAt(m2, n, level, p).value !in taken
    ensures Whole(m, n, level, i, taken) && EntryWhole(m2, n, level, i, added)
  {
  }

  lemma WholeSum(m: Memory, m2: Memory, n: Frame, level: nat, i: Index, taken: set<Frame>, added: set<Frame>)
    requires 1 <= level <= 4 && Whole(m, n, level, i, taken) && EntryWhole(m2, n, level, i, added)
    requires forall p: seq<Index> | |p| < level && Within(p, i) :: TableAt(m2, n, level, p) == TableAt(m, n, level, p)
    ensures Whole(m2, n, level, i + 1, taken + added)
  {
    forall p: seq<Index> | 0 < |p| < level && p[0] < i + 1 && TableAt(m2, n, level, p).Some?
      ensures TableAt(m2, n, level, p).value in taken + added
    {
      assert p[0] < i ==> Within(p, i);
    }
  }

  lemma EarlierNotAdded(m0: Memory, src: Frame, m: Memory, m2: Memory, n: Frame, level: nat, i: Index,
                        taken: set<Frame>, added: set<Frame>, p: seq<Index>)
    requires 1 <= level <= 4 && Step(m0, src, m, m2, n, level, i, taken, added)
    requires 0 < |p| < level && p[0] < i && TableAt(m, n, level, p).Some?
    ensures TableAt(m, n, level, p).value !in added
  {
    var t := TableAt(m, n, level, p);
    assert t.value in taken || t == TableAt(m0, src, level, p);
  }

  lemma EntryNotTaken(m0: Memory, src: Frame, m: Memory, m2: Memory, n: Frame, level: nat, i: Index,
                      taken: set<Frame>, added: set<Frame>, p: seq<Index>)
    requires 1 <= level <= 4 && Step(m0, src, m, m2, n, level, i, taken, added)
    requires EntryCloned(m0, src, m2, n, level, i, added)
    requires 0 < |p| < level && p[0] == i && TableAt(m2, n, level, p).Some?
    ensures TableAt(m2, n, level, p).value !in taken
  {
    var t := TableAt(m2, n, level, p);
    assert t.value in added || t == TableAt(m0, src, level, p);
  }

  /** One more entry copied: the heart of the clone's loop. */
  lemma Extend(m0: Memory, src: Frame, m: Memory, m2: Memory, n: Frame, level: nat, i: Index, taken: set<Frame>,
               added: set<Frame>)
    requires 1 <= level <= 4 && Step(m0, src, m, m2, n, level, i, taken, added)
    requires EntryCloned(m0, src, m2, n, level, i, added)
    ensures Cloned(m0, src, m2, n, level, i + 1, taken + added)
  {
    EarlierSame(m0, src, m, m2, n, level, i, taken, added);
    ExtendOnce(m0, src, m, m2, n, level, i, taken, added);
    ExtendLinked(m0, src, m, m2, n, level, i, taken, added);
    ExtendCopied(m0, src, m, m2, n, level, i, taken, added);
    assert SameMeaning(m0, src, m2, n, level, i + 1) by {
      forall path: seq<Index> | |path| == level && path[0] < i + 1 && Lower(level, path[0])
        ensures Narrows(UserWalk(m0, src, level, path), UserWalk(m2, n, level, path))
      {
        if path[0] < i {
          assert UserWalk(m2, n, level, path) == UserWalk(m, n, level, path);
        }
      }
    }
    assert SameShape(m0, src, m2, n, level, i + 1, taken + added) by {
      forall p: seq<Index> | 0 < |p| < level && p[0] < i + 1
        ensures var t := TableAt(m2, n, level, p);
          t.Some? == TableAt(m0, src, level, p).Some?
            && (t.Some? ==> t.value in taken + added || t == TableAt(m0, src, level, p))
      {
        if p[0] < i {
          assert Within(p, i) && TableAt(m2, n, level, p) == TableAt(m, n, level, p);
        }
      }
    }
  }

  // ---------- the ways one entry is filled ----------

  lemma EntrySkipped(m0: Memory, src: Frame, m: Memory, n: Frame, level: nat, i: Index)
    requires 1 <= level <= 4 && Lower(level, i)
    requires !At(m0, src)[i].UserPresent() && At(m, n)[i] == UNUSED
    ensures EntryCloned(m0, src, m, n, level, i, {})
  {
  }

  lemma EntryUpperHalf(m0: Memory, src: Frame, m: Memory, n: Frame, i: Index)
    requires !Lower(L4, i) && At(m, n)[i] == At(m0, src)[i]
    ensures EntryCloned(m0, src, m, n, L4, i, {})
  {
  }

  lemma EntryLeaf(m0: Memory, src: Frame, m: Memory, n: Frame, level: nat, i: Index)
    requires 1 <= level <= 4 && (level == 1 || At(m0, src)[i].huge)
    requires At(m0, src)[i].UserPresent() && Lower(level, i) && At(m, n)[i] == At(m0, src)[i].ReadOnly()
    ensures EntryCloned(m0, src, m, n, level, i, {})
  {
  }

  lemma SharedWalk(m0: Memory, src: Frame, m: Memory, n: Frame, level: nat, path: seq<Index>)
    requires 2 <= level <= 4 && |path| == level && Lower(level, path[0]) && At(m0, src)[path[0]].Descends(level)
    requires AgreeUnder(m0, m, At(m0, src)[path[0]].addr, level - 1) && At(m, n)[path[0]] == At(m0, src)[path[0]]
    ensures UserWalk(m, n, level, path) == UserWalk(m0, src, level, path)
  {
    AgreeSameWalk(m0, m, At(m0, src)[path[0]].addr, level - 1, path[1..]);
  }

  lemma SharedTable(m0: Memory, src: Frame, m: Memory, n: Frame, level: nat, p: seq<Index>)
    requires 2 <= level <= 4 && 0 < |p| < level && Lower(level, p[0]) && At(m0, src)[p[0]].Descends(level)
    requires AgreeUnder(m0, m, At(m0, src)[p[0]].addr, level - 1) && At(m, n)[p[0]] == At(m0, src)[p[0]]
    ensures TableAt(m, n, level, p) == TableAt(m0, src, level, p)
  {
    AgreeSameTables(m0, m, At(m0, src)[p[0]].addr, level - 1, p[1..]);
  }

  /** Allocation failed: the entry is copied and the subtree below it is shared. */
  lemma EntryShared(m0: Memory, src: Frame, m: Memory, n: Frame, level: nat, i: Index, taken: set<Frame>)
    requires 1 <= level <= 4 && Lower(level, i) && At(m0, src)[i].Descends(level)
    requires Avoids(m0, src, level, taken) && forall g: Frame :: g !in taken ==> At(m, g) == At(m0, g)
    requires At(m, n)[i] == At(m0, src)[i]
    ensures EntryCloned(m0, src, m, n, level, i, {}) && !EntryWhole(m, n, level, i, {})
  {
    ChildUntouched(m0, src, m, level, i, taken);
    assert EntryMeaning(m0, src, m, n, level, i) by {
      forall path: seq<Index> | |path| == level && path[0] == i
        ensures UserWalk(m, n, level, path) == UserWalk(m0, src, level, path)
      {
        SharedWalk(m0, src, m, n, level, path);
      }
    }
    assert EntryShape(m0, src, m, n, level, i, {}) by {
      forall p: seq<Index> | 0 < |p| < level && p[0] == i
        ensures TableAt(m, n, level, p) == TableAt(m0, src, level, p)
      {
        SharedTable(m0, src, m, n, level, p);
      }
    }
    assert TableAt(m, n, level, [i]) == Some(At(m0, src)[i].addr);
  }

  /** Linking the copy `c` of a subtree into `n` leaves the copy as the recursive call made it. */
  lemma LinkKeepsSubtree(m: Memory, child: Frame, m1: Memory, c: Frame, m2: Memory, n: Frame, level: nat,
                         taken: set<Frame>, added: set<Frame>)
    requires 1 <= level <= 3 && Cloned(m, child, m1, c, level, 512, added)
    requires Avoids(m, child, level, taken) && n in taken && taken !! added
    requires forall g: Frame :: g != n ==> At(m2, g) == At(m1, g)
    ensures AgreeUnder(m1, m2, c, level)
  {
    forall p: seq<Index> | |p| < level && TableAt(m1, c, level, p).Some?
      ensures TableAt(m1, c, level, p).value != n
    {
      if p != [] {
        assert TableAt(m, child, level, p).Some?;
      }
    }
  }

  lemma EntrySubtreePath(m0: Memory, src: Frame, m: Memory, m1: Memory, c: Frame, m2: Memory, n: Frame, level: nat,
                         p: seq<Index>)
    requires 2 <= level <= 4 && 0 < |p| < level && Lower(level, p[0]) && At(m0, src)[p[0]].Descends(level)
    requires AgreeUnder(m0, m, At(m0, src)[p[0]].addr, level - 1) && AgreeUnder(m1, m2, c, level - 1)
    requires At(m2, n)[p[0]] == At(m0, src)[p[0]].(addr := c)
    ensures TableAt(m0, src, level, p) == TableAt(m, At(m0, src)[p[0]].addr, level - 1, p[1..])
    ensures TableAt(m2, n, level, p) == TableAt(m1, c, level - 1, p[1..])
  {
    AgreeSameTables(m0, m, At(m0, src)[p[0]].addr, level - 1, p[1..]);
    AgreeSameTables(m1, m2, c, level - 1, p[1..]);
  }

  lemma EntrySubtreePaths(m0: Memory, src: Frame, m: Memory, m1: Memory, c: Frame, m2: Memory, n: Frame, level: nat,
                          i: Index)
    requires 2 <= level <= 4 && Lower(level, i) && At(m0, src)[i].Descends(level)
    requires AgreeUnder(m0, m, At(m0, src)[i].addr, level - 1) && AgreeUnder(m1, m2, c, level - 1)
    requires At(m2, n)[i] == At(m0, src)[i].(addr := c)
    ensures forall p: seq<Index> | 0 < |p| < level && p[0] == i ::
            TableAt(m0, src, level, p) == TableAt(m, At(m0, src)[i].addr, level - 1, p[1..])
    ensures forall p: seq<Index> | 0 < |p| < level && p[0] == i ::
            TableAt(m2, n, level, p) == TableAt(m1, c, level - 1, p[1..])
  {
    forall p: seq<Index> | 0 < |p| < level && p[0] == i
      ensures TableAt(m0, src, level, p) == TableAt(m, At(m0, src)[i].addr, level - 1, p[1..])
      ensures TableAt(m2, n, level, p) == TableAt(m1, c, level - 1, p[1..])
    {
      EntrySubtreePath(m0, src, m, m1, c, m2, n, level, p);
    }
  }

  lemma EntrySubtreeWalk(m0: Memory, src: Frame, m: Memory, m1: Memory, c: Frame, m2: Memory, n: Frame, level: nat,
                         path: seq<Index>)
    requires 2 <= level <= 4 && |path| == level && Lower(level, path[0]) && At(m0, src)[path[0]].Descends(level)
    requires AgreeUnder(m0, m, At(m0, src)[path[0]].addr, level - 1) && AgreeUnder(m1, m2, c, level - 1)
    requires At(m2, n)[path[0]] == At(m0, src)[path[0]].(addr := c)
    ensures UserWalk(m0, src, level, path) == UserWalk(m, At(m0, src)[path[0]].addr, level - 1, path[1..])
    ensures UserWalk(m2, n, level, path) == UserWalk(m1, c, level - 1, path[1..])
  {
    AgreeSameWalk(m0, m, At(m0, src)[path[0]].addr, level - 1, path[1..]);
    AgreeSameWalk(m1, m2, c, level - 1, path[1..]);
  }

  lemma EntrySubtreeMeaning(m0: Memory, src: Frame, m: Memory, m1: Memory, c: Frame, m2: Memory, n: Frame,
                            level: nat, i: Index)
    requires 2 <= level <= 4 && Lower(level, i) && At(m0, src)[i].Descends(level)
    requires AgreeUnder(m0, m, At(m0, src)[i].addr, level - 1) && AgreeUnder(m1, m2, c, level - 1)
    requires At(m2, n)[i] == At(m0, src)[i].(addr := c)
    requires SameMeaning(m, At(m0, src)[i].addr, m1, c, level - 1, 512)
    ensures EntryMeaning(m0, src, m2, n, level, i)
  {
    forall path: seq<Index> | |path| == level && path[0] == i
      ensures Narrows(UserWalk(m0, src, level, path), UserWalk(m2, n, level, path))
    {
      EntrySubtreeWalk(m0, src, m, m1, c, m2, n, level, path);
      var rest := path[1..];
      assert rest[0] < 512 && Lower(level - 1, rest[0]);
    }
  }

  lemma EntrySubtreeShape(m0: Memory, src: Frame, m: Memory, child: Frame, m1: Memory, c: Frame, m2: Memory,
                          n: Frame, level: nat, i: Index, added: set<Frame>)
    requires 2 <= level <= 4 && c in added && SameShape(m, child, m1, c, level - 1, 512, added)
    requires forall p: seq<Index> | 0 < |p| < level && p[0] == i ::
            TableAt(m0, src, level, p) == TableAt(m, child, level - 1, p[1..])
    requires forall p: seq<Index> | 0 < |p| < level && p[0] == i ::
            TableAt(m2, n, level, p) == TableAt(m1, c, level - 1, p[1..])
    ensures EntryShape(m0, src, m2, n, level, i, added)
  {
    forall p: seq<Index> | 0 < |p| < level && p[0] == i
      ensures var t := TableAt(m2, n, level, p);
        t.Some? == TableAt(m0, src, level, p).Some? && (t.Some? ==> t.value in added || t == TableAt(m0, src, level, p))
    {
      if |p| > 1 {
        assert p[1..][0] < 512;
      }
    }
  }

  lemma EntrySubtreeWhole(m1: Memory, c: Frame, m2: Memory, n: Frame, level: nat, i: Index, added: set<Frame>)
    requires 2 <= level <= 4 && c in added
    requires forall p: seq<Index> | 0 < |p| < level && p[0] == i ::
            TableAt(m2, n, level, p) == TableAt(m1, c, level - 1, p[1..])
    ensures EntryWhole(m2, n, level, i, added) <==> Whole(m1, c, level - 1, 512, added)
  {
    forall q: seq<Index> | |q| < level - 1
      ensures TableAt(m2, n, level, [i] + q) == TableAt(m1, c, level - 1, q)
    {
      assert ([i] + q)[1..] == q;
    }
    if Whole(m1, c, level - 1, 512, added) {
      forall p: seq<Index> | 0 < |p| < level && p[0] == i && TableAt(m2, n, level, p).Some?
        ensures TableAt(m2, n, level, p).value in added
      {
        var q := p[1..];
        assert q != [] ==> q[0] < 512;
      }
    }
  }

  lemma EntrySubtreeCopied(m0: Memory, src: Frame, m: Memory, m1: Memory, c: Frame, m2: Memory, n: Frame, level: nat,
                           added: set<Frame>, p: seq<Index>)
    requires 2 <= level <= 4 && 0 < |p| < level && Lower(level, p[0]) && At(m0, src)[p[0]].Descends(level)
    requires AgreeUnder(m0, m, At(m0, src)[p[0]].addr, level - 1) && AgreeUnder(m1, m2, c, level - 1)
    requires At(m2, n)[p[0]] == At(m0, src)[p[0]].(addr := c)
    requires Cloned(m, At(m0, src)[p[0]].addr, m1, c, level - 1, 512, added)
    ensures CopiedAt(m0, src, m2, n, level, added, p)
  {
    var child, q := At(m0, src)[p[0]].addr, p[1..];
    EntrySubtreePath(m0, src, m, m1, c, m2, n, level, p);
    var t := TableAt(m1, c, level - 1, q);
    if t.Some? && t.value in added {
      assert At(m2, t.value) == At(m1, t.value);
      if q == [] {
        assert TableAt(m0, child, level - 1, []) == Some(child);
        assert At(m, child) == At(m0, child);
      } else {
        assert q[0] < 512;
        assert CopiedAt(m, child, m1, c, level - 1, added, q);
        AgreeSameTables(m0, m, child, level - 1, q);
        assert At(m, TableAt(m, child, level - 1, q).value) == At(m0, TableAt(m, child, level - 1, q).value);
      }
    }
  }

  lemma EntrySubtreeTables(m0: Memory, src: Frame, m: Memory, m1: Memory, c: Frame, m2: Memory, n: Frame, level: nat,
                           i: Index, added: set<Frame>)
    requires 2 <= level <= 4 && Lower(level, i) && At(m0, src)[i].Descends(level)
    requires AgreeUnder(m0, m, At(m0, src)[i].addr, level - 1) && AgreeUnder(m1, m2, c, level - 1)
    requires At(m2, n)[i] == At(m0, src)[i].(addr := c)
    requires Cloned(m, At(m0, src)[i].addr, m1, c, level - 1, 512, added)
    ensures EntryTables(m0, src, m2, n, level, i, added)
  {
    forall p: seq<Index> | 0 < |p| < level && p[0] == i
      ensures CopiedAt(m0, src, m2, n, level, added, p)
    {
      EntrySubtreeCopied(m0, src, m, m1, c, m2, n, level, added, p);
    }
  }

  lemma EntrySubtreeCore(m0: Memory, src: Frame, m: Memory, m1: Memory, c: Frame, m2: Memory, n: Frame, level: nat,
                         i: Index, added: set<Frame>)
    requires 2 <= level <= 4 && Lower(level, i) && At(m0, src)[i].Descends(level) && c in added
    requires AgreeUnder(m0, m, At(m0, src)[i].addr, level - 1) && AgreeUnder(m1, m2, c, level - 1)
    requires At(m2, n)[i] == At(m0, src)[i].(addr := c)
    requires SameMeaning(m, At(m0, src)[i].addr, m1, c, level - 1, 512)
    requires SameShape(m, At(m0, src)[i].addr, m1, c, level - 1, 512, added)
    requires LinkedAtMostOnce(m1, c, level - 1, 512, added)
    requires forall f {:trigger Linked(m1, c, level - 1, 512, f)} :: f in added ==> Linked(m1, c, level - 1, 512, f)
    requires EntryTables(m0, src, m2, n, level, i, added)
    ensures EntryCloned(m0, src, m2, n, level, i, added)
    ensures EntryWhole(m2, n, level, i, added) <==> Whole(m1, c, level - 1, 512, added)
  {
    assert EntryMeaning(m0, src, m2, n, level, i) by {
      EntrySubtreeMeaning(m0, src, m, m1, c, m2, n, level, i);
    }
    EntrySubtreePaths(m0, src, m, m1, c, m2, n, level, i);
    assert EntryShape(m0, src, m2, n, level, i, added) by {
      EntrySubtreeShape(m0, src, m, At(m0, src)[i].addr, m1, c, m2, n, level, i, added);
    }
    assert EntryLinks(m2, n, level, i, added) by {
      EntrySubtreeLinks(m1, c, m2, n, level, i, added);
    }
    EntrySubtreeWhole(m1, c, m2, n, level, i, added);
  }

  lemma EntrySubtreeFrame(m0: Memory, src: Frame, m: Memory, m1: Memory, c: Frame, m2: Memory, n: Frame, level: nat,
                          i: Index, taken: set<Frame>, added: set<Frame>)
    requires 2 <= level <= 4 && Lower(level, i) && At(m0, src)[i].Descends(level)
    requires Avoids(m0, src, level, taken) && forall g: Frame :: g !in taken ==> At(m, g) == At(m0, g)
    requires n in taken && taken !! added
    requires Cloned(m, At(m0, src)[i].addr, m1, c, level - 1, 512, added)
    requires forall g: Frame :: g != n ==> At(m2, g) == At(m1, g)
    ensures AgreeUnder(m0, m, At(m0, src)[i].addr, level - 1) && AgreeUnder(m1, m2, c, level - 1)
  {
    ChildUntouched(m0, src, m, level, i, taken);
    LinkKeepsSubtree(m, At(m0, src)[i].addr, m1, c, m2, n, level - 1, taken, added);
  }

  /** Frames taken so far are not in the subtree about to be copied. */
  lemma ChildUntouched(m0: Memory, src: Frame, m: Memory, level: nat, i: Index, taken: set<Frame>)
    requires 2 <= level <= 4 && Lower(level, i) && At(m0, src)[i].Descends(level)
    requires Avoids(m0, src, level, taken) && forall g: Frame :: g !in taken ==> At(m, g) == At(m0, g)
    ensures AgreeUnder(m0, m, At(m0, src)[i].addr, level - 1) && Avoids(m, At(m0, src)[i].addr, level - 1, taken)
  {
    var child := At(m0, src)[i].addr;
    assert Avoids(m0, child, level - 1, taken) by { AvoidsChild(m0, src, level, i, taken); }
    assert AgreeUnder(m0, m, child, level - 1) by { AvoidsAgrees(m0, m, child, level - 1, taken); }
    SubtreeAvoids(m0, m, child, level - 1, taken);
  }

  /** The recursive call succeeded: the entry links the copied subtree. */
  lemma EntrySubtree(m0: Memory, src: Frame, m: Memory, m1: Memory, c: Frame, m2: Memory, n: Frame, level: nat,
                     i: Index, taken: set<Frame>, added: set<Frame>)
    requires 2 <= level <= 4 && Lower(level, i) && At(m0, src)[i].Descends(level)
    requires Avoids(m0, src, level, taken) && forall g: Frame :: g !in taken ==> At(m, g) == At(m0, g)
    requires n in taken && taken !! added
    requires Cloned(m, At(m0, src)[i].addr, m1, c, level - 1, 512, added)
    requires forall g: Frame :: g != n ==> At(m2, g) == At(m1, g)
    requires At(m2, n)[i] == At(m0, src)[i].(addr := c)
    ensures EntryCloned(m0, src, m2, n, level, i, added)
    ensures EntryWhole(m2, n, level, i, added) <==> Whole(m1, c, level - 1, 512, added)
  {
    EntrySubtreeFrame(m0, src, m, m1, c, m2, n, level, i, taken, added);
    EntrySubtreeTables(m0, src, m, m1, c, m2, n, level, i, added);
    EntrySubtreeCore(m0, src, m, m1, c, m2, n, level, i, added);
  }

  lemma SubtreeAvoids(m0: Memory, m: Memory, f: Frame, level: nat, taken: set<Frame>)
    requires 1 <= level <= 4 && AgreeUnder(m0, m, f, level) && Avoids(m0, f, level, taken)
    ensures Avoids(m, f, level, taken)
  {
    forall p: seq<Index> | |p| < level
      ensures TableAt(m, f, level, p) == TableAt(m0, f, level, p)
    {
      AgreeSameTables(m0, m, f, level, p);
    }
  }

  lemma EntrySubtreeLinks(m1: Memory, c: Frame, m2: Memory, n: Frame, level: nat, i: Index, added: set<Frame>)
    requires 2 <= level <= 4
    requires LinkedAtMostOnce(m1, c, level - 1, 512, added)
    requires forall f {:trigger Linked(m1, c, level - 1, 512, f)} :: f in added ==> Linked(m1, c, level - 1, 512, f)
    requires forall p: seq<Index> | 0 < |p| < level && p[0] == i ::
            TableAt(m2, n, level, p) == TableAt(m1, c, level - 1, p[1..])
    ensures EntryLinks(m2, n, level, i, added)
  {
    forall p: seq<Index>, q: seq<Index> | 0 < |p| < level && 0 < |q| < level && p[0] == q[0] == i
        && TableAt(m2, n, level, p).Some? && TableAt(m2, n, level, p) == TableAt(m2, n, level, q)
             && TableAt(m2, n, level, p).value in added
      ensures p == q
    {
      assert TableAt(m1, c, level - 1, p[1..]) == TableAt(m1, c, level - 1, q[1..]);
      assert p == [i] + p[1..] && q == [i] + q[1..];
    }
    forall f | f in added
      ensures LinkedVia(m2, n, level, i, f)
    {
      assert Linked(m1, c, level - 1, 512, f);
      var q: seq<Index> :| |q| < level - 1 && Within(q, 512) && TableAt(m1, c, level - 1, q) == Some(f);
      var p: seq<Index> := [i] + q;
      assert p[1..] == q;
      assert TableAt(m2, n, level, p) == Some(f);
    }
  }

  // ---------- the allocator's answers ----------

  /** One answer used up: its frame will not be handed out again. */
  lemma FramesNext(s: Supply)
    requires s != [] && NoRepeats(s)
    ensures NoRepeats(s[1..])
    ensures s[0].None? ==> FramesOf(s[1..]) == FramesOf(s)
    ensures s[0].Some? ==> s[0].value in FramesOf(s) && FramesOf(s[1..]) == FramesOf(s) - {s[0].value}
  {
    assert s == [s[0]] + s[1..];
    if s[0].Some? {
      assert forall j :: 0 < j < |s| ==> s[j] != s[0];
    }
  }

  lemma AvoidsLess(m: Memory, f: Frame, level: nat, s: set<Frame>, t: set<Frame>)
    requires 1 <= level <= 4 && Avoids(m, f, level, s) && t <= s
    ensures Avoids(m, f, level, t)
  {
  }

  /** The state right after the root of a copy was allocated. */
  lemma ClonedNothing(m0: Memory, src: Frame, n: Frame, level: nat)
    requires 1 <= level <= 4
    ensures Cloned(m0, src, m0[n := EmptyTable()], n, level, 0, {n})
  {
    assert TableAt(m0[n := EmptyTable()], n, level, []) == Some(n);
    assert Linked(m0[n := EmptyTable()], n, level, 0, n);
  }

  // ---------- the kernel's operations ----------

  class Kernel {
    var mem: Memory
    var supply: Supply
    ghost var failures: nat // of the allocator, so far

    constructor (m: Memory, s: Supply)
      ensures mem == m && supply == s && failures == 0
    {
      mem, supply, failures := m, s, 0;
    }

    /** The buddy allocator zeroes the page it hands out. */
    method AllocateFrame() returns (r: Option<Frame>)
      modifies this
      ensures r == if old(supply) == [] then None else old(supply)[0]
      ensures supply == if old(supply) == [] then [] else old(supply)[1..]
      ensures mem == if r.None? then old(mem) else old(mem)[r.value := EmptyTable()]
      ensures failures == old(failures) + if r.None? then 1 else 0
    {
      if supply == [] {
        r := None;
      } else {
        r := supply[0];
        supply := supply[1..];
      }
      if r.Some? {
        mem := mem[r.value := EmptyTable()];
      } else {
        failures := failures + 1;
      }
    }

    method SetEntry(f: Frame, i: Index, e: Entry)
      modifies `mem
      ensures mem == old(mem)[f := At(old(mem), f)[i := e]]
    {
      mem := mem[f := At(mem, f)[i := e]];
    }

    // The four nested loops of the read-only pass, innermost first. `l` is
    // where WRITABLE has been cleared already.

    method ReadOnlyL1(f: Frame, ghost m0: Memory, ghost l: iset<Loc>)
      requires Cleared(m0, mem, l)
      modifies `mem
      ensures Cleared(m0, mem, l + UserLeaves(m0, f, L1))
    {
      var i := 0;
      while i < 512
        invariant i <= 512 && Cleared(m0, mem, l + LeavesBefore(m0, f, L1, i))
      {
        LeafEntry(m0, mem, l, f, i);
        var e := At(mem, f)[i];
        if e.present && e.user && e.writable {
          SetEntry(f, i, e.ReadOnly());
        }
        i := i + 1;
      }
      LeavesBeforeAll(m0, f, L1, 512);
    }

    method ReadOnlyL2(f: Frame, ghost m0: Memory, ghost l: iset<Loc>)
      requires Cleared(m0, mem, l)
      modifies `mem
      ensures Cleared(m0, mem, l + UserLeaves(m0, f, L2))
    {
      var i := 0;
      while i < 512
        invariant i <= 512 && Cleared(m0, mem, l + LeavesBefore(m0, f, L2, i))
      {
        var e := At(mem, f)[i];
        ClearedEntry(m0, mem, l + LeavesBefore(m0, f, L2, i), f, i);
        if e.present && e.user && !e.huge {
          ReadOnlyL1(e.addr, m0, l + LeavesBefore(m0, f, L2, i));
          VisitedEntry(m0, mem, l, f, L2, i);
        } else {
          SkipEntry(m0, mem, l, f, L2, i);
        }
        i := i + 1;
      }
      LeavesBeforeAll(m0, f, L2, 512);
    }

    method ReadOnlyL3(f: Frame, ghost m0: Memory, ghost l: iset<Loc>)
      requires Cleared(m0, mem, l)
      modifies `mem
      ensures Cleared(m0, mem, l + UserLeaves(m0, f, L3))
    {
      var i := 0;
      while i < 512
        invariant i <= 512 && Cleared(m0, mem, l + LeavesBefore(m0, f, L3, i))
      {
        var e := At(mem, f)[i];
        ClearedEntry(m0, mem, l + LeavesBefore(m0, f, L3, i), f, i);
        if e.present && e.user && !e.huge {
          ReadOnlyL2(e.addr, m0, l + LeavesBefore(m0, f, L3, i));
          VisitedEntry(m0, mem, l, f, L3, i);
        } else {
          SkipEntry(m0, mem, l, f, L3, i);
        }
        i := i + 1;
      }
      LeavesBeforeAll(m0, f, L3, 512);
    }

    /** Clears WRITABLE on exactly the present user L1 entries of the lower half. */
    method MakeUserLeafReadOnly(root: Frame)
      modifies `mem
      ensures Cleared(old(mem), mem, UserLeaves(old(mem), root, L4))
    {
      ghost var m0, l: iset<Loc> := mem, iset{};
      var i := 0;
      while i < 256
        invariant i <= 256 && Cleared(m0, mem, l + LeavesBefore(m0, root, L4, i))
      {
        var e := At(mem, root)[i];
        ClearedEntry(m0, mem, l + LeavesBefore(m0, root, L4, i), root, i);
        if e.present && e.user && !e.huge {
          ReadOnlyL3(e.addr, m0, l + LeavesBefore(m0, root, L4, i));
          VisitedEntry(m0, mem, l, root, L4, i);
        } else {
          SkipEntry(m0, mem, l, root, L4, i);
        }
        i := i + 1;
      }
      LeavesBeforeAll(m0, root, L4, 256);
      assert l + UserLeaves(m0, root, L4) == UserLeaves(m0, root, L4);
    }

    /** Fork: read-only pass over the parent, then the clone. `mid` is the memory
        between the two, `taken` the frames drawn from the allocator. */
    method CowForkParent(root: Frame) returns (child: Option<Frame>, ghost mid: Memory, ghost taken: set<Frame>)
      requires NoRepeats(supply) && Avoids(mem, root, L4, FramesOf(supply))
      modifies this
      ensures Cleared(old(mem), mid, UserLeaves(old(mem), root, L4)) && Avoids(mid, root, L4, taken)
      ensures taken == FramesOf(old(supply)) - FramesOf(supply)
      ensures NoRepeats(supply) && FramesOf(supply) <= FramesOf(old(supply))
      ensures Avoids(mem, root, L4, FramesOf(supply))
      ensures (child.Some? ==> Avoids(mem, child.value, L4, FramesOf(supply)))
      ensures child.None? <==> old(supply) == [] || old(supply)[0].None?
      ensures child.None? ==> mem == mid && taken == {}
      ensures child.Some? ==> Forked(old(mem), mid, mem, root, child.value, taken)
      ensures child.Some? ==> (Whole(mem, child.value, L4, 512, taken) <==> failures == old(failures))
    {
      ghost var m0, avail := mem, FramesOf(supply);
      MakeUserLeafReadOnly(root);
      mid := mem;
      ClearedAvoids(m0, mid, UserLeaves(m0, root, L4), root, avail);
      child := CloneUserTableTree(root, L4);
      taken := avail - FramesOf(supply);
      AvoidsLess(mid, root, L4, avail, taken);
      AvoidsLess(mid, root, L4, avail, FramesOf(supply));
      if child.Some? {
        AvoidsLess(m0, root, L4, avail, FramesOf(supply));
        ParentAvoids(m0, mid, mem, root, child.value, taken, FramesOf(supply));
        ChildAvoids(m0, mid, mem, root, child.value, taken, FramesOf(supply));
      }
    }

    /** Copies the user part of the tree at `src`; the frames used are those that
        have left the supply. It fails only if there is no frame for the root. */
    method CloneUserTableTree(src: Frame, level: nat) returns (r: Option<Frame>)
      requires 1 <= level <= 4
      requires NoRepeats(supply) && Avoids(mem, src, level, FramesOf(supply))
      modifies this
      ensures NoRepeats(supply) && FramesOf(supply) <= FramesOf(old(supply))
      ensures r.None? <==> old(supply) == [] || old(supply)[0].None?
      ensures r.None? ==> mem == old(mem) && FramesOf(supply) == FramesOf(old(supply))
      ensures r.Some? ==> r == old(supply)[0]
      ensures r.Some? ==> Cloned(old(mem), src, mem, r.value, level, 512, FramesOf(old(supply)) - FramesOf(supply))
      ensures r.None? ==> failures == old(failures) + 1
      ensures r.Some? ==> failures >= old(failures)
      ensures r.Some? ==>
                var taken := FramesOf(old(supply)) - FramesOf(supply);
                Whole(mem, r.value, level, 512, taken) <==> failures == old(failures)
      decreases level
    {
      ghost var m0, avail := mem, FramesOf(supply);
      if supply != [] { FramesNext(supply); }
      r := AllocateFrame();
      if r.None? {
        return;
      }
      var n := r.value;
      ClonedNothing(m0, src, n, level);
      ghost var taken := {n};
      var i := 0;
      while i < 512
        invariant i <= 512 && Drawn(supply, avail, taken) && Ready(m0, src, mem, n, level, i, avail, taken)
        invariant failures >= old(failures) && (Whole(mem, n, level, i, taken) <==> failures == old(failures))
      {
        taken := CloneEntry(src, n, level, i, m0, avail, taken);
        i := i + 1;
      }
      assert taken == avail - FramesOf(supply);
    }

    /** One iteration of the loop of CloneUserTableTree. */
    method CloneEntry(src: Frame, n: Frame, level: nat, i: Index, ghost m0: Memory, ghost avail: set<Frame>,
                      ghost taken: set<Frame>) returns (ghost taken': set<Frame>)
      requires 1 <= level <= 4 && Ready(m0, src, mem, n, level, i, avail, taken) && Drawn(supply, avail, taken)
      modifies this
      ensures Drawn(supply, avail, taken') && Ready(m0, src, mem, n, level, i + 1, avail, taken')
      ensures failures >= old(failures)
      ensures Whole(mem, n, level, i + 1, taken') <==> old(Whole(mem, n, level, i, taken)) && failures == old(failures)
      decreases level, 1
    {
      taken' := taken;
      ghost var m := mem;
      assert At(mem, src) == At(m0, src) by { SourceIntact(m0, src, mem, level, avail, taken); }
      var e := At(mem, src)[i];
      if level == 4 && i >= 256 {
        SetEntry(n, i, e);
        UpperHalfStep(m0, src, m, mem, n, i, avail, taken);
      } else if !e.present || !e.user {
        SkippedStep(m0, src, mem, n, level, i, avail, taken);
      } else if (level > 1 && e.huge) || level == 1 {
        SetEntry(n, i, if e.writable then e.ReadOnly() else e);
        LeafStep(m0, src, m, mem, n, level, i, avail, taken);
      } else {
        taken' := CloneSubtree(src, n, level, i, e, m0, avail, taken);
      }
    }

    /** The table case of the iteration: copy the subtree, or share it when no frame is left. */
    method CloneSubtree(ghost src: Frame, n: Frame, level: nat, i: Index, e: Entry, ghost m0: Memory,
                        ghost avail: set<Frame>, ghost taken: set<Frame>) returns (ghost taken': set<Frame>)
      requires 2 <= level <= 4 && Ready(m0, src, mem, n, level, i, avail, taken) && Drawn(supply, avail, taken)
      requires e == At(m0, src)[i] && Lower(level, i) && e.Descends(level)
      modifies this
      ensures Drawn(supply, avail, taken') && Ready(m0, src, mem, n, level, i + 1, avail, taken')
      ensures failures >= old(failures)
      ensures Whole(mem, n, level, i + 1, taken') <==> old(Whole(mem, n, level, i, taken)) && failures == old(failures)
      decreases level, 0
    {
      ghost var m, rest := mem, FramesOf(supply);
      CallReady(m0, src, mem, level, i, avail, taken, rest);
      var c := CloneUserTableTree(e.addr, level - 1);
      ghost var m1, added := mem, rest - FramesOf(supply);
      taken' := taken + added;
      if c.Some? {
        SetEntry(n, i, e.(addr := c.value));
        SubtreeStep(m0, src, m, m1, c.value, mem, n, level, i, avail, taken, added);
      } else {
        SetEntry(n, i, e);
        SharedStep(m0, src, m, mem, n, level, i, avail, taken);
        assert taken' == taken;
      }
    }
  }

  // ---------- one iteration of the copying loop ----------

  /** Of the frames available at the start, `taken` are in use and the others still in the supply. */
  ghost predicate Drawn(supply: Supply, avail: set<Frame>, taken: set<Frame>) {
    NoRepeats(supply) && taken <= avail && FramesOf(supply) == avail - taken
  }

  ghost predicate Ready(m0: Memory, src: Frame, m: Memory, n: Frame, level: nat, i: nat, avail: set<Frame>,
                        taken: set<Frame>)
    requires 1 <= level <= 4
  {
    i <= 512 && taken <= avail && Avoids(m0, src, level, avail) && Cloned(m0, src, m, n, level, i, taken)
  }

  /** Copying so far has not written the original. */
  lemma SourceIntact(m0: Memory, src: Frame, m: Memory, level: nat, avail: set<Frame>, taken: set<Frame>)
    requires 1 <= level <= 4 && taken <= avail && Avoids(m0, src, level, avail)
    requires forall g: Frame :: g !in taken ==> At(m, g) == At(m0, g)
    ensures At(m, src) == At(m0, src) && Avoids(m0, src, level, taken)
  {
    assert TableAt(m0, src, level, []) == Some(src);
  }

  lemma UpperHalfStep(m0: Memory, src: Frame, m: Memory, m2: Memory, n: Frame, i: Index, avail: set<Frame>,
                      taken: set<Frame>)
    requires Ready(m0, src, m, n, L4, i, avail, taken) && !Lower(L4, i)
    requires m2 == m[n := At(m, n)[i := At(m0, src)[i]]]
    ensures Ready(m0, src, m2, n, L4, i + 1, avail, taken)
    ensures Whole(m2, n, L4, i + 1, taken) <==> Whole(m, n, L4, i, taken)
  {
    SourceIntact(m0, src, m, L4, avail, taken);
    EntryUpperHalf(m0, src, m2, n, i);
    Extend(m0, src, m, m2, n, L4, i, taken, {});
    ExtendWhole(m0, src, m, m2, n, L4, i, taken, {});
    assert taken + {} == taken;
  }

  lemma SkippedStep(m0: Memory, src: Frame, m: Memory, n: Frame, level: nat, i: Index, avail: set<Frame>,
                    taken: set<Frame>)
    requires 1 <= level <= 4 && Ready(m0, src, m, n, level, i, avail, taken)
    requires Lower(level, i) && !At(m0, src)[i].UserPresent()
    ensures Ready(m0, src, m, n, level, i + 1, avail, taken)
    ensures Whole(m, n, level, i + 1, taken) <==> Whole(m, n, level, i, taken)
  {
    SourceIntact(m0, src, m, level, avail, taken);
    EntrySkipped(m0, src, m, n, level, i);
    Extend(m0, src, m, m, n, level, i, taken, {});
    ExtendWhole(m0, src, m, m, n, level, i, taken, {});
    assert taken + {} == taken;
  }

  lemma LeafStep(m0: Memory, src: Frame, m: Memory, m2: Memory, n: Frame, level: nat, i: Index, avail: set<Frame>,
                 taken: set<Frame>)
    requires 1 <= level <= 4 && Ready(m0, src, m, n, level, i, avail, taken)
    requires Lower(level, i) && At(m0, src)[i].UserPresent() && (level == 1 || At(m0, src)[i].huge)
    requires m2 == m[n := At(m, n)[i := At(m0, src)[i].ReadOnly()]]
    ensures Ready(m0, src, m2, n, level, i + 1, avail, taken)
    ensures Whole(m2, n, level, i + 1, taken) <==> Whole(m, n, level, i, taken)
  {
    SourceIntact(m0, src, m, level, avail, taken);
    EntryLeaf(m0, src, m2, n, level, i);
    Extend(m0, src, m, m2, n, level, i, taken, {});
    ExtendWhole(m0, src, m, m2, n, level, i, taken, {});
    assert taken + {} == taken;
  }

  lemma SharedStep(m0: Memory, src: Frame, m: Memory, m2: Memory, n: Frame, level: nat, i: Index, avail: set<Frame>,
                   taken: set<Frame>)
    requires 1 <= level <= 4 && Ready(m0, src, m, n, level, i, avail, taken)
    requires Lower(level, i) && At(m0, src)[i].Descends(level)
    requires m2 == m[n := At(m, n)[i := At(m0, src)[i]]]
    ensures Ready(m0, src, m2, n, level, i + 1, avail, taken)
    ensures !Whole(m2, n, level, i + 1, taken)
  {
    SourceIntact(m0, src, m, level, avail, taken);
    EntryShared(m0, src, m2, n, level, i, taken);
    Extend(m0, src, m, m2, n, level, i, taken, {});
    ExtendWhole(m0, src, m, m2, n, level, i, taken, {});
    assert taken + {} == taken;
  }

  lemma SubtreeStep(m0: Memory, src: Frame, m: Memory, m1: Memory, c: Frame, m2: Memory, n: Frame, level: nat,
                    i: Index, avail: set<Frame>, taken: set<Frame>, added: set<Frame>)
    requires 2 <= level <= 4 && Ready(m0, src, m, n, level, i, avail, taken) && added <= avail - taken
    requires Lower(level, i) && At(m0, src)[i].Descends(level)
    requires Cloned(m, At(m0, src)[i].addr, m1, c, level - 1, 512, added)
    requires m2 == m1[n := At(m1, n)[i := At(m0, src)[i].(addr := c)]]
    ensures Ready(m0, src, m2, n, level, i + 1, avail, taken + added)
    ensures Whole(m2, n, level, i + 1, taken + added) <==>
            Whole(m, n, level, i, taken) && Whole(m1, c, level - 1, 512, added)
  {
    SourceIntact(m0, src, m, level, avail, taken);
    EntrySubtree(m0, src, m, m1, c, m2, n, level, i, taken, added);
    AvoidsLess(m0, src, level, avail, taken + added);
    Extend(m0, src, m, m2, n, level, i, taken, added);
    ExtendWhole(m0, src, m, m2, n, level, i, taken, added);
  }

  /** What the recursive call needs holds of the subtree in the memory built so far. */
  lemma CallReady(m0: Memory, src: Frame, m: Memory, level: nat, i: Index, avail: set<Frame>, taken: set<Frame>,
                  rest: set<Frame>)
    requires 2 <= level <= 4 && taken <= avail && rest <= avail && Avoids(m0, src, level, avail)
    requires forall g: Frame :: g !in taken ==> At(m, g) == At(m0, g)
    requires Lower(level, i) && At(m0, src)[i].Descends(level)
    ensures Avoids(m, At(m0, src)[i].addr, level - 1, rest)
  {
    var c := At(m0, src)[i].addr;
    assert Avoids(m0, src, level, taken) by { AvoidsLess(m0, src, level, avail, taken); }
    assert AgreeUnder(m0, m, c, level - 1) by { ChildUntouched(m0, src, m, level, i, taken); }
    assert Avoids(m0, c, level - 1, rest) by {
      AvoidsChild(m0, src, level, i, avail);
      AvoidsLess(m0, c, level - 1, avail, rest);
    }
    SubtreeAvoids(m0, m, c, level - 1, rest);
  }

  lemma ClearedAvoids(m: Memory, n: Memory, l: iset<Loc>, f: Frame, s: set<Frame>)
    requires Cleared(m, n, l) && Avoids(m, f, L4, s)
    ensures Avoids(n, f, L4, s)
  {
    forall p: seq<Index> | |p| < 4
      ensures TableAt(n, f, L4, p) == TableAt(m, f, L4, p)
    {
      ClearedSameTables(m, n, l, f, L4, p);
    }
  }

  // ---------- what a fork guarantees ----------

  /** The three memories of a successful fork: before, after the read-only pass, after the clone. */
  ghost predicate Forked(before: Memory, mid: Memory, after: Memory, root: Frame, child: Frame, taken: set<Frame>) {
    && Cleared(before, mid, UserLeaves(before, root, L4))
    && Cloned(mid, root, after, child, L4, 512, taken)
    && Avoids(mid, root, L4, taken)
  }

  /** The frames still free are no tables of the child. */
  lemma ChildAvoids(before: Memory, mid: Memory, after: Memory, root: Frame, child: Frame, taken: set<Frame>,
                    s: set<Frame>)
    requires Forked(before, mid, after, root, child, taken) && Avoids(before, root, L4, s) && s !! taken
    ensures Avoids(after, child, L4, s)
  {
    ClearedAvoids(before, mid, UserLeaves(before, root, L4), root, s);
    forall p: seq<Index> | |p| < 4 && TableAt(after, child, L4, p).Some?
      ensures TableAt(after, child, L4, p).value !in s
    {
      assert p != [] ==> p[0] < 512;
    }
  }

  /** Nor of the parent. */
  lemma ParentAvoids(before: Memory, mid: Memory, after: Memory, root: Frame, child: Frame, taken: set<Frame>,
                     s: set<Frame>)
    requires Forked(before, mid, after, root, child, taken) && Avoids(before, root, L4, s)
    ensures Avoids(after, root, L4, s)
  {
    ClearedAvoids(before, mid, UserLeaves(before, root, L4), root, s);
    AvoidsAgrees(mid, after, root, L4, taken);
    SubtreeAvoids(mid, after, root, L4, s);
  }

  /** The clone leaves the parent's own tree as the read-only pass left it. */
  lemma ParentUntouchedByClone(before: Memory, mid: Memory, after: Memory, root: Frame, child: Frame,
                               taken: set<Frame>, path: seq<Index>)
    requires Forked(before, mid, after, root, child, taken)
    requires |path| == 4 && path[0] < LOWER_HALF
    ensures UserWalk(after, root, L4, path) == UserWalk(mid, root, L4, path)
    ensures forall p: seq<Index> | |p| < 4 :: TableAt(after, root, L4, p) == TableAt(before, root, L4, p)
  {
    AvoidsAgrees(mid, after, root, L4, taken);
    AgreeSameWalk(mid, after, root, L4, path);
    forall p: seq<Index> | |p| < 4
      ensures TableAt(after, root, L4, p) == TableAt(before, root, L4, p)
    {
      AgreeSameTables(mid, after, root, L4, p);
      ClearedSameTables(before, mid, UserLeaves(before, root, L4), root, L4, p);
    }
  }

  lemma ForkPreservesWalk(before: Memory, mid: Memory, after: Memory, root: Frame, child: Frame, taken: set<Frame>,
                          path: seq<Index>)
    requires Forked(before, mid, after, root, child, taken) && |path| == 4 && path[0] < LOWER_HALF
    ensures var was := UserWalk(before, root, L4, path);
            var parent := UserWalk(after, root, L4, path);
            var kid := UserWalk(after, child, L4, path);
            && Narrows(was, parent) && Narrows(parent, kid)
            && (was.Page? ==> parent == kid == Page(was.leaf.ReadOnly()))
  {
    ParentUntouchedByClone(before, mid, after, root, child, taken, path);
    ReadOnlyWalk(before, mid, UserLeaves(before, root, L4), root, L4, path);
    assert Narrows(UserWalk(mid, root, L4, path), UserWalk(after, child, L4, path));
  }

  /**
   A fork preserves meaning: parent and child map every user address to what the
   parent mapped it to before, and map nothing else, whichever allocations failed.
   A 4 KiB page is read-only for both and otherwise unchanged.
   */
  lemma ForkPreservesMeaning(before: Memory, mid: Memory, after: Memory, root: Frame, child: Frame,
                             taken: set<Frame>, vaddr: nat)
    requires Forked(before, mid, after, root, child, taken) && vaddr < 0x8000_0000_0000
    ensures var was := UserWalk(before, root, L4, PathOf(vaddr));
            var parent := UserWalk(after, root, L4, PathOf(vaddr));
            var kid := UserWalk(after, child, L4, PathOf(vaddr));
            && Narrows(was, parent) && Narrows(parent, kid)
            && (was.Page? ==> parent == kid == Page(was.leaf.ReadOnly()))
  {
    ForkPreservesWalk(before, mid, after, root, child, taken, PathOf(vaddr));
  }

  /** The kernel's own lookup in the parent finds the frame it found before the fork, unless a
      table on its way was handed out as free. */
  lemma ForkKeepsPhysFrames(before: Memory, mid: Memory, after: Memory, root: Frame, child: Frame, taken: set<Frame>,
                            vaddr: nat)
    requires Forked(before, mid, after, root, child, taken) && WalkAvoids(before, root, L4, PathOf(vaddr), taken)
    ensures GetPhysFrame(after, root, L4, PathOf(vaddr)) == GetPhysFrame(before, root, L4, PathOf(vaddr))
  {
    KernelWalkKept(before, mid, after, UserLeaves(before, root, L4), taken, root, L4, PathOf(vaddr));
  }

  /** Parent and child share the upper half: L4 entries 256 to 511 are equal. */
  lemma ForkSharesUpperHalf(before: Memory, mid: Memory, after: Memory, root: Frame, child: Frame, taken: set<Frame>,
                            i: Index)
    requires Forked(before, mid, after, root, child, taken) && i >= LOWER_HALF
    ensures At(after, child)[i] == At(after, root)[i]
  {
    assert TableAt(mid, root, L4, []) == Some(root);
  }

  /** Every table of the child that the clone drew is a copy, entry by entry, of the parent's table
      at the same path: links keep all their flags, pages lose WRITABLE alone, the rest is unused. */
  lemma ForkCopiesTables(before: Memory, mid: Memory, after: Memory, root: Frame, child: Frame, taken: set<Frame>,
                         p: seq<Index>, j: Index)
    requires Forked(before, mid, after, root, child, taken) && |p| < 4 && Lower(4 - |p|, j)
    requires TableAt(after, child, L4, p).Some? && TableAt(after, child, L4, p).value in taken
    ensures TableAt(mid, root, L4, p).Some?
    ensures var e, c := At(mid, TableAt(mid, root, L4, p).value)[j], At(after, TableAt(after, child, L4, p).value)[j];
            && (e.Descends(4 - |p|) ==> c == e.(addr := c.addr))
            && (e.UserPresent() && !e.Descends(4 - |p|) ==> c == e.ReadOnly())
            && (!e.UserPresent() ==> c == UNUSED)
  {
    CopyTable(mid, root, after, child, L4, taken, p);
  }

  /** Every frame the clone drew from the allocator hangs at exactly one place below the child's root. */
  lemma TakenLinkedExactlyOnce(before: Memory, mid: Memory, after: Memory, root: Frame, child: Frame,
                               taken: set<Frame>, f: Frame) returns (p: seq<Index>)
    requires Forked(before, mid, after, root, child, taken) && f in taken
    ensures |p| < 4 && TableAt(after, child, L4, p) == Some(f)
    ensures forall q: seq<Index> | |q| < 4 && TableAt(after, child, L4, q) == Some(f) :: q == p
  {
    assert Linked(after, child, L4, 512, f);
    p :| |p| < 4 && Within(p, 512) && TableAt(after, child, L4, p) == Some(f);
    forall q: seq<Index> | |q| < 4 && TableAt(after, child, L4, q) == Some(f)
      ensures q == p
    {
      assert Within(q, 512);
    }
  }

  // ---------- huge pages ----------

  lemma {:induction false} HugeUntouched(m: Memory, n: Memory, root: Frame, p: seq<Index>, f: Frame, path: seq<Index>)
    requires |p| < 4 && |path| == 4 - |p| && Lower(|path|, path[0]) && TableAt(m, root, L4, p) == Some(f)
    requires Cleared(m, n, UserLeaves(m, root, L4)) && OneLevelPerTable(m, root)
    ensures UserWalk(m, f, |path|, path).HugePage? ==> UserWalk(n, f, |path|, path) == UserWalk(m, f, |path|, path)
    decreases |path|
  {
    if |p| < 3 {
      UpperTablesUntouched(m, n, root, p);
      var e := At(m, f)[path[0]];
      if e.Descends(|path|) {
        TableAtAppend(m, root, L4, p, path[0]);
        HugeUntouched(m, n, root, p + [path[0]], e.addr, path[1..]);
      }
    }
  }

  lemma {:induction false} TableAtAppend(m: Memory, f: Frame, level: nat, p: seq<Index>, i: Index)
    requires 1 <= level <= 4 && |p| + 1 < level && TableAt(m, f, level, p).Some?
    requires Lower(level - |p|, i) && At(m, TableAt(m, f, level, p).value)[i].Descends(level - |p|)
    ensures TableAt(m, f, level, p + [i]) == Some(At(m, TableAt(m, f, level, p).value)[i].addr)
    decreases level
  {
    if p != [] {
      TableAtAppend(m, At(m, f)[p[0]].addr, level - 1, p[1..], i);
      assert (p + [i])[1..] == p[1..] + [i];
    }
  }

  /**
   The parent is left read-only everywhere if and only if no user address went
   through a writable huge page: those the pass skips.
   */
  lemma ParentWritableExactlyWhereHuge(before: Memory, mid: Memory, after: Memory, root: Frame, child: Frame,
                                       taken: set<Frame>, path: seq<Index>)
    requires Forked(before, mid, after, root, child, taken) && OneLevelPerTable(before, root)
    requires |path| == 4 && path[0] < LOWER_HALF
    ensures var was := UserWalk(before, root, L4, path);
            Writable(UserWalk(after, root, L4, path)) <==> was.HugePage? && was.leaf.writable
  {
    ParentUntouchedByClone(before, mid, after, root, child, taken, path);
    ReadOnlyWalk(before, mid, UserLeaves(before, root, L4), root, L4, path);
    assert TableAt(before, root, L4, []) == Some(root);
    HugeUntouched(before, mid, root, [], root, path);
  }

  /** A table below the copy's root is its own, a copy entry by entry, or is the original's. */
  lemma CopyTable(m0: Memory, src: Frame, m: Memory, n: Frame, level: nat, taken: set<Frame>, p: seq<Index>)
    requires 1 <= level <= 4 && Cloned(m0, src, m, n, level, 512, taken) && |p| < level && TableAt(m, n, level, p).Some?
    ensures TableAt(m0, src, level, p).Some?
    ensures var f, g := TableAt(m0, src, level, p).value, TableAt(m, n, level, p).value;
            if g in taken then TableCopied(m0, f, m, g, level - |p|, 512) else g == f && At(m, g) == At(m0, g)
  {
    if p != [] {
      assert p[0] < 512;
      assert CopiedAt(m0, src, m, n, level, taken, p);
    }
  }

  /** A huge page of the copy is read-only in a table of its own, or as it is in the original's table. */
  lemma CopyHugePage(m0: Memory, src: Frame, m: Memory, n: Frame, level: nat, taken: set<Frame>, path: seq<Index>)
    requires level == 4 && Cloned(m0, src, m, n, level, 512, taken) && |path| == level && Lower(level, path[0])
    requires UserWalk(m, n, level, path).HugePage?
    ensures var kid := UserWalk(m, n, level, path);
            && 2 <= kid.level < 4
            && TableAt(m, n, level, path[..level - kid.level]).Some?
            && if TableAt(m, n, level, path[..level - kid.level]).value in taken then !kid.leaf.writable
               else kid == UserWalk(m0, src, level, path)
  {
    HugeEntryOf(m, n, level, path);
    HugeEntryOf(m0, src, level, path);
    var was, kid := UserWalk(m0, src, level, path), UserWalk(m, n, level, path);
    assert path[0] < 512;
    assert Narrows(was, kid);
    CopyTable(m0, src, m, n, level, taken, path[..level - kid.level]);
  }

  /** The child's table at this depth of the path is not one of its own. */
  predicate SharedAt(after: Memory, child: Frame, taken: set<Frame>, path: seq<Index>, level: nat)
    requires |path| == 4
  {
    && 1 <= level < 4
    && TableAt(after, child, L4, path[..4 - level]).Some?
    && TableAt(after, child, L4, path[..4 - level]).value !in taken
  }

  lemma ChildHugePage(before: Memory, mid: Memory, after: Memory, root: Frame, child: Frame, taken: set<Frame>,
                      path: seq<Index>)
    requires Forked(before, mid, after, root, child, taken) && |path| == 4 && path[0] < LOWER_HALF
    ensures var kid := UserWalk(after, child, L4, path);
            kid.HugePage? ==>
              if SharedAt(after, child, taken, path, kid.level) then kid == UserWalk(after, root, L4, path)
                else !kid.leaf.writable
  {
    if UserWalk(after, child, L4, path).HugePage? {
      ParentUntouchedByClone(before, mid, after, root, child, taken, path);
      CopyHugePage(mid, root, after, child, L4, taken, path);
    }
  }

  lemma WritableFrom(was: Translation, par: Translation, kid: Translation, shared: bool)
    requires Narrows(was, par) && Narrows(par, kid) && (was.Page? ==> !kid.leaf.writable)
    requires Writable(par) <==> was.HugePage? && was.leaf.writable
    requires kid.HugePage? ==> if shared then kid == par else !kid.leaf.writable
    ensures Writable(kid) <==> was.HugePage? && was.leaf.writable && shared
    ensures was.HugePage? <==> kid.HugePage?
    ensures was.HugePage? ==> was.level == kid.level
  {
  }

  /**
   The child can write through an address if and only if it went through a writable huge page
   and the table that holds the page is not one the clone drew: the subtree is shared.
   */
  lemma ChildWritableIff(before: Memory, mid: Memory, after: Memory, root: Frame, child: Frame, taken: set<Frame>,
                         path: seq<Index>)
    requires Forked(before, mid, after, root, child, taken) && OneLevelPerTable(before, root)
    requires |path| == 4 && path[0] < LOWER_HALF
    ensures var was := UserWalk(before, root, L4, path);
            Writable(UserWalk(after, child, L4, path)) <==>
              was.HugePage? && was.leaf.writable && SharedAt(after, child, taken, path, was.level)
  {
    var was, par, kid := UserWalk(before, root, L4, path), UserWalk(after, root, L4, path),
      UserWalk(after, child, L4, path);
    ForkPreservesWalk(before, mid, after, root, child, taken, path);
    ParentWritableExactlyWhereHuge(before, mid, after, root, child, taken, path);
    ChildHugePage(before, mid, after, root, child, taken, path);
    WritableFrom(was, par, kid, kid.HugePage? && SharedAt(after, child, taken, path, kid.level));
  }

  // ---------- the right to write, over all levels ----------

  lemma {:induction false} LinksUntouched(m: Memory, n: Memory, root: Frame, p: seq<Index>, f: Frame, path: seq<Index>)
    requires |p| < 4 && |path| == 4 - |p| && Lower(|path|, path[0]) && TableAt(m, root, L4, p) == Some(f)
    requires Cleared(m, n, UserLeaves(m, root, L4)) && OneLevelPerTable(m, root)
    ensures LinksWritable(n, f, |path|, path) == LinksWritable(m, f, |path|, path)
    decreases |path|
  {
    if |p| < 3 {
      UpperTablesUntouched(m, n, root, p);
      var e := At(m, f)[path[0]];
      if e.Descends(|path|) {
        TableAtAppend(m, root, L4, p, path[0]);
        LinksUntouched(m, n, root, p + [path[0]], e.addr, path[1..]);
      }
    }
  }

  /** Below the tables at `p` the copy's links allow what the original's do. */
  lemma {:induction false} LinksCopied(m0: Memory, src: Frame, m: Memory, n: Frame, level: nat, taken: set<Frame>,
                                       p: seq<Index>, path: seq<Index>)
    requires 1 <= level <= 4 && Cloned(m0, src, m, n, level, 512, taken)
    requires |p| < level && |path| == level - |p| && Lower(|path|, path[0])
    requires TableAt(m0, src, level, p).Some? && TableAt(m, n, level, p).Some?
    ensures LinksWritable(m, TableAt(m, n, level, p).value, |path|, path)
            == LinksWritable(m0, TableAt(m0, src, level, p).value, |path|, path)
    decreases |path|
  {
    CopyTable(m0, src, m, n, level, taken, p);
    var f, g := TableAt(m0, src, level, p).value, TableAt(m, n, level, p).value;
    var e, c := At(m0, f)[path[0]], At(m, g)[path[0]];
    assert g in taken ==> EntryCopied(e, c, |path|);
    if e.Descends(|path|) {
      TableAtAppend(m0, src, level, p, path[0]);
      TableAtAppend(m, n, level, p, path[0]);
      LinksCopied(m0, src, m, n, level, taken, p + [path[0]], path[1..]);
    }
  }

  /** The fork changes no right that the links give, in the parent or in the child: each may write
      again as soon as the page's own entry allows it. */
  lemma ForkKeepsLinks(before: Memory, mid: Memory, after: Memory, root: Frame, child: Frame, taken: set<Frame>,
                       path: seq<Index>)
    requires Forked(before, mid, after, root, child, taken) && OneLevelPerTable(before, root)
    requires |path| == 4 && path[0] < LOWER_HALF
    ensures LinksWritable(after, root, L4, path) == LinksWritable(before, root, L4, path)
    ensures LinksWritable(after, child, L4, path) == LinksWritable(before, root, L4, path)
  {
    assert TableAt(before, root, L4, []) == Some(root) && TableAt(mid, root, L4, []) == Some(root);
    assert TableAt(after, child, L4, []) == Some(child);
    LinksUntouched(before, mid, root, [], root, path);
    LinksCopied(mid, root, after, child, L4, taken, [], path);
    AvoidsAgrees(mid, after, root, L4, taken);
    AgreeSameLinks(mid, after, root, L4, path);
  }

  /**
   The right to write after a fork. The parent keeps it exactly for the huge pages it could write;
   the child has it exactly for those of them whose table it shares.
   */
  lemma ForkRights(before: Memory, mid: Memory, after: Memory, root: Frame, child: Frame, taken: set<Frame>,
                   path: seq<Index>)
    requires Forked(before, mid, after, root, child, taken) && OneLevelPerTable(before, root)
    requires |path| == 4 && path[0] < LOWER_HALF
    ensures var was, may := UserWalk(before, root, L4, path), MayWrite(before, root, path);
            && (MayWrite(after, root, path) <==> may && was.HugePage?)
            && (MayWrite(after, child, path) <==>
                  may && was.HugePage? && SharedAt(after, child, taken, path, was.level))
  {
    ForkKeepsLinks(before, mid, after, root, child, taken, path);
    ParentWritableExactlyWhereHuge(before, mid, after, root, child, taken, path);
    ChildWritableIff(before, mid, after, root, child, taken, path);
  }

  /** A child that shares no table can write nothing. */
  lemma WholeChildReadOnly(before: Memory, mid: Memory, after: Memory, root: Frame, child: Frame, taken: set<Frame>,
                           path: seq<Index>)
    requires Forked(before, mid, after, root, child, taken) && Whole(after, child, L4, 512, taken)
    requires |path| == 4 && path[0] < LOWER_HALF
    ensures !Writable(UserWalk(after, child, L4, path))
  {
    var kid := UserWalk(after, child, L4, path);
    if kid.Page? {
      assert !kid.leaf.writable by {
        ForkPreservesWalk(before, mid, after, root, child, taken, path);
      }
    } else if kid.HugePage? {
      assert !kid.leaf.writable by {
        CopyHugePage(mid, root, after, child, L4, taken, path);
        assert path[..4 - kid.level][0] < 512;
      }
    }
  }

  /** A parent whose only user mapping is one writable 1 GiB page, at address 0. */
  function OneHugePage(): Memory {
    map[1 := EmptyTable()[0 := Entry(true, true, true, false, 0, 2)],
        2 := EmptyTable()[0 := Entry(true, true, true, true, 0, 0x40000)]]
  }

  lemma OneHugePageTables(p: seq<Index>)
    requires |p| < 4
    ensures TableAt(OneHugePage(), 1, L4, p) == if p == [] then Some(1) else if p == [0] then Some(2) else None
  {
    var m := OneHugePage();
    if |p| == 1 {
      assert p == [p[0]];
    } else if |p| > 1 && p[0] == 0 {
      assert At(m, 2)[p[1]].huge || !At(m, 2)[p[1]].present;
      assert TableAt(m, 2, 3, p[1..]).None?;
    }
  }

  lemma OneHugePageWalk()
    ensures UserWalk(OneHugePage(), 1, L4, PathOf(0)) == HugePage(3, Entry(true, true, true, true, 0, 0x40000))
  {
    var m, path := OneHugePage(), PathOf(0);
    assert At(m, 1)[path[0]] == Entry(true, true, true, false, 0, 2);
    assert UserWalk(m, 2, 3, path[1..]) == HugePage(3, Entry(true, true, true, true, 0, 0x40000));
  }

  lemma OneHugePageAvoids(s: set<Frame>)
    requires s !! {1, 2}
    ensures Avoids(OneHugePage(), 1, L4, s)
  {
    forall p: seq<Index> | |p| < 4
      ensures TableAt(OneHugePage(), 1, L4, p).Some? ==> TableAt(OneHugePage(), 1, L4, p).value !in s
    {
      OneHugePageTables(p);
    }
  }

  lemma OneHugePageLevels()
    ensures OneLevelPerTable(OneHugePage(), 1)
  {
    var m := OneHugePage();
    forall p: seq<Index>, q: seq<Index> | |p| < 4 && |q| < 4 && TableAt(m, 1, L4, p).Some?
      && TableAt(m, 1, L4, p) == TableAt(m, 1, L4, q)
      ensures |p| == |q|
    {
      OneHugePageTables(p);
      OneHugePageTables(q);
    }
  }

  /** That parent keeps writing to the page it now shares with its child. */
  lemma HugePageStaysWritable(mid: Memory, after: Memory, child: Frame, taken: set<Frame>)
    requires Forked(OneHugePage(), mid, after, 1, child, taken)
    ensures Writable(UserWalk(after, 1, L4, PathOf(0)))
    ensures UserWalk(after, child, L4, PathOf(0)).HugePage?
    ensures UserWalk(after, child, L4, PathOf(0)).leaf.addr == 0x40000
  {
    OneHugePageWalk();
    OneHugePageLevels();
    ParentWritableExactlyWhereHuge(OneHugePage(), mid, after, 1, child, taken, PathOf(0));
    ForkPreservesMeaning(OneHugePage(), mid, after, 1, child, taken, 0);
  }

  /** The child can write the page too if the table that holds it is still the parent's. */
  lemma HugePageInChild(mid: Memory, after: Memory, child: Frame, taken: set<Frame>)
    requires Forked(OneHugePage(), mid, after, 1, child, taken) && TableAt(after, child, L4, [0]) == Some(2)
    ensures Writable(UserWalk(after, child, L4, PathOf(0)))
  {
    OneHugePageWalk();
    OneHugePageLevels();
    ChildWritableIff(OneHugePage(), mid, after, 1, child, taken, PathOf(0));
    assert PathOf(0)[..1] == [0];
    HugePageTable(mid, after, child, taken);
  }

  lemma HugePageTable(mid: Memory, after: Memory, child: Frame, taken: set<Frame>)
    requires Forked(OneHugePage(), mid, after, 1, child, taken)
    ensures TableAt(mid, 1, L4, [0]) == Some(2) && 2 !in taken
  {
    var p: seq<Index> := [0];
    OneHugePageTables(p);
    ClearedSameTables(OneHugePage(), mid, UserLeaves(OneHugePage(), 1, L4), 1, L4, p);
  }

  /** With one frame for the root, the table below it is the parent's. */
  lemma OnlyRootDrawn(mid: Memory, after: Memory, child: Frame, taken: set<Frame>)
    requires Forked(OneHugePage(), mid, after, 1, child, taken) && taken <= {child}
    ensures TableAt(after, child, L4, [0]) == Some(2)
  {
    var p: seq<Index> := [0];
    HugePageTable(mid, after, child, taken);
    assert p[0] < 512;
    if TableAt(after, child, L4, p) == Some(child) {
      assert TableAt(after, child, L4, []) == Some(child) && Within([], 512) && Within(p, 512);
      assert false;
    }
  }

  lemma OneFrame(s: Supply, f: Frame, taken: set<Frame>)
    requires |s| == 1 && f in taken && taken <= FramesOf(s)
    ensures taken <= {f}
  {
  }

  lemma HugePageForked(s: Supply, mid: Memory, after: Memory, child: Frame, taken: set<Frame>)
    requires Forked(OneHugePage(), mid, after, 1, child, taken) && taken <= FramesOf(s)
    ensures Writable(UserWalk(after, 1, L4, PathOf(0)))
    ensures |s| == 1 ==> Writable(UserWalk(after, child, L4, PathOf(0)))
  {
    HugePageStaysWritable(mid, after, child, taken);
    if |s| == 1 {
      OneFrame(s, child, taken);
      OnlyRootDrawn(mid, after, child, taken);
      HugePageInChild(mid, after, child, taken);
    }
  }

  /** Such a fork happens; with a single frame to draw, the child writes the parent's page. */
  method ForkHugePage(s: Supply) returns (after: Memory, child: Frame)
    requires s != [] && s[0].Some? && NoRepeats(s) && FramesOf(s) !! {1, 2}
    ensures Writable(UserWalk(after, 1, L4, PathOf(0)))
    ensures |s| == 1 ==> Writable(UserWalk(after, child, L4, PathOf(0)))
  {
    var k := new Kernel(OneHugePage(), s);
    OneHugePageAvoids(FramesOf(s));
    var r, mid, taken := k.CowForkParent(1);
    after, child := k.mem, r.value;
    HugePageForked(s, mid, after, child, taken);
  }
}
