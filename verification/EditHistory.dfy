/** The editor's undo and redo stacks. */
module EditHistory {
  import opened EditText

  const MAX_UNDO: nat := 200

  datatype Entry = Entry(buf: Text, cursor: nat)

  /** The text with its cursor, and the two stacks, newest entry last. */
  datatype Session = Session(now: Entry, undo: seq<Entry>, redo: seq<Entry>)

  function Capped(s: seq<Entry>): seq<Entry> {
    if |s| > MAX_UNDO then s[1..] else s
  }

  /** Before an edit: the present is remembered and the redo stack dropped. */
  function Snapshot(s: Session): Session {
    s.(undo := Capped(s.undo + [s.now]), redo := [])
  }

  function Undo(s: Session): Session {
    if s.undo == [] then s
    else Session(s.undo[|s.undo| - 1], s.undo[..|s.undo| - 1], s.redo + [s.now])
  }

  function Redo(s: Session): Session {
    if s.redo == [] then s
    else Session(s.redo[|s.redo| - 1], s.undo + [s.now], s.redo[..|s.redo| - 1])
  }

  /** One edit: a snapshot, then a new text and cursor. */
  function Edited(s: Session, now: Entry): Session {
    Snapshot(s).(now := now)
  }

  predicate Bounded(s: Session) {
    |s.undo| + |s.redo| <= MAX_UNDO
  }

  function Undos(s: Session, n: nat): Session
    decreases n
  {
    if n == 0 then s else Undos(Undo(s), n - 1)
  }

  function Redos(s: Session, n: nat): Session
    decreases n
  {
    if n == 0 then s else Redos(Redo(s), n - 1)
  }

  lemma {:induction false} UndosLater(s: Session, n: nat)
    ensures Undos(s, n + 1) == Undo(Undos(s, n))
    decreases n
  {
    if n > 0 {
      UndosLater(Undo(s), n - 1);
    }
  }

  lemma RedoUndo(s: Session)
    requires s.undo != []
    ensures Redo(Undo(s)) == s
  {
    var u := Undo(s);
    assert u.redo[..|u.redo| - 1] == s.redo;
    assert u.undo + [u.now] == s.undo;
  }

  lemma {:induction false} UndosDepth(s: Session, n: nat)
    requires n <= |s.undo|
    ensures |Undos(s, n).undo| == |s.undo| - n
    decreases n
  {
    if n > 0 {
      UndosDepth(Undo(s), n - 1);
    }
  }

  lemma {:induction false} UndosStop(s: Session, n: nat)
    requires s.undo == []
    ensures Undos(s, n) == s
    decreases n
  {
    if n > 0 {
      UndosStop(s, n - 1);
    }
  }

  lemma {:induction false} UndosSplit(s: Session, m: nat, n: nat)
    ensures Undos(s, m + n) == Undos(Undos(s, m), n)
    decreases m
  {
    if m > 0 {
      UndosSplit(Undo(s), m - 1, n);
    }
  }

  lemma {:induction false} RedosSplit(s: Session, m: nat, n: nat)
    ensures Redos(s, m + n) == Redos(Redos(s, m), n)
    decreases m
  {
    if m > 0 {
      RedosSplit(Redo(s), m - 1, n);
    }
  }

  /** As many redos as effective undos restore everything. */
  lemma {:induction false} RedosUndos(s: Session, n: nat)
    requires n <= |s.undo|
    ensures Redos(Undos(s, n), n) == s
    decreases n
  {
    if n > 0 {
      UndosLater(s, n - 1);
      UndosDepth(s, n - 1);
      RedoUndo(Undos(s, n - 1));
      RedosUndos(s, n - 1);
    }
  }

  lemma {:induction false} RedosMove(s: Session, n: nat)
    requires n > 0
    ensures Redos(s, n) == s <==> s.redo == []
    decreases n
  {
    RedosDepth(s, n);
    if s.redo == [] && n > 1 {
      RedosMove(s, n - 1);
    }
  }

  lemma {:induction false} RedosDepth(s: Session, n: nat)
    ensures |Redos(s, n).undo| >= |s.undo| + if n > 0 && s.redo != [] then 1 else 0
    decreases n
  {
    if n > 0 {
      RedosDepth(Redo(s), n - 1);
    }
  }

  /** n undos followed by n redos restore text, cursor and stacks if and only if there were n
      entries to undo or none to redo beforehand. */
  lemma RestoredIff(s: Session, n: nat)
    ensures Redos(Undos(s, n), n) == s <==> n <= |s.undo| || s.redo == []
  {
    var u := |s.undo|;
    if n <= u {
      RedosUndos(s, n);
    } else {
      UndosSplit(s, u, n - u);
      UndosDepth(s, u);
      UndosStop(Undos(s, u), n - u);
      RedosUndos(s, u);
      RedosSplit(Undos(s, u), u, n - u);
      RedosMove(s, n - u);
    }
  }

  // ---------- edits and undos ----------

  /** The texts of `es` installed one after another, each after a snapshot. */
  function Edits(s: Session, es: seq<Entry>): Session {
    if es == [] then s else Edited(Edits(s, es[..|es| - 1]), es[|es| - 1])
  }

  /** An edit shows its text, can be undone and leaves nothing to redo. */
  lemma EditShows(s: Session, e: Entry)
    ensures Edited(s, e).now == e && Undo(Edited(s, e)).now == s.now
    ensures Redo(Edited(s, e)) == Edited(s, e) && Redo(Undo(Edited(s, e))) == Edited(s, e)
  {
    RedoUndo(Edited(s, e));
  }

  /** The texts that edits replace, the oldest first. */
  function Shown(s: Session, es: seq<Entry>): seq<Entry> {
    if es == [] then [] else Shown(s, es[..|es| - 1]) + [Edits(s, es[..|es| - 1]).now]
  }

  /** Edits can be undone up to 200 deep; the oldest snapshots go first. */
  lemma {:induction false} EditsDepth(s: Session, es: seq<Entry>)
    requires |s.undo| <= 200
    ensures |Edits(s, es).undo| == if |s.undo| + |es| < 200 then |s.undo| + |es| else 200
    ensures var all := s.undo + Shown(s, es);
            |all| == |s.undo| + |es| && Edits(s, es).undo == all[|all| - |Edits(s, es).undo|..]
  {
    if es == [] {
      assert s.undo + [] == s.undo;
    } else {
      var rest := es[..|es| - 1];
      EditsDepth(s, rest);
      assert s.undo + Shown(s, es) == s.undo + Shown(s, rest) + [Edits(s, rest).now];
    }
  }

  /** n undos show what the n-th newest snapshot holds. */
  lemma {:induction false} UndosShow(s: Session, n: nat)
    requires 0 < n <= |s.undo|
    ensures Undos(s, n).now == s.undo[|s.undo| - n]
    decreases n
  {
    if n > 1 {
      UndosShow(Undo(s), n - 1);
    }
  }

  /** The n-th newest snapshot holds the text before the last n edits. */
  lemma {:induction false} EditsRemembered(s: Session, es: seq<Entry>, n: nat)
    requires 0 < n <= |es| && n <= MAX_UNDO
    ensures var u := Edits(s, es).undo; n <= |u| && u[|u| - n] == Edits(s, es[..|es| - n]).now
  {
    var rest := es[..|es| - 1];
    if n > 1 {
      EditsRemembered(s, rest, n - 1);
      assert rest[..|rest| - (n - 1)] == es[..|es| - n];
    }
  }

  /** Undoing n of any edits gives the text and cursor before them, up to the depth of the stack. */
  lemma EditsUndone(s: Session, es: seq<Entry>, n: nat)
    requires n <= |es| && n <= MAX_UNDO
    ensures Undos(Edits(s, es), n).now == Edits(s, es[..|es| - n]).now
  {
    if n > 0 {
      EditsRemembered(s, es, n);
      UndosShow(Edits(s, es), n);
    } else {
      assert es[..|es|] == es;
    }
  }
}
