/** The text editor: every operation keeps the line table, the cursor and the history right. */
module Edit {
  import opened Options
  import opened Bytes
  import opened EditText
  import opened EditHistory

  const ROWS: nat := 23
  const TAB_WIDTH: nat := 4

  function Smaller(x: nat, y: nat): nat {
    if x <= y then x else y
  }

  ghost predicate Sane(e: Entry) {
    e.cursor <= |e.buf|
  }

  ghost predicate AllSane(s: Session) {
    && Sane(s.now)
    && (forall i {:trigger s.undo[i]} | 0 <= i < |s.undo| :: Sane(s.undo[i]))
    && (forall i {:trigger s.redo[i]} | 0 <= i < |s.redo| :: Sane(s.redo[i]))
  }

  function Spaces(n: nat): Text {
    seq(n, _ => SPACE)
  }

  /** Spaces present after `i` insertions, with or without an anchor left at the cursor. */
  function Inserted(i: nat, stale: bool): nat {
    if stale && i > 1 then i - 1 else i
  }

  /** The entry with `n` spaces put in at its cursor. */
  function Spaced(d: Entry, n: nat): Entry
    requires d.cursor <= |d.buf|
  {
    Entry(Replaced(d.buf, d.cursor, d.cursor, Spaces(n)), d.cursor + n)
  }

  /** The texts of `i` insertions of a space. With an anchor left at the cursor, the second one
      first deletes the space of the first. */
  function TabSteps(d: Entry, stale: bool, i: nat): (es: seq<Entry>)
    requires d.cursor <= |d.buf|
    ensures |es| == i + if stale && i > 1 then 1 else 0
  {
    if i == 0 then []
    else TabSteps(d, stale, i - 1) + (if stale && i == 2 then [d] else []) + [Spaced(d, Inserted(i, stale))]
  }

  /** A session in which text has been put in at the cursor. */
  function Typed(s: Session, t: Text): Session
    requires s.now.cursor <= |s.now.buf|
  {
    Edited(s, Entry(Replaced(s.now.buf, s.now.cursor, s.now.cursor, t), s.now.cursor + |t|))
  }

  lemma SpacedNext(d: Entry, n: nat)
    requires d.cursor <= |d.buf|
    ensures var e := Spaced(d, n);
            && e.cursor <= |e.buf|
            && Entry(Replaced(e.buf, e.cursor, e.cursor, [SPACE]), e.cursor + 1) == Spaced(d, n + 1)
            && (n == 1 ==> Replaced(e.buf, d.cursor, d.cursor + 1, []) == d.buf)
    ensures Spaced(d, 0) == d
  {
    assert Spaces(n + 1) == Spaces(n) + [SPACE];
  }

  lemma EditsLast(s: Session, es: seq<Entry>, e: Entry)
    ensures Edits(s, es + [e]) == Edited(Edits(s, es), e)
  {
    assert (es + [e])[..|es|] == es;
  }

  lemma TabText(s: Session, stale: bool, i: nat)
    requires s.now.cursor <= |s.now.buf|
    ensures Edits(s, TabSteps(s.now, stale, i)).now == Spaced(s.now, Inserted(i, stale))
  {
    if i > 0 {
      EditsLast(s, TabSteps(s.now, stale, i - 1) + (if stale && i == 2 then [s.now] else []),
        Spaced(s.now, Inserted(i, stale)));
    } else {
      SpacedNext(s.now, 0);
    }
  }

  /** One more insertion of a space. */
  lemma TabNext(s: Session, stale: bool, i: nat)
    requires s.now.cursor <= |s.now.buf|
    ensures var was := Edits(s, TabSteps(s.now, stale, i));
            && was.now.cursor <= |was.now.buf|
            && Edits(s, TabSteps(s.now, stale, i + 1))
                 == Typed(if stale && i == 1 then Edited(was, s.now) else was, [SPACE])
  {
    var d, es := s.now, TabSteps(s.now, stale, i);
    TabText(s, stale, i);
    if stale && i == 1 {
      EditsLast(s, es, d);
      EditsLast(s, es + [d], Spaced(d, 1));
      SpacedNext(d, 0);
    } else {
      assert es + [] == es;
      EditsLast(s, es, Spaced(d, Inserted(i + 1, stale)));
    }
    SpacedNext(d, Inserted(i, stale));
  }

  /** All the spaces are there, and one undo for each step takes them back. */
  lemma TabWhole(s: Session, stale: bool, n: nat)
    requires s.now.cursor <= |s.now.buf| && n < MAX_UNDO
    ensures var es := TabSteps(s.now, stale, n);
            Edits(s, es).now == Spaced(s.now, Inserted(n, stale)) && Undos(Edits(s, es), |es|).now == s.now
  {
    var es := TabSteps(s.now, stale, n);
    TabText(s, stale, n);
    EditsUndone(s, es, |es|);
  }

  /** What a newline makes of an entry whose cursor is on the line that begins at `start`. */
  ghost predicate LineBroken(d: Entry, start: nat, now: Entry)
    requires Sane(d)
  {
    && start <= d.cursor
    && StartsLine(d.buf, start)
    && Newlines(d.buf, start) == Newlines(d.buf, d.cursor)
    && var ws := Blanks(d.buf, start);
       var copied := Copied(ws, d.cursor - start, |ws|);
       && now == Entry(Replaced(d.buf, d.cursor, d.cursor, [NEWLINE] + copied), d.cursor + 1 + |ws|)
       && (copied == ws <==> start + |ws| <= d.cursor)
  }

  class Editor {
    var buf: Text
    var lines: seq<nat>
    var cursor: nat
    var scroll: nat
    var modified: bool
    var undoStack: seq<Entry>
    var redoStack: seq<Entry>
    var selAnchor: Option<nat>
    var clipboard: Text
    var findQuery: Text
    var replaceWith: Text
    var findMatch: Option<nat>

    ghost function Abs(): Session
      reads this
    {
      Session(Entry(buf, cursor), undoStack, redoStack)
    }

    ghost predicate Valid()
      reads this
    {
      IsLineTable(buf, lines) && AllSane(Abs()) && Bounded(Abs())
    }

    /** The selection anchor, if any, is inside the text. */
    predicate AnchorIn()
      reads this
    {
      selAnchor.Some? ==> selAnchor.value <= |buf|
    }

    /** The cursor's line is on the screen. */
    ghost predicate InView()
      requires cursor <= |buf|
      reads this
    {
      scroll <= Newlines(buf, cursor) < scroll + ROWS
    }

    /** The cursor's distance from the start of its line. */
    ghost function Column(): nat
      requires cursor <= |buf|
      reads this
    {
      var line := Newlines(buf, cursor);
      if line < |lines| && lines[line] <= cursor then cursor - lines[line] else 0
    }

    constructor (text: Text)
      ensures Valid() && AnchorIn() && Abs() == Session(Entry(text, 0), [], [])
    {
      buf := text;
      cursor, scroll, modified := 0, 0, false;
      undoStack, redoStack := [], [];
      selAnchor, findMatch := None, None;
      clipboard, findQuery, replaceWith := [], [], [];
      var table := BuildLines(text);
      lines := table;
    }

    method EnsureScroll()
      requires Valid()
      modifies this`scroll
      ensures InView()
    {
      var line := FindLine(buf, lines, cursor);
      if line < scroll {
        scroll := line;
      } else if line >= scroll + ROWS {
        scroll := line - ROWS + 1;
      }
    }

    // ---------- moving the cursor ----------

    method Place() returns (line: nat, col: nat)
      requires Valid()
      ensures line == Newlines(buf, cursor) && line < |lines| && col == Column()
    {
      line := FindLine(buf, lines, cursor);
      col := cursor - lines[line];
    }

    /** Puts the cursor on a line, at the given column or at the end of a shorter line. */
    method GoTo(line: nat, col: nat)
      requires Valid() && line < |lines|
      modifies this`cursor, this`scroll
      ensures Valid() && InView() && Newlines(buf, cursor) == line
      ensures cursor == lines[line] + Smaller(col, LineLen(buf, lines, line))
      ensures Column() == Smaller(col, LineLen(buf, lines, line))
    {
      LineLenExact(buf, lines, line, Smaller(col, LineLen(buf, lines, line)));
      cursor := lines[line] + Smaller(col, LineLen(buf, lines, line));
      LineIsNewlines(buf, lines, line, cursor);
      EnsureScroll();
    }

    /** The line above, the same column or the end of the line; the first line stays. */
    method MoveUp()
      requires Valid()
      modifies this`cursor, this`scroll
      ensures Valid() && InView()
      ensures var line := old(Newlines(buf, cursor));
              if line == 0 then cursor == old(cursor)
              else
                && line < |lines|
                && Newlines(buf, cursor) == line - 1
                && Column() == Smaller(old(Column()), LineLen(buf, lines, line - 1))
    {
      var line, col := Place();
      if line > 0 {
        GoTo(line - 1, col);
      } else {
        EnsureScroll();
      }
    }

    method MoveDown()
      requires Valid()
      modifies this`cursor, this`scroll
      ensures Valid() && InView()
      ensures var line := old(Newlines(buf, cursor));
              if line + 1 >= |lines| then cursor == old(cursor)
              else
                && Newlines(buf, cursor) == line + 1
                && Column() == Smaller(old(Column()), LineLen(buf, lines, line + 1))
    {
      var line, col := Place();
      if line + 1 < |lines| {
        GoTo(line + 1, col);
      } else {
        EnsureScroll();
      }
    }

    method PageUp()
      requires Valid()
      modifies this`cursor, this`scroll
      ensures Valid() && InView()
      ensures var line := old(Newlines(buf, cursor));
              var to := if line < ROWS then 0 else line - ROWS;
              && to < |lines|
              && Newlines(buf, cursor) == to
              && Column() == Smaller(old(Column()), LineLen(buf, lines, to))
    {
      var line, col := Place();
      GoTo(if line < ROWS then 0 else line - ROWS, col);
    }

    method PageDown()
      requires Valid()
      modifies this`cursor, this`scroll
      ensures Valid() && InView()
      ensures lines != []
      ensures var to := Smaller(old(Newlines(buf, cursor)) + ROWS, |lines| - 1);
              && Newlines(buf, cursor) == to
              && Column() == Smaller(old(Column()), LineLen(buf, lines, to))
    {
      var line, col := Place();
      GoTo(Smaller(line + ROWS, |lines| - 1), col);
    }

    method MoveLeft()
      requires Valid()
      modifies this`cursor, this`scroll
      ensures Valid() && InView() && cursor == if old(cursor) > 0 then old(cursor) - 1 else 0
    {
      if cursor > 0 {
        cursor := cursor - 1;
      }
      EnsureScroll();
    }

    method MoveRight()
      requires Valid()
      modifies this`cursor, this`scroll
      ensures Valid() && InView() && cursor == Smaller(old(cursor) + 1, |buf|)
    {
      if cursor < |buf| {
        cursor := cursor + 1;
      }
      EnsureScroll();
    }

    /** The start of the line: same line, and just after a newline or at 0. */
    method MoveHome()
      requires Valid()
      modifies this`cursor, this`scroll
      ensures Valid() && InView() && StartsLine(buf, cursor) && Newlines(buf, cursor) == old(Newlines(buf, cursor))
    {
      var line := FindLine(buf, lines, cursor);
      assert StartsLine(buf, lines[line]);
      GoTo(line, 0);
    }

    /** The end of the line: same line, and just before a newline or at the end of the text. */
    method MoveEnd()
      requires Valid()
      modifies this`cursor, this`scroll
      ensures Valid() && InView() && Newlines(buf, cursor) == old(Newlines(buf, cursor))
      ensures cursor == |buf| || buf[cursor] == NEWLINE
    {
      var line := FindLine(buf, lines, cursor);
      var n := LineLen(buf, lines, line);
      LineLenExact(buf, lines, line, n);
      assert line + 1 < |lines| ==> StartsLine(buf, lines[line + 1]);
      GoTo(line, n);
    }

    /** The nearest word boundary to the left. */
    method WordLeft()
      requires Valid()
      modifies this`cursor, this`scroll
      ensures Valid()
      ensures old(cursor) > 0 ==> cursor < old(cursor) && WordBoundary(buf, cursor)
      ensures forall p | cursor < p < old(cursor) :: !WordBoundary(buf, p)
    {
      if cursor == 0 {
        return;
      }
      cursor := cursor - 1;
      while cursor > 0 && !WordBoundary(buf, cursor)
        invariant cursor < old(cursor)
        invariant forall p | cursor < p < old(cursor) :: !WordBoundary(buf, p)
      {
        cursor := cursor - 1;
      }
      EnsureScroll();
    }

    method WordRight()
      requires Valid()
      modifies this`cursor, this`scroll
      ensures Valid()
      ensures old(cursor) < |buf| ==> cursor > old(cursor) && WordBoundary(buf, cursor)
      ensures forall p | old(cursor) < p < cursor :: !WordBoundary(buf, p)
    {
      if cursor >= |buf| {
        return;
      }
      cursor := cursor + 1;
      while cursor < |buf| && !WordBoundary(buf, cursor)
        invariant old(cursor) < cursor <= |buf|
        invariant forall p | old(cursor) < p < cursor :: !WordBoundary(buf, p)
      {
        cursor := cursor + 1;
      }
      EnsureScroll();
    }

    // ---------- selection ----------

    function SelStart(): nat
      reads this
    {
      if selAnchor.Some? then Smaller(selAnchor.value, cursor) else cursor
    }

    function SelEnd(): nat
      reads this
    {
      if selAnchor.Some? && selAnchor.value > cursor then selAnchor.value else cursor
    }

    predicate HasSel()
      reads this
    {
      selAnchor.Some? && selAnchor.value != cursor
    }

    /** The selected bytes; none without a selection. */
    function Selected(): Text
      requires cursor <= |buf| && AnchorIn()
      reads this
    {
      buf[SelStart()..SelEnd()]
    }

    /** The selection reaches from the cursor to the anchor, whichever comes first, and may be empty. */
    lemma SelectionExact()
      requires cursor <= |buf| && AnchorIn()
      ensures HasSel() <==> Selected() != []
      ensures selAnchor.None? ==> SelStart() == SelEnd() == cursor
      ensures selAnchor.Some? ==> {SelStart(), SelEnd()} == {selAnchor.value, cursor} && SelStart() <= SelEnd()
    {
    }

    /** A selecting movement first fixes the anchor where the cursor is. */
    method FixAnchor()
      requires Valid() && AnchorIn()
      modifies this`selAnchor
      ensures Valid() && AnchorIn() && Selected() == old(Selected())
      ensures selAnchor == if old(selAnchor).Some? then old(selAnchor) else Some(cursor)
    {
      if selAnchor.None? {
        selAnchor := Some(cursor);
      }
    }

    method SelectAll()
      requires Valid()
      modifies this`selAnchor, this`cursor, this`scroll
      ensures Valid() && AnchorIn() && InView() && Selected() == buf
    {
      selAnchor := Some(0);
      cursor := |buf|;
      EnsureScroll();
    }

    // ---------- history ----------

    method Remember()
      requires Valid()
      modifies this`undoStack, this`redoStack
      ensures Valid() && Abs() == Snapshot(old(Abs()))
    {
      undoStack := undoStack + [Entry(buf, cursor)];
      if |undoStack| > MAX_UNDO {
        undoStack := undoStack[1..];
      }
      redoStack := [];
    }

    /** Installs a new text and cursor. */
    method Install(text: Text, pos: nat)
      requires Valid() && pos <= |text|
      modifies this`buf, this`lines, this`cursor, this`scroll, this`modified
      ensures Valid() && InView() && modified && Abs() == old(Abs()).(now := Entry(text, pos))
    {
      buf := text;
      cursor := pos;
      modified := true;
      lines := BuildLines(buf);
      EnsureScroll();
    }

    /** The anchor is not moved, so it stays inside exactly if the restored text reaches it. */
    method UndoEdit()
      requires Valid()
      modifies this
      ensures Valid() && Abs() == Undo(old(Abs())) && selAnchor == old(selAnchor)
      ensures AnchorIn() <==> selAnchor.None? || selAnchor.value <= |Undo(old(Abs())).now.buf|
    {
      if undoStack == [] {
        return;
      }
      var entry := undoStack[|undoStack| - 1];
      undoStack := undoStack[..|undoStack| - 1];
      redoStack := redoStack + [Entry(buf, cursor)];
      Install(entry.buf, entry.cursor);
    }

    method RedoEdit()
      requires Valid()
      modifies this
      ensures Valid() && Abs() == Redo(old(Abs())) && selAnchor == old(selAnchor)
      ensures AnchorIn() <==> selAnchor.None? || selAnchor.value <= |Redo(old(Abs())).now.buf|
    {
      if redoStack == [] {
        return;
      }
      var entry := redoStack[|redoStack| - 1];
      redoStack := redoStack[..|redoStack| - 1];
      undoStack := undoStack + [Entry(buf, cursor)];
      Install(entry.buf, entry.cursor);
    }

    // ---------- editing ----------

    /** The session once the selection, if there is one, is deleted. */
    ghost function Deleted(): Session
      requires cursor <= |buf| && AnchorIn()
      reads this
    {
      if HasSel() then Edited(Abs(), Entry(Replaced(buf, SelStart(), SelEnd(), []), SelStart())) else Abs()
    }

    method DeleteSelection() returns (done: bool)
      requires Valid() && AnchorIn()
      modifies this
      ensures Valid() && AnchorIn() && Abs() == old(Deleted()) && done == old(HasSel()) && !HasSel()
      ensures selAnchor == if done then None else old(selAnchor)
      ensures clipboard == old(clipboard)
    {
      if !HasSel() {
        return false;
      }
      var s, e := SelStart(), SelEnd();
      Remember();
      selAnchor := None;
      Install(Replaced(buf, s, e, []), s);
      return true;
    }

    /** Text inserted in place of the selection, as a second step after deleting it. */
    method InsertText(t: Text)
      requires Valid() && AnchorIn()
      modifies this
      ensures Valid() && AnchorIn() && InView()
      ensures old(Deleted()).now.cursor <= |old(Deleted()).now.buf| && Abs() == Typed(old(Deleted()), t)
      ensures buf == Replaced(old(buf), old(SelStart()), old(SelEnd()), t) && clipboard == old(clipboard)
      ensures selAnchor == if old(HasSel()) then None else old(selAnchor)
    {
      var _ := DeleteSelection();
      Remember();
      var text := InsertAt(buf, cursor, t);
      Install(text, cursor + |t|);
    }

    method InsertChar(c: u8)
      requires Valid() && AnchorIn()
      modifies this
      ensures Valid() && AnchorIn() && InView()
      ensures old(Deleted()).now.cursor <= |old(Deleted()).now.buf| && Abs() == Typed(old(Deleted()), [c])
      ensures buf == Replaced(old(buf), old(SelStart()), old(SelEnd()), [c]) && cursor == old(SelStart()) + 1
      ensures selAnchor == (if old(HasSel()) then None else old(selAnchor)) && clipboard == old(clipboard)
    {
      InsertText([c]);
    }

    /** `i` spaces of a tab have been inserted. */
    ghost predicate Tabbed(d: Session, stale: bool, i: nat)
      requires cursor <= |buf| && AnchorIn() && Sane(d.now)
      reads this
    {
      if i == 0 then d == Deleted() && stale == (selAnchor == Some(cursor))
      else Abs() == Edits(d, TabSteps(d.now, stale, i)) && selAnchor == if stale && i == 1 then Some(d.now.cursor)
        else None
    }

    method InsertSpace(ghost d: Session, ghost stale: bool, ghost i: nat)
      requires Valid() && AnchorIn() && Sane(d.now) && Tabbed(d, stale, i)
      modifies this
      ensures Valid() && AnchorIn() && Tabbed(d, stale, i + 1) && clipboard == old(clipboard)
    {
      TabNext(d, stale, i);
      if i == 1 {
        SpacedNext(d.now, 1);
      }
      InsertChar(SPACE);
    }

    method InsertSpaces(n: nat, ghost d: Session, ghost stale: bool)
      requires Valid() && AnchorIn() && Sane(d.now) && Tabbed(d, stale, 0)
      modifies this
      ensures Valid() && AnchorIn() && Tabbed(d, stale, n) && clipboard == old(clipboard)
    {
      for i := 0 to n
        invariant Valid() && AnchorIn() && Tabbed(d, stale, i) && clipboard == old(clipboard)
      {
        InsertSpace(d, stale, i);
      }
    }

    /** Four spaces, inserted one after another. An anchor that sits at the cursor comes to
        select the first space, which the second insertion then replaces: three remain. */
    method InsertTab()
      requires Valid() && AnchorIn()
      modifies this
      ensures Valid() && AnchorIn() && clipboard == old(clipboard)
      ensures var d, stale := old(Deleted()), old(selAnchor) == Some(old(cursor));
              && d.now.cursor <= |d.now.buf|
              && Abs() == Edits(d, TabSteps(d.now, stale, TAB_WIDTH))
              && Undos(Abs(), if stale then TAB_WIDTH + 1 else TAB_WIDTH).now == d.now
      ensures var n := if old(selAnchor) == Some(old(cursor)) then TAB_WIDTH - 1 else TAB_WIDTH;
              && buf == Replaced(old(buf), old(SelStart()), old(SelEnd()), Spaces(n))
              && cursor == old(SelStart()) + n
    {
      ghost var d, stale := Deleted(), selAnchor == Some(cursor);
      assert d.now == Entry(Replaced(buf, SelStart(), SelEnd(), []), SelStart());
      InsertSpaces(TAB_WIDTH, d, stale);
      TabWhole(d, stale, TAB_WIDTH);
    }

    method Paste()
      requires Valid() && AnchorIn()
      modifies this
      ensures Valid() && AnchorIn() && clipboard == old(clipboard)
      ensures old(Deleted()).now.cursor <= |old(Deleted()).now.buf|
      ensures if clipboard == [] then Abs() == old(Abs())
              else
                && Abs() == Typed(old(Deleted()), clipboard)
                && buf == Replaced(old(buf), old(SelStart()), old(SelEnd()), clipboard)
    {
      if clipboard == [] {
        return;
      }
      var clip := clipboard;
      InsertText(clip);
    }

    method Copy()
      requires Valid() && AnchorIn()
      modifies this`clipboard, this`selAnchor
      ensures Valid() && Abs() == old(Abs()) && selAnchor.None?
      ensures clipboard == if old(HasSel()) then old(Selected()) else old(clipboard)
    {
      if HasSel() {
        clipboard := buf[SelStart()..SelEnd()];
      }
      selAnchor := None;
    }

    method Cut()
      requires Valid() && AnchorIn()
      modifies this
      ensures Valid() && AnchorIn() && Abs() == old(Deleted())
      ensures clipboard == if old(HasSel()) then old(Selected()) else old(clipboard)
    {
      if HasSel() {
        clipboard := buf[SelStart()..SelEnd()];
        var _ := DeleteSelection();
      }
    }

    /** The selection, or else the byte before the cursor. Without a selection, an anchor that
        sits with the cursor at the end of the text is left behind outside it. */
    method Backspace()
      requires Valid() && AnchorIn()
      modifies this
      ensures Valid()
      ensures Abs() == if old(HasSel()) then old(Deleted())
                       else if old(cursor) == 0 then old(Abs())
                       else Edited(old(Abs()),
                         Entry(Replaced(old(buf), old(cursor) - 1, old(cursor), []), old(cursor) - 1))
      ensures selAnchor == if old(HasSel()) then None else old(selAnchor)
      ensures AnchorIn() <==> !(old(selAnchor) == Some(|old(buf)|) && old(cursor) == |old(buf)| > 0)
    {
      var done := DeleteSelection();
      if done {
        return;
      }
      if cursor > 0 {
        Remember();
        Install(Replaced(buf, cursor - 1, cursor, []), cursor - 1);
      }
    }

    method DeleteAtCursor()
      requires Valid() && AnchorIn()
      modifies this
      ensures Valid() && AnchorIn()
      ensures Abs() == if old(HasSel()) then old(Deleted())
                       else if old(cursor) == |old(buf)| then old(Abs())
                       else Edited(old(Abs()), Entry(Replaced(old(buf), old(cursor), old(cursor) + 1, []), old(cursor)))
    {
      var done := DeleteSelection();
      if done {
        return;
      }
      if cursor < |buf| {
        Remember();
        Install(Replaced(buf, cursor, cursor + 1, []), cursor);
      }
    }

    /** A newline and the bytes copied behind it. The new line starts with the indentation of
        the old one exactly if the cursor was not inside that indentation. */
    method InsertNewline()
      requires Valid() && AnchorIn()
      modifies this
      ensures Valid() && AnchorIn() && InView()
      ensures Abs() == Edited(old(Deleted()), Entry(buf, cursor))
      ensures var d := old(Deleted()).now;
              Sane(d) && exists start: nat :: LineBroken(d, start, Entry(buf, cursor))
      ensures selAnchor == (if old(HasSel()) then None else old(selAnchor)) && clipboard == old(clipboard)
    {
      var _ := DeleteSelection();
      Remember();
      var text, pos := BrokenText(buf, lines, cursor);
      Install(text, pos);
    }

    // ---------- find and replace ----------

    /** Goes to the next match, from just after the current one or else from the cursor,
        wrapping around to the first. */
    method FindNext()
      requires Valid()
      modifies this`findMatch, this`cursor, this`scroll
      ensures Valid()
      ensures findQuery == [] ==> findMatch == old(findMatch) && cursor == old(cursor)
      ensures findMatch.None? ==> cursor == old(cursor)
      ensures findQuery != [] ==>
                (findMatch.Some? <==> exists i: nat {:trigger MatchAt(buf, findQuery, i)} :: MatchAt(buf, findQuery, i))
      ensures findQuery != [] && findMatch.Some? ==> cursor == findMatch.value && MatchAt(buf, findQuery, cursor)
      ensures var from := if old(findMatch).Some? then old(findMatch).value + 1 else old(cursor);
              findQuery != [] && findMatch.Some? ==>
                NextMatch(buf, findQuery, from, findMatch.value)
    {
      if findQuery == [] {
        return;
      }
      var from := if findMatch.Some? then findMatch.value + 1 else cursor;
      var found := SearchForward(buf, findQuery, from);
      if found.None? {
        found := SearchForward(buf, findQuery, 0);
      }
      findMatch := found;
      if found.Some? {
        cursor := found.value;
        EnsureScroll();
      }
    }

    /** Replaces the current match, if it still is one, and goes to the next. */
    method DoReplaceCurrent()
      requires Valid()
      modifies this
      ensures Valid()
      ensures if old(findMatch).Some? && MatchAt(old(buf), old(findQuery), old(findMatch).value) then
                && buf == Replaced(old(buf), old(findMatch).value, old(findMatch).value + |old(findQuery)|,
                     old(replaceWith))
                && undoStack == Snapshot(old(Abs())).undo
                && redoStack == []
                && (findQuery == [] || findMatch.None? ==> cursor == old(findMatch).value + |replaceWith|)
                && (findQuery != [] && findMatch.Some? ==> cursor == findMatch.value
                                                           && MatchAt(buf, findQuery, cursor)
                                                           && NextMatch(buf, findQuery, old(findMatch).value + 1,
                                                                cursor))
              else Abs() == old(Abs())
      ensures findQuery == old(findQuery) && replaceWith == old(replaceWith) && selAnchor == old(selAnchor)
    {
      if findMatch.None? || !MatchAt(buf, findQuery, findMatch.value) {
        return;
      }
      var pos := findMatch.value;
      Remember();
      var text := Replaced(buf, pos, pos + |findQuery|, []);
      text := InsertAt(text, pos, replaceWith);
      assert text == Replaced(buf, pos, pos + |findQuery|, replaceWith);
      Install(text, pos + |replaceWith|);
      FindNext();
    }
  }

  /** The first match from `from` on, or the first of all when there is none from there. */
  ghost predicate NextMatch(buf: Text, query: Text, from: nat, m: nat) {
    if m >= from then forall i: nat {:trigger MatchAt(buf, query, i)} | from <= i < m :: !MatchAt(buf, query, i)
    else
      && (forall i: nat {:trigger MatchAt(buf, query, i)} | from <= i :: !MatchAt(buf, query, i))
      && (forall i: nat {:trigger MatchAt(buf, query, i)} | i < m :: !MatchAt(buf, query, i))
  }

  method LineStart(buf: Text, lines: seq<nat>, c: nat) returns (start: nat)
    requires IsLineTable(buf, lines) && c <= |buf|
    ensures start <= c && StartsLine(buf, start) && Newlines(buf, start) == Newlines(buf, c)
  {
    var line := FindLine(buf, lines, c);
    start := lines[line];
    assert StartsLine(buf, start);
    LineIsNewlines(buf, lines, line, start);
  }

  method BrokenText(buf: Text, lines: seq<nat>, c: nat) returns (text: Text, pos: nat)
    requires IsLineTable(buf, lines) && c <= |buf|
    ensures exists start: nat :: LineBroken(Entry(buf, c), start, Entry(text, pos))
    ensures pos <= |text| && |buf| <= |text|
  {
    var start := LineStart(buf, lines, c);
    text, pos := Indented(buf, start, c);
    ghost var ws := Blanks(buf, start);
    IndentCopiedIff(ws, c - start, |ws|);
    assert ws[..|ws|] == ws;
    assert LineBroken(Entry(buf, c), start, Entry(text, pos));
  }

  /** One more byte copied behind the newline. */
  lemma IndentStep(buf: Text, start: nat, c: nat, i: nat)
    requires start <= c <= |buf| && i < |Blanks(buf, start)|
    ensures var ws, pos := Blanks(buf, start), c + 1 + i;
            var text := Replaced(buf, c, c, [NEWLINE] + Copied(ws, c - start, i));
            && |text| == |buf| + 1 + i
            && text[..pos] + [text[start + i]] + text[pos..]
                 == Replaced(buf, c, c, [NEWLINE] + Copied(ws, c - start, i + 1))
  {
    var ws := Blanks(buf, start);
    var was := [NEWLINE] + Copied(ws, c - start, i);
    var text := Replaced(buf, c, c, was);
    assert ws[i] == buf[start..start + |ws|][i] == buf[start + i];
    assert text[start + i] == if start + i < c then ws[i] else was[start + i - c];
    assert was + [text[start + i]] == [NEWLINE] + Copied(ws, c - start, i + 1);
    assert text[..c + 1 + i] == buf[..c] + was && text[c + 1 + i..] == buf[c..];
  }

  /** The newline, then the line's leading blanks copied one by one from the changing text. */
  method Indented(buf: Text, start: nat, c: nat) returns (text: Text, pos: nat)
    requires start <= c <= |buf|
    ensures var ws := Blanks(buf, start);
            text == Replaced(buf, c, c, [NEWLINE] + Copied(ws, c - start, |ws|)) && pos == c + 1 + |ws|
  {
    ghost var ws := Blanks(buf, start);
    var indent := CountBlanks(buf, start);
    text := Replaced(buf, c, c, [NEWLINE]);
    pos := c + 1;
    for i := 0 to indent
      invariant pos == c + 1 + i && text == Replaced(buf, c, c, [NEWLINE] + Copied(ws, c - start, i))
    {
      IndentStep(buf, start, c, i);
      text := text[..pos] + [text[start + i]] + text[pos..];
      pos := pos + 1;
    }
  }

  method CountBlanks(buf: Text, start: nat) returns (n: nat)
    requires start <= |buf|
    ensures n == |Blanks(buf, start)|
  {
    n := 0;
    while start + n < |buf| && IsBlank(buf[start + n])
      invariant start + n <= |buf| && |Blanks(buf, start)| == n + |Blanks(buf, start + n)|
    {
      n := n + 1;
    }
  }
}
