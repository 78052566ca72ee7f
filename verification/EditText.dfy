/** Text of the editor: line starts, newline counts, replacement of a range, search. */
module EditText {
  import opened Options
  import opened Bytes

  const NEWLINE: u8 := 10
  const SPACE: u8 := 32
  const TAB: u8 := 9

  type Text = seq<u8>

  // ---------- lines ----------

  /** Exactly the line starts, in order: 0 and every position after a newline. */
  ghost predicate IsLineTable(buf: Text, lines: seq<nat>) {
    && lines != []
    && (forall i, j {:trigger lines[i], lines[j]} | 0 <= i < j < |lines| :: lines[i] < lines[j])
    && (forall i {:trigger lines[i]} | 0 <= i < |lines| :: StartsLine(buf, lines[i]))
    && (forall p: nat {:trigger StartsLine(buf, p)} | StartsLine(buf, p) :: p in lines)
  }

  predicate StartsLine(buf: Text, p: nat) {
    p == 0 || (p <= |buf| && buf[p - 1] == NEWLINE)
  }

  /** The newlines before a position. */
  function Newlines(buf: Text, pos: nat): nat
    requires pos <= |buf|
  {
    if pos == 0 then 0 else Newlines(buf, pos - 1) + if buf[pos - 1] == NEWLINE then 1 else 0
  }

  /** Position `pos` lies on line `i` of the table. */
  predicate OnLine(buf: Text, lines: seq<nat>, i: nat, pos: nat) {
    i < |lines| && lines[i] <= pos <= |buf| && (i + 1 < |lines| ==> pos < lines[i + 1])
  }

  lemma FirstLine(buf: Text, lines: seq<nat>)
    requires IsLineTable(buf, lines)
    ensures lines[0] == 0
  {
    assert StartsLine(buf, 0);
    var i :| 0 <= i < |lines| && lines[i] == 0;
  }

  /** The line a position is on is the number of newlines before it. */
  lemma {:induction false} LineIsNewlines(buf: Text, lines: seq<nat>, i: nat, pos: nat)
    requires IsLineTable(buf, lines) && OnLine(buf, lines, i, pos)
    ensures Newlines(buf, pos) == i
    decreases pos
  {
    FirstLine(buf, lines);
    if pos == 0 {
    } else if buf[pos - 1] == NEWLINE {
      assert StartsLine(buf, pos);
      var k :| 0 <= k < |lines| && lines[k] == pos;
      assert k == i;
      assert i > 0 ==> lines[i - 1] < lines[i];
      LineIsNewlines(buf, lines, i - 1, pos - 1);
    } else {
      assert StartsLine(buf, lines[i]);
      LineIsNewlines(buf, lines, i, pos - 1);
    }
  }

  /** The bytes of line `i`, its newline not counted. */
  function LineLen(buf: Text, lines: seq<nat>, i: nat): nat
    requires i < |lines|
  {
    var end := if i + 1 < |lines| then (if lines[i + 1] > 0 then lines[i + 1] - 1 else 0) else |buf|;
    if end > lines[i] then end - lines[i] else 0
  }

  /** A line reaches to its newline or to the end of the text. */
  lemma LineLenExact(buf: Text, lines: seq<nat>, i: nat, d: nat)
    requires IsLineTable(buf, lines) && i < |lines| && d <= LineLen(buf, lines, i)
    ensures lines[i] + LineLen(buf, lines, i) == if i + 1 < |lines| then lines[i + 1] - 1 else |buf|
    ensures OnLine(buf, lines, i, lines[i] + d)
  {
    assert StartsLine(buf, lines[i]);
    if i + 1 < |lines| {
      assert lines[i] < lines[i + 1];
      assert StartsLine(buf, lines[i + 1]);
    }
  }

  method BuildLines(buf: Text) returns (lines: seq<nat>)
    ensures IsLineTable(buf, lines)
  {
    lines := [0];
    for i := 0 to |buf|
      invariant lines != [] && lines[0] == 0
      invariant forall k {:trigger lines[k]} | 0 <= k < |lines| :: lines[k] <= i && StartsLine(buf, lines[k])
      invariant forall j, k {:trigger lines[j], lines[k]} | 0 <= j < k < |lines| :: lines[j] < lines[k]
      invariant forall p: nat {:trigger StartsLine(buf, p)} | p <= i && StartsLine(buf, p) :: p in lines
    {
      if buf[i] == NEWLINE {
        lines := lines + [i + 1];
      }
    }
  }

  /** Binary search for the line of a position. */
  method FindLine(buf: Text, lines: seq<nat>, pos: nat) returns (line: nat)
    requires IsLineTable(buf, lines) && pos <= |buf|
    ensures OnLine(buf, lines, line, pos) && line == Newlines(buf, pos)
  {
    FirstLine(buf, lines);
    var lo, hi := 0, |lines|;
    while lo + 1 < hi
      invariant 0 <= lo < hi <= |lines|
      invariant lines[lo] <= pos && (hi < |lines| ==> pos < lines[hi])
    {
      var mid := (lo + hi) / 2;
      if lines[mid] <= pos {
        lo := mid;
      } else {
        hi := mid;
      }
    }
    line := lo;
    LineIsNewlines(buf, lines, line, pos);
  }

  // ---------- editing ----------

  /** `buf` with the bytes from `s` to `e` replaced by `t`. */
  function Replaced(buf: Text, s: nat, e: nat, t: Text): Text
    requires s <= e <= |buf|
  {
    buf[..s] + t + buf[e..]
  }

  /** The text before and behind the range is kept; putting the old bytes back restores all. */
  lemma ReplacedExact(buf: Text, s: nat, e: nat, t: Text)
    requires s <= e <= |buf|
    ensures var r := Replaced(buf, s, e, t);
            && |r| == s + |t| + (|buf| - e)
            && r[..s] == buf[..s]
            && r[s..s + |t|] == t
            && r[s + |t|..] == buf[e..]
            && Replaced(r, s, s + |t|, buf[s..e]) == buf
  {
  }

  /** Inserting byte by byte at an advancing position inserts the whole. */
  method InsertAt(buf: Text, pos: nat, t: Text) returns (r: Text)
    requires pos <= |buf|
    ensures r == Replaced(buf, pos, pos, t)
  {
    r := buf;
    assert r == Replaced(buf, pos, pos, []);
    for i := 0 to |t|
      invariant r == Replaced(buf, pos, pos, t[..i])
    {
      r := r[..pos + i] + [t[i]] + r[pos + i..];
      assert t[..i + 1] == t[..i] + [t[i]];
    }
    assert t[..|t|] == t;
  }

  // ---------- search ----------

  predicate MatchAt(buf: Text, query: Text, i: nat) {
    i + |query| <= |buf| && buf[i..i + |query|] == query
  }

  /** The first match at or after `from`; an empty query matches nowhere. */
  method SearchForward(buf: Text, query: Text, from: nat) returns (r: Option<nat>)
    ensures r.Some? ==> query != [] && from <= r.value && MatchAt(buf, query, r.value)
    ensures r.Some? ==> forall i: nat {:trigger MatchAt(buf, query, i)} | from <= i < r.value :: !MatchAt(buf, query, i)
    ensures r.None? ==> query == [] || forall i: nat {:trigger MatchAt(buf, query, i)} | from <= i ::
            !MatchAt(buf, query, i)
  {
    if query == [] || |buf| < |query| {
      return None;
    }
    var limit := |buf| - |query|;
    var i := from;
    while i <= limit
      invariant from <= i
      invariant forall j: nat {:trigger MatchAt(buf, query, j)} | from <= j < i :: !MatchAt(buf, query, j)
    {
      if buf[i..i + |query|] == query {
        return Some(i);
      }
      i := i + 1;
    }
    r := None;
  }

  // ---------- words ----------

  predicate IsWordByte(b: u8) {
    48 <= b <= 57 || 65 <= b <= 90 || 97 <= b <= 122 || b == 95
  }

  predicate WordBoundary(buf: Text, pos: nat) {
    pos == 0 || pos >= |buf| || IsWordByte(buf[pos - 1]) != IsWordByte(buf[pos])
  }

  // ---------- automatic indentation ----------

  predicate IsBlank(b: u8) {
    b == SPACE || b == TAB
  }

  /** The bytes as characters. */
  lemma ByteClasses(c: char)
    requires c as int < 128
    ensures IsWordByte(c as int) <==> 'a' <= c <= 'z' || 'A' <= c <= 'Z' || '0' <= c <= '9' || c == '_'
    ensures IsBlank(c as int) <==> c == ' ' || c == '\t'
    ensures c as int == NEWLINE <==> c == '\n'
    ensures c as int == SPACE <==> c == ' '
  {
  }

  /** The leading blanks of the line that starts at `start`. */
  function Blanks(buf: Text, start: nat): (r: Text)
    requires start <= |buf|
    ensures forall i | 0 <= i < |r| :: IsBlank(r[i])
    ensures start + |r| <= |buf| && buf[start..start + |r|] == r
    ensures start + |r| < |buf| ==> !IsBlank(buf[start + |r|])
    decreases |buf| - start
  {
    if start < |buf| && IsBlank(buf[start]) then [buf[start]] + Blanks(buf, start + 1) else []
  }

  /** What the loop copies after the new newline, with the cursor `col` bytes into the line:
      past the cursor it reads the bytes it has itself inserted, the newline first. */
  function Copied(ws: Text, col: nat, n: nat): (r: Text)
    requires n <= |ws|
    ensures |r| == n
  {
    if n == 0 then []
    else
      var prev := Copied(ws, col, n - 1);
      var i := n - 1;
      prev + [if i < col then ws[i] else if i == col then NEWLINE else prev[i - col - 1]]
  }

  /** The new line gets the old line's indentation if and only if the cursor was not inside it. */
  lemma {:induction false} IndentCopiedIff(ws: Text, col: nat, n: nat)
    requires n <= |ws| && forall i | 0 <= i < |ws| :: IsBlank(ws[i])
    ensures Copied(ws, col, n) == ws[..n] <==> n <= col
    decreases n
  {
    if n > 0 {
      IndentCopiedIff(ws, col, n - 1);
      var c := Copied(ws, col, n);
      assert c[..n - 1] == Copied(ws, col, n - 1) && ws[..n][..n - 1] == ws[..n - 1];
      if n - 1 == col {
        assert c[n - 1] == NEWLINE && IsBlank(ws[n - 1]);
      }
      if n <= col {
        assert ws[..n] == ws[..n - 1] + [ws[n - 1]];
      }
    }
  }
}
