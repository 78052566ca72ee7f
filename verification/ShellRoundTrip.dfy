/**
 Parsing inverts printing: a list of words, double-quoted, escaped and joined by spaces,
 parses to exactly what the words mean as a command.
 */
module ShellRoundTrip {
  import opened Options
  import opened ShellParser

  /** Characters printed with a backslash: at least the quote and the backslash. */
  predicate Escapes(esc: set<char>) {
    '"' in esc && '\\' in esc
  }

  function Escaped(w: string, esc: set<char>): string {
    if w == [] then [] else (if w[0] in esc then ['\\', w[0]] else [w[0]]) + Escaped(w[1..], esc)
  }

  function Printed(w: string, esc: set<char>): string {
    "\"" + Escaped(w, esc) + "\""
  }

  function Joined(ws: seq<string>, esc: set<char>): string {
    if ws == [] then []
    else if |ws| == 1 then Printed(ws[0], esc)
    else Printed(ws[0], esc) + " " + Joined(ws[1..], esc)
  }

  /** What a list of words means: the operator words redirect or send to the background,
      whether they were quoted or not; an empty word is an error. */
  function Meaning(ws: seq<string>, c: Command): Result<Command>
    decreases |ws|
  {
    if ws == [] then (if c.args == [] then Err(EmptyCommand) else Ok(c))
    else if ws[0] == [] then Err(EmptyWord)
    else if ws[0] == "<" || ws[0] == ">" || ws[0] == ">>" then
      if |ws| == 1 || ws[1] == [] then Err(EmptyWord)
      else if ws[0] == "<" then Meaning(ws[2..], c.(stdinFile := Some(ws[1])))
      else Meaning(ws[2..], c.(stdoutFile := Some(ws[1]), append := ws[0] == ">>"))
    else if ws[0] == "&" then Meaning(ws[1..], c.(background := true))
    else Meaning(ws[1..], c.(args := c.args + [ws[0]]))
  }

  // ---------- one word ----------

  /** `t` occurs in `s` at `pos`. */
  predicate Occurs(s: string, pos: nat, t: string) {
    pos + |t| <= |s| && s[pos..pos + |t|] == t
  }

  lemma OccursSplit(s: string, pos: nat, t: string, u: string)
    requires Occurs(s, pos, t + u)
    ensures Occurs(s, pos, t) && Occurs(s, pos + |t|, u)
  {
    var a := s[pos..pos + |t + u|];
    assert a[..|t|] == t && a[|t|..] == u;
    assert s[pos..pos + |t|] == a[..|t|] && s[pos + |t|..pos + |t| + |u|] == a[|t|..];
  }

  lemma {:induction false} QuotedEscaped(s: string, pos: nat, w: string, esc: set<char>, word: string)
    requires Escapes(esc) && Occurs(s, pos, Escaped(w, esc) + "\"")
    ensures Quoted(s, pos, '"', word) == Ok((word + w, pos + |Escaped(w, esc)| + 1))
    decreases |w|
  {
    if w == [] {
      assert s[pos..pos + 1] == "\"" && s[pos] == '"';
      assert word + w == word;
    } else {
      var head := if w[0] in esc then ['\\', w[0]] else [w[0]];
      var tail := Escaped(w[1..], esc) + "\"";
      assert Escaped(w, esc) + "\"" == head + tail;
      OccursSplit(s, pos, head, tail);
      assert s[pos..pos + |head|][0] == head[0] && s[pos] == head[0];
      if w[0] in esc {
        assert s[pos..pos + 2][1] == head[1] && s[pos + 1] == w[0];
      }
      QuotedEscaped(s, pos + |head|, w[1..], esc, word + [w[0]]);
      assert word + [w[0]] + w[1..] == word + w;
    }
  }

  /** A printed word, at the end or before a space, is read back. */
  lemma WordPrinted(s: string, pos: nat, w: string, esc: set<char>)
    requires Escapes(esc) && Occurs(s, pos, Printed(w, esc))
    requires var end := pos + |Printed(w, esc)|; end == |s| || s[end] == ' '
    ensures Word(s, pos, []) == Finished(w, pos + |Printed(w, esc)|)
  {
    var rest := Escaped(w, esc) + "\"";
    assert Printed(w, esc) == "\"" + rest;
    OccursSplit(s, pos, "\"", rest);
    assert s[pos..pos + 1] == "\"" && s[pos] == '"';
    QuotedEscaped(s, pos + 1, w, esc, []);
    assert [] + w == w;
  }

  // ---------- the whole line ----------

  lemma JoinedFirst(s: string, pos: nat, ws: seq<string>, esc: set<char>)
    requires ws != [] && Occurs(s, pos, Joined(ws, esc)) && pos + |Joined(ws, esc)| == |s|
    ensures Occurs(s, pos, Printed(ws[0], esc))
    ensures var end := pos + |Printed(ws[0], esc)|;
            if |ws| == 1 then end == |s|
            else
              && end < |s| && s[end] == ' ' && Occurs(s, end + 1, Joined(ws[1..], esc))
              && end + 1 + |Joined(ws[1..], esc)| == |s|
  {
    if |ws| > 1 {
      var p, rest := Printed(ws[0], esc), " " + Joined(ws[1..], esc);
      assert Joined(ws, esc) == p + rest;
      OccursSplit(s, pos, p, rest);
      OccursSplit(s, pos + |p|, " ", Joined(ws[1..], esc));
      var end := pos + |p|;
      assert s[end..end + 1] == " " && s[end] == ' ';
    }
  }

  /** After a word and the space behind it comes the next printed word. */
  lemma SkipToNext(s: string, end: nat, ws: seq<string>, esc: set<char>)
    requires end < |s| && s[end] == ' ' && ws != [] && Occurs(s, end + 1, Joined(ws, esc))
    requires end + 1 + |Joined(ws, esc)| == |s|
    ensures Skip(s, end) == end + 1
  {
    JoinedFirst(s, end + 1, ws, esc);
    assert Printed(ws[0], esc)[0] == '"';
    assert s[end + 1..end + 1 + |Printed(ws[0], esc)|][0] == '"';
    assert !IsSpace(s[end + 1]);
  }

  /** Where the parser stands once the first word of a printed list is read. */
  function Next(s: string, pos: nat, ws: seq<string>, esc: set<char>): nat
    requires ws != []
  {
    pos + |Printed(ws[0], esc)| + if |ws| == 1 then 0 else 1
  }

  lemma ReadFirst(s: string, pos: nat, ws: seq<string>, esc: set<char>)
    requires Escapes(esc) && ws != [] && Occurs(s, pos, Joined(ws, esc)) && pos + |Joined(ws, esc)| == |s|
    ensures var n := Next(s, pos, ws, esc);
            && n <= |s|
            && Occurs(s, n, Joined(ws[1..], esc))
            && n + |Joined(ws[1..], esc)| == |s|
            && if ws[0] == [] then Word(s, pos, []) == Err(EmptyWord)
               else
                 && Word(s, pos, []).Ok?
                 && Word(s, pos, []).value.0 == ws[0]
                 && Skip(s, Word(s, pos, []).value.1) == n
  {
    JoinedFirst(s, pos, ws, esc);
    WordPrinted(s, pos, ws[0], esc);
    if |ws| > 1 {
      SkipToNext(s, pos + |Printed(ws[0], esc)|, ws[1..], esc);
    }
  }

  lemma NothingLeft(s: string)
    ensures Word(s, |s|, []) == Err(EmptyWord) && Skip(s, |s|) == |s|
  {
  }

  lemma {:induction false} CommandsJoined(s: string, pos: nat, ws: seq<string>, esc: set<char>, c: Command)
    requires Escapes(esc) && Occurs(s, pos, Joined(ws, esc)) && pos + |Joined(ws, esc)| == |s|
    ensures Commands(s, pos, c) == Meaning(ws, c)
    decreases |ws|
  {
    if ws != [] {
      ReadFirst(s, pos, ws, esc);
      var n := Next(s, pos, ws, esc);
      if ws[0] != [] {
        if !IsRedirection(ws[0]) {
          CommandsJoined(s, n, ws[1..], esc, Taken(c, ws[0]));
        } else if |ws| == 1 {
          NothingLeft(s);
        } else {
          ReadFirst(s, n, ws[1..], esc);
          if ws[1] != [] {
            assert ws[1..][1..] == ws[2..];
            CommandsJoined(s, Next(s, n, ws[1..], esc), ws[2..], esc, Redirected(c, ws[0], ws[1]));
          }
        }
      }
    }
  }

  lemma {:induction false} JoinedEnds(ws: seq<string>, esc: set<char>)
    requires ws != []
    ensures Joined(ws, esc) != [] && Joined(ws, esc)[0] == '"' && Joined(ws, esc)[|Joined(ws, esc)| - 1] == '"'
    decreases |ws|
  {
    if |ws| > 1 {
      JoinedEnds(ws[1..], esc);
    }
  }

  /** For every list of words, the printed line parses to what the words mean. */
  lemma ParseInvertsPrint(ws: seq<string>, esc: set<char>)
    requires Escapes(esc)
    ensures Parse(Joined(ws, esc)) == Meaning(ws, NO_COMMAND)
  {
    var s := Joined(ws, esc);
    if ws != [] {
      JoinedEnds(ws, esc);
      assert Trim(s) == s && Skip(s, 0) == 0;
      assert s[0..|s|] == s;
      CommandsJoined(s, 0, ws, esc, NO_COMMAND);
    }
  }

  // ---------- which lists come back unchanged ----------

  predicate IsPlain(w: string) {
    w != [] && w != "<" && w != ">" && w != ">>" && w != "&"
  }

  lemma {:induction false} PlainMeaning(ws: seq<string>, c: Command)
    requires forall i | 0 <= i < |ws| :: IsPlain(ws[i])
    ensures Meaning(ws, c) == if c.args + ws == [] then Err(EmptyCommand) else Ok(c.(args := c.args + ws))
    decreases |ws|
  {
    if ws == [] {
      assert c.args + ws == c.args;
    } else {
      PlainMeaning(ws[1..], Taken(c, ws[0]));
      assert c.args + [ws[0]] + ws[1..] == c.args + ws;
    }
  }

  lemma {:induction false} FewerArgs(ws: seq<string>, c: Command)
    ensures Meaning(ws, c).Ok? ==> |Meaning(ws, c).value.args| <= |c.args| + |ws|
    ensures Meaning(ws, c).Ok? && (exists i :: 0 <= i < |ws| && !IsPlain(ws[i])) ==>
            |Meaning(ws, c).value.args| < |c.args| + |ws|
    decreases |ws|
  {
    if ws != [] && ws[0] != [] {
      if !IsRedirection(ws[0]) {
        FewerArgs(ws[1..], Taken(c, ws[0]));
        if ws[0] != "&" && exists i :: 0 <= i < |ws| && !IsPlain(ws[i]) {
          var i :| 0 <= i < |ws| && !IsPlain(ws[i]);
          assert !IsPlain(ws[1..][i - 1]);
        }
      } else if |ws| > 1 && ws[1] != [] {
        FewerArgs(ws[2..], Redirected(c, ws[0], ws[1]));
      }
    }
  }

  /** The words come back as the arguments of a plain command if and only if there is at
      least one, none is empty and none is an operator word. */
  lemma WordsComeBackIff(ws: seq<string>, esc: set<char>)
    requires Escapes(esc)
    ensures Parse(Joined(ws, esc)) == Ok(NO_COMMAND.(args := ws)) <==>
            ws != [] && forall i | 0 <= i < |ws| :: IsPlain(ws[i])
  {
    ParseInvertsPrint(ws, esc);
    if forall i | 0 <= i < |ws| :: IsPlain(ws[i]) {
      PlainMeaning(ws, NO_COMMAND);
      assert NO_COMMAND.args + ws == ws;
    } else {
      FewerArgs(ws, NO_COMMAND);
    }
  }
}
