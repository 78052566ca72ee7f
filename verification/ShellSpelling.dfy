/**
 What can be typed. A line is a list of tokens with white space between them; a token is an operator
 or a word spelt in pieces: bare characters, characters behind a backslash, and stretches in either
 kind of quotes. Whatever the spelling and the spacing, the line parses to what its words mean.
 */
module ShellSpelling {
  import opened Options
  import opened ShellParser
  import opened ShellRoundTrip

  datatype Kind = Bare | Slash | Double(esc: set<char>) | Single

  /** A piece of a word: how it is typed, and what it says. */
  datatype Piece = Piece(kind: Kind, text: string, says: string)

  /** No blank, quote, backslash or operator character. */
  predicate IsBareChar(c: char) {
    !IsTrimmed(c) && c != '\\' && c != '"' && c != '\'' && c !in "|<>&"
  }

  /** Any character may follow a backslash. */
  predicate Fits(p: Piece) {
    match p.kind
    case Bare => |p.says| == 1 && IsBareChar(p.says[0]) && p.text == p.says
    case Slash => |p.says| == 1 && p.text == ['\\', p.says[0]]
    case Double(esc) => Escapes(esc) && p.text == "\"" + Escaped(p.says, esc) + "\""
    case Single => '\'' !in p.says && p.text == "'" + p.says + "'"
  }

  function Spelt(sp: seq<Piece>): string {
    if sp == [] then [] else sp[0].text + Spelt(sp[1..])
  }

  function Reads(sp: seq<Piece>): string {
    if sp == [] then [] else sp[0].says + Reads(sp[1..])
  }

  // ---------- one word ----------

  lemma OccursAt(s: string, pos: nat, t: string, i: nat)
    requires Occurs(s, pos, t) && i < |t|
    ensures s[pos + i] == t[i]
  {
    assert s[pos..pos + |t|][i] == t[i];
  }

  lemma {:induction false} QuotedSingle(s: string, pos: nat, w: string, word: string)
    requires '\'' !in w && Occurs(s, pos, w + "'")
    ensures Quoted(s, pos, '\'', word) == Ok((word + w, pos + |w| + 1))
    decreases |w|
  {
    OccursAt(s, pos, w + "'", 0);
    if w == [] {
      assert word + w == word;
    } else {
      assert w + "'" == [w[0]] + (w[1..] + "'");
      OccursSplit(s, pos, [w[0]], w[1..] + "'");
      QuotedSingle(s, pos + 1, w[1..], word + [w[0]]);
      assert word + [w[0]] + w[1..] == word + w;
    }
  }

  /** A word ends at the end of the line, before a space or a tab, or, if it is not empty, before an operator. */
  predicate EndsAt(s: string, end: nat, word: string)
    requires end <= |s|
  {
    end == |s| || s[end] == ' ' || s[end] == '\t' || (IsOperator(s[end]) && word != [])
  }

  lemma ReadBare(s: string, pos: nat, c: char, word: string)
    requires IsBareChar(c) && pos < |s| && s[pos] == c
    ensures Word(s, pos, word) == Word(s, pos + 1, word + [c])
  {
    assert !IsOperator(c) && c != ' ' && c != '\t';
  }

  lemma ReadSlash(s: string, pos: nat, c: char, word: string)
    requires pos + 1 < |s| && s[pos] == '\\' && s[pos + 1] == c
    ensures Word(s, pos, word) == Word(s, pos + 2, word + [c])
  {
  }

  lemma ReadQuotes(s: string, pos: nat, quote: char, word: string, w: string, end: nat)
    requires pos < |s| && s[pos] == quote && (quote == '"' || quote == '\'') && end <= |s|
    requires Quoted(s, pos + 1, quote, word) == Ok((word + w, end))
    ensures Word(s, pos, word) == Word(s, end, word + w)
  {
  }

  lemma QuotesSplit(s: string, pos: nat, q: string, inner: string)
    requires |q| == 1 && Occurs(s, pos, q + inner + q)
    ensures Occurs(s, pos + 1, inner + q) && s[pos] == q[0]
  {
    OccursAt(s, pos, q + inner + q, 0);
    Assoc(q, inner, q);
    OccursSplit(s, pos, q, inner + q);
  }

  lemma ReadDouble(s: string, pos: nat, text: string, w: string, esc: set<char>, word: string)
    requires Escapes(esc) && text == "\"" + Escaped(w, esc) + "\"" && Occurs(s, pos, text)
    ensures Word(s, pos, word) == Word(s, pos + |text|, word + w)
  {
    QuotesSplit(s, pos, "\"", Escaped(w, esc));
    QuotedEscaped(s, pos + 1, w, esc, word);
    ReadQuotes(s, pos, '"', word, w, pos + |text|);
  }

  lemma ReadSingle(s: string, pos: nat, text: string, w: string, word: string)
    requires '\'' !in w && text == "'" + w + "'" && Occurs(s, pos, text)
    ensures Word(s, pos, word) == Word(s, pos + |text|, word + w)
  {
    QuotesSplit(s, pos, "'", w);
    QuotedSingle(s, pos + 1, w, word);
    ReadQuotes(s, pos, '\'', word, w, pos + |text|);
  }

  lemma ReadChar(s: string, pos: nat, p: Piece, word: string)
    requires Fits(p) && Occurs(s, pos, p.text) && (p.kind == Bare || p.kind == Slash)
    ensures Word(s, pos, word) == Word(s, pos + |p.text|, word + p.says)
  {
    var c := p.says[0];
    assert p.says == [c];
    OccursAt(s, pos, p.text, 0);
    if p.kind == Bare {
      ReadBare(s, pos, c, word);
    } else {
      OccursAt(s, pos, p.text, 1);
      ReadSlash(s, pos, c, word);
    }
  }

  /** Reading one piece. */
  lemma ReadPiece(s: string, pos: nat, p: Piece, word: string)
    requires Fits(p) && Occurs(s, pos, p.text)
    ensures Word(s, pos, word) == Word(s, pos + |p.text|, word + p.says)
  {
    match p.kind
    case Double(esc) => ReadDouble(s, pos, p.text, p.says, esc, word);
    case Single => ReadSingle(s, pos, p.text, p.says, word);
    case _ => ReadChar(s, pos, p, word);
  }

  lemma Assoc(a: string, b: string, c: string)
    ensures a + b + c == a + (b + c)
  {
  }

  lemma SplitAt(s: string, pos: nat, all: string, t: string, u: string)
    requires all == t + u && Occurs(s, pos, all)
    ensures Occurs(s, pos, t) && Occurs(s, pos + |t|, u) && |t| + |u| == |all|
  {
    OccursSplit(s, pos, t, u);
  }

  lemma SpeltCons(sp: seq<Piece>)
    requires sp != []
    ensures Spelt(sp) == sp[0].text + Spelt(sp[1..]) && Reads(sp) == sp[0].says + Reads(sp[1..])
  {
  }

  lemma PieceRead(s: string, pos: nat, p: Piece, word: string, end: nat, r: string)
    requires Fits(p) && Occurs(s, pos, p.text) && Word(s, pos + |p.text|, word + p.says) == Finished(r, end)
    ensures Word(s, pos, word) == Finished(r, end)
  {
    ReadPiece(s, pos, p, word);
  }

  /** The pieces stand in `s` one after another, from `pos` to `end`. */
  ghost predicate SpellsAt(s: string, pos: nat, sp: seq<Piece>, end: nat)
    decreases |sp|
  {
    if sp == [] then pos == end <= |s|
    else Fits(sp[0]) && Occurs(s, pos, sp[0].text) && SpellsAt(s, pos + |sp[0].text|, sp[1..], end)
  }

  lemma {:induction false} SpeltStands(s: string, pos: nat, sp: seq<Piece>)
    requires (forall i | 0 <= i < |sp| :: Fits(sp[i])) && Occurs(s, pos, Spelt(sp))
    ensures SpellsAt(s, pos, sp, pos + |Spelt(sp)|)
    decreases |sp|
  {
    if sp != [] {
      SpeltCons(sp);
      SplitAt(s, pos, Spelt(sp), sp[0].text, Spelt(sp[1..]));
      SpeltStands(s, pos + |sp[0].text|, sp[1..]);
    }
  }

  /** `r` is `word` with what the pieces say added piece by piece. */
  ghost predicate Gathers(word: string, sp: seq<Piece>, r: string)
    decreases |sp|
  {
    if sp == [] then r == word else Gathers(word + sp[0].says, sp[1..], r)
  }

  lemma {:induction false} ReadsGathers(word: string, sp: seq<Piece>)
    ensures Gathers(word, sp, word + Reads(sp))
    decreases |sp|
  {
    if sp == [] {
      assert word + Reads(sp) == word;
    } else {
      ReadsGathers(word + sp[0].says, sp[1..]);
      SpeltCons(sp);
      Assoc(word, sp[0].says, Reads(sp[1..]));
    }
  }

  /** However a word is spelt, it is read. */
  lemma {:induction false} ReadSpelt(s: string, pos: nat, sp: seq<Piece>, word: string, end: nat, r: string)
    requires SpellsAt(s, pos, sp, end) && Gathers(word, sp, r) && end <= |s| && EndsAt(s, end, r)
    ensures pos <= |s| && Word(s, pos, word) == Finished(r, end)
    decreases |sp|
  {
    if sp != [] {
      ReadSpelt(s, pos + |sp[0].text|, sp[1..], word + sp[0].says, end, r);
      PieceRead(s, pos, sp[0], word, end, r);
    }
  }

  // ---------- tokens and lines ----------

  datatype Token = Typed(sp: seq<Piece>) | Op(op: string) {
    predicate Sound() {
      match this
      case Typed(sp) => sp != [] && forall i | 0 <= i < |sp| :: Fits(sp[i])
      case Op(op) => op in {"|", "<", ">", "&", ">>", "&&"}
    }

    function Text(): string {
      if Typed? then Spelt(sp) else op
    }

    function Word(): string {
      if Typed? then Reads(sp) else op
    }
  }

  /** A token, how it is typed, the word it stands for, and the white space behind it. */
  datatype Item = Item(token: Token, text: string, word: string, gap: string) {
    predicate Sound() {
      token.Sound() && text == token.Text() && word == token.Word() && IsGap(gap)
    }
  }

  function ItemOf(token: Token, gap: string): Item {
    Item(token, token.Text(), token.Word(), gap)
  }

  predicate IsGap(gap: string) {
    (forall i | 0 <= i < |gap| :: IsSpace(gap[i])) && (gap != [] ==> gap[0] == ' ' || gap[0] == '\t')
  }

  /** White space may be missing between a word and an operator, but not between words or operators. */
  predicate Spaced(items: seq<Item>, i: nat)
    requires i < |items|
  {
    var a := items[i];
    && a.Sound()
    && if i + 1 == |items| then a.gap == []
       else a.gap == [] ==> a.token.Typed? != items[i + 1].token.Typed? && (a.token.Typed? ==> a.word != [])
  }

  predicate IsLine(items: seq<Item>) {
    forall i {:trigger Spaced(items, i)} | 0 <= i < |items| :: Spaced(items, i)
  }

  function LineText(items: seq<Item>): string {
    if items == [] then [] else items[0].text + items[0].gap + LineText(items[1..])
  }

  function Words(items: seq<Item>): seq<string> {
    if items == [] then [] else [items[0].word] + Words(items[1..])
  }

  lemma TailIsLine(items: seq<Item>)
    requires items != [] && IsLine(items)
    ensures IsLine(items[1..])
  {
    forall i | 0 <= i < |items[1..]|
      ensures Spaced(items[1..], i)
    {
      assert Spaced(items, i + 1);
    }
  }

  /** A token starts with a character that is no white space, and a word with no operator. */
  lemma TokenStarts(t: Token)
    requires t.Sound()
    ensures t.Text() != [] && !IsSpace(t.Text()[0]) && !IsTrimmed(t.Text()[0])
    ensures t.Typed? ==> !IsOperator(t.Text()[0])
  {
    if t.Typed? {
      PieceStarts(t.sp[0]);
      SpeltCons(t.sp);
    }
  }

  lemma PieceStarts(p: Piece)
    requires Fits(p)
    ensures p.text != [] && !IsTrimmed(p.text[0]) && !IsOperator(p.text[0])
  {
  }

  lemma {:induction false} SkipGap(s: string, pos: nat, gap: string)
    requires Occurs(s, pos, gap) && forall i | 0 <= i < |gap| :: IsSpace(gap[i])
    requires pos + |gap| == |s| || !IsSpace(s[pos + |gap|])
    ensures Skip(s, pos) == pos + |gap|
    decreases |gap|
  {
    if gap != [] {
      OccursAt(s, pos, gap, 0);
      assert gap == [gap[0]] + gap[1..];
      OccursSplit(s, pos, [gap[0]], gap[1..]);
      SkipGap(s, pos + 1, gap[1..]);
    }
  }

  lemma SplitIn3(s: string, pos: nat, all: string, a: string, b: string, c: string)
    requires all == a + b + c && Occurs(s, pos, all)
    ensures Occurs(s, pos, a) && Occurs(s, pos + |a|, b) && Occurs(s, pos + |a| + |b|, c) && |a| + |b| + |c| == |all|
  {
    OccursSplit(s, pos, a + b, c);
    OccursSplit(s, pos, a, b);
  }

  /** The rest of `s`, from `pos` on, is this line. */
  ghost predicate Stands(s: string, pos: nat, items: seq<Item>)
    decreases |items|
  {
    if items == [] then pos == |s|
    else
      var text, gap := items[0].text, items[0].gap;
      Occurs(s, pos, text) && Occurs(s, pos + |text|, gap) && Stands(s, pos + |text| + |gap|, items[1..])
  }

  lemma {:induction false} TextStands(s: string, pos: nat, items: seq<Item>, all: string)
    requires all == LineText(items) && Occurs(s, pos, all) && pos + |all| == |s|
    ensures Stands(s, pos, items)
    decreases |items|
  {
    if items != [] {
      var text, gap, rest := items[0].text, items[0].gap, LineText(items[1..]);
      SplitIn3(s, pos, all, text, gap, rest);
      TextStands(s, pos + |text| + |gap|, items[1..], rest);
    }
  }

  /** The first character of a line. */
  lemma FirstOf(s: string, pos: nat, items: seq<Item>)
    requires items != [] && IsLine(items) && Stands(s, pos, items)
    ensures pos < |s| && !IsSpace(s[pos]) && (IsOperator(s[pos]) <==> items[0].token.Op?)
  {
    assert Spaced(items, 0);
    TokenStarts(items[0].token);
    OccursAt(s, pos, items[0].text, 0);
  }

  lemma ReadOp(s: string, pos: nat, op: string)
    requires Op(op).Sound() && Occurs(s, pos, op)
    requires pos + |op| == |s| || !IsOperator(s[pos + |op|])
    ensures Word(s, pos, []) == Ok((op, pos + |op|))
  {
    OccursAt(s, pos, op, 0);
    if |op| == 2 {
      OccursAt(s, pos, op, 1);
    }
  }

  /** The line behind the first token and its gap, if there is one, starts with no white space. */
  lemma RestOf(s: string, items: seq<Item>, at: nat)
    requires items != [] && IsLine(items) && Stands(s, at, items[1..])
    ensures at <= |s| && (|items| == 1 ==> at == |s|)
    ensures |items| > 1 ==> at < |s| && !IsSpace(s[at]) && (IsOperator(s[at]) <==> items[1].token.Op?)
  {
    TailIsLine(items);
    if |items| > 1 {
      FirstOf(s, at, items[1..]);
    } else {
      assert items[1..] == [];
    }
  }

  lemma GapStarts(s: string, end: nat, gap: string)
    requires IsGap(gap) && Occurs(s, end, gap) && gap != []
    ensures end < |s| && (s[end] == ' ' || s[end] == '\t')
  {
    OccursAt(s, end, gap, 0);
  }

  /** What stands behind the first token lets it end there. */
  lemma Behind(s: string, items: seq<Item>, end: nat, gap: string)
    requires items != [] && IsLine(items) && gap == items[0].gap && Occurs(s, end, gap)
    requires Stands(s, end + |gap|, items[1..])
    ensures Skip(s, end) == end + |gap|
    ensures items[0].token.Typed? ==> EndsAt(s, end, items[0].word)
    ensures items[0].token.Op? ==> end == |s| || !IsOperator(s[end])
  {
    assert Spaced(items, 0);
    RestOf(s, items, end + |gap|);
    SkipGap(s, end, gap);
    if gap != [] {
      GapStarts(s, end, gap);
    }
  }

  /** At `pos` the word `w` is read up to `end`, and white space up to `next`. */
  predicate ReadAt(s: string, pos: nat, w: string, end: nat, next: nat) {
    pos < end <= next <= |s| && Word(s, pos, []) == Finished(w, end) && Skip(s, end) == next
  }

  /** The first token of a line is read. */
  lemma ReadToken(s: string, pos: nat, items: seq<Item>, end: nat)
    requires items != [] && IsLine(items) && Stands(s, pos, items) && end == pos + |items[0].text|
    ensures ReadAt(s, pos, items[0].word, end, end + |items[0].gap|) && Stands(s, end + |items[0].gap|, items[1..])
  {
    var t, gap := items[0].token, items[0].gap;
    assert Spaced(items, 0);
    assert pos < end by {
      TokenStarts(t);
    }
    Behind(s, items, end, gap);
    assert Word(s, pos, []) == Finished(items[0].word, end) by {
      if t.Typed? {
        ReadTyped(s, pos, t.sp, end);
      } else {
        ReadOp(s, pos, t.op);
      }
    }
  }

  lemma ReadTyped(s: string, pos: nat, sp: seq<Piece>, end: nat)
    requires (forall i | 0 <= i < |sp| :: Fits(sp[i])) && Occurs(s, pos, Spelt(sp)) && end == pos + |Spelt(sp)|
    requires EndsAt(s, end, Reads(sp))
    ensures Word(s, pos, []) == Finished(Reads(sp), end)
  {
    SpeltStands(s, pos, sp);
    ReadsGathers([], sp);
    assert [] + Reads(sp) == Reads(sp);
    ReadSpelt(s, pos, sp, [], end, Reads(sp));
  }

  // ---------- whole lines ----------

  lemma CommandsWord(s: string, pos: nat, w: string, end: nat, next: nat, c: Command)
    requires ReadAt(s, pos, w, end, next) && !IsRedirection(w)
    ensures Commands(s, pos, c) == if w == [] then Err(EmptyWord) else Commands(s, next, Taken(c, w))
  {
  }

  lemma CommandsRedirected(s: string, pos: nat, w: string, end: nat, at: nat, file: string, end': nat, next: nat,
                           c: Command)
    requires ReadAt(s, pos, w, end, at) && ReadAt(s, at, file, end', next) && IsRedirection(w)
    ensures Commands(s, pos, c) == if file == [] then Err(EmptyWord) else Commands(s, next, Redirected(c, w, file))
  {
  }

  lemma MeaningWord(ws: seq<string>, c: Command)
    requires ws != [] && !IsRedirection(ws[0])
    ensures Meaning(ws, c) == if ws[0] == [] then Err(EmptyWord) else Meaning(ws[1..], Taken(c, ws[0]))
  {
  }

  lemma MeaningRedirected(ws: seq<string>, c: Command)
    requires |ws| > 1 && IsRedirection(ws[0])
    ensures Meaning(ws, c) == if ws[1] == [] then Err(EmptyWord) else Meaning(ws[2..], Redirected(c, ws[0], ws[1]))
  {
  }

  /** Where the token behind the first one begins. */
  function NextAt(pos: nat, items: seq<Item>): nat
    requires items != []
  {
    pos + |items[0].text| + |items[0].gap|
  }

  lemma WordsOf(items: seq<Item>)
    requires items != []
    ensures Words(items) != [] && Words(items)[0] == items[0].word && Words(items)[1..] == Words(items[1..])
  {
  }

  lemma WordCase(s: string, pos: nat, items: seq<Item>, c: Command)
    requires items != [] && IsLine(items) && Stands(s, pos, items) && !IsRedirection(items[0].word)
    ensures NextAt(pos, items) <= |s| && Stands(s, NextAt(pos, items), items[1..])
    ensures Commands(s, pos, c) ==
            if items[0].word == [] then Err(EmptyWord) else Commands(s, NextAt(pos, items), Taken(c, items[0].word))
  {
    ReadToken(s, pos, items, pos + |items[0].text|);
    CommandsWord(s, pos, items[0].word, pos + |items[0].text|, NextAt(pos, items), c);
  }

  lemma RedirectCase(s: string, pos: nat, op: string, end: nat, at: nat, rest: seq<Item>, c: Command)
    requires ReadAt(s, pos, op, end, at) && IsRedirection(op) && rest != [] && IsLine(rest) && Stands(s, at, rest)
    ensures NextAt(at, rest) <= |s| && Stands(s, NextAt(at, rest), rest[1..])
    ensures Commands(s, pos, c) ==
            if rest[0].word == [] then Err(EmptyWord)
            else Commands(s, NextAt(at, rest), Redirected(c, op, rest[0].word))
  {
    ReadToken(s, at, rest, at + |rest[0].text|);
    CommandsRedirected(s, pos, op, end, at, rest[0].word, at + |rest[0].text|, NextAt(at, rest), c);
  }

  lemma RedirectLast(s: string, pos: nat, items: seq<Item>, c: Command)
    requires |items| == 1 && IsLine(items) && Stands(s, pos, items) && IsRedirection(items[0].word)
    ensures Commands(s, pos, c) == Err(EmptyWord)
  {
    var end := pos + |items[0].text|;
    ReadToken(s, pos, items, end);
    assert items[1..] == [] && NextAt(pos, items) == |s|;
    NothingLeft(s);
  }

  lemma {:induction false} CommandsSpelt(s: string, pos: nat, items: seq<Item>, c: Command)
    requires IsLine(items) && Stands(s, pos, items)
    ensures Commands(s, pos, c) == Meaning(Words(items), c)
    decreases |items|
  {
    if items != [] {
      var w := items[0].word;
      WordsOf(items);
      TailIsLine(items);
      if !IsRedirection(w) {
        MeaningWord(Words(items), c);
        WordCase(s, pos, items, c);
        if w != [] {
          CommandsSpelt(s, NextAt(pos, items), items[1..], Taken(c, w));
        }
      } else if |items| == 1 {
        RedirectLast(s, pos, items, c);
        assert |Words(items)| == 1;
      } else {
        var rest, at := items[1..], NextAt(pos, items);
        WordsOf(rest);
        TailIsLine(rest);
        assert Words(items)[2..] == Words(rest[1..]);
        MeaningRedirected(Words(items), c);
        ReadToken(s, pos, items, pos + |items[0].text|);
        RedirectCase(s, pos, w, pos + |items[0].text|, at, rest, c);
        if rest[0].word != [] {
          CommandsSpelt(s, NextAt(at, rest), rest[1..], Redirected(c, w, rest[0].word));
        }
      }
    }
  }

  // ---------- the ends of the line ----------

  predicate AllTrimmed(s: string) {
    forall i | 0 <= i < |s| :: IsTrimmed(s[i])
  }

  lemma {:induction false} TrimAround(pre: string, s: string, post: string)
    requires AllTrimmed(pre) && AllTrimmed(post) && s != [] && !IsTrimmed(s[0]) && !IsTrimmed(s[|s| - 1])
    ensures Trim(pre + s + post) == s
    decreases |pre| + |post|
  {
    var t := pre + s + post;
    if pre != [] {
      assert t[1..] == pre[1..] + s + post;
      TrimAround(pre[1..], s, post);
    } else if post != [] {
      assert t[..|t| - 1] == pre + s + post[..|post| - 1];
      TrimAround(pre, s, post[..|post| - 1]);
    } else {
      assert t == s;
    }
  }

  lemma LineStarts(items: seq<Item>)
    requires items != [] && IsLine(items)
    ensures LineText(items) != [] && !IsTrimmed(LineText(items)[0])
  {
    assert Spaced(items, 0);
    TokenStarts(items[0].token);
    assert LineText(items)[0] == items[0].text[0];
  }

  /**
   However the words of a line are spelt and spaced, the line parses to what they mean. The last
   character must not be white space, which trimming would take even behind a backslash.
   */
  lemma ParseSpelt(pre: string, items: seq<Item>, post: string)
    requires items != [] && IsLine(items) && AllTrimmed(pre) && AllTrimmed(post)
    requires LineText(items) != [] && !IsTrimmed(LineText(items)[|LineText(items)| - 1])
    ensures Parse(pre + LineText(items) + post) == Meaning(Words(items), NO_COMMAND)
  {
    var s := LineText(items);
    LineStarts(items);
    TrimAround(pre, s, post);
    assert !IsSpace(s[0]) && Skip(s, 0) == 0;
    assert s[0..|s|] == s;
    TextStands(s, 0, items, s);
    CommandsSpelt(s, 0, items, NO_COMMAND);
  }

  // ---------- lines as people type them ----------

  /** No blank, quote, backslash or operator character. */
  predicate IsBare(w: string) {
    w != [] && forall i | 0 <= i < |w| :: IsBareChar(w[i])
  }

  predicate AllBare(ws: seq<string>) {
    forall i | 0 <= i < |ws| :: IsBare(ws[i])
  }

  /** The words with single spaces between them. */
  function Typing(ws: seq<string>): string {
    if ws == [] then [] else if |ws| == 1 then ws[0] else ws[0] + " " + Typing(ws[1..])
  }

  function BarePieces(w: string): (sp: seq<Piece>)
    ensures |sp| == |w| && forall i | 0 <= i < |w| :: sp[i] == Piece(Bare, [w[i]], [w[i]])
  {
    seq(|w|, i requires 0 <= i < |w| => Piece(Bare, [w[i]], [w[i]]))
  }

  lemma {:induction false} BareSpelling(w: string)
    ensures Spelt(BarePieces(w)) == w && Reads(BarePieces(w)) == w
    decreases |w|
  {
    if w != [] {
      assert BarePieces(w)[1..] == BarePieces(w[1..]);
      BareSpelling(w[1..]);
    }
  }

  /** The words as items, and more items behind them. */
  function Items(ws: seq<string>, more: seq<Item>): seq<Item> {
    if ws == [] then more
    else [ItemOf(Typed(BarePieces(ws[0])), if |ws| == 1 && more == [] then "" else " ")] + Items(ws[1..], more)
  }

  lemma ConsIsLine(a: Item, items: seq<Item>)
    requires IsLine(items) && a.Sound() && a.gap == if items == [] then "" else " "
    ensures IsLine([a] + items)
  {
    var all := [a] + items;
    forall i | 0 <= i < |all|
      ensures Spaced(all, i)
    {
      if i > 0 {
        assert Spaced(items, i - 1);
      }
    }
  }

  lemma ConsText(a: Item, items: seq<Item>)
    ensures LineText([a] + items) == a.text + a.gap + LineText(items)
    ensures Words([a] + items) == [a.word] + Words(items)
  {
    assert ([a] + items)[1..] == items;
  }

  /** A line of one token. */
  lemma OneToken(t: Token)
    requires t.Sound()
    ensures IsLine([ItemOf(t, "")]) && LineText([ItemOf(t, "")]) == t.Text() && Words([ItemOf(t, "")]) == [t.Word()]
  {
    var a := ItemOf(t, "");
    assert [a] + [] == [a];
    ConsIsLine(a, []);
    ConsText(a, []);
    assert t.Text() + "" + "" == t.Text() && [t.Word()] + [] == [t.Word()];
  }

  function FirstItem(ws: seq<string>, more: seq<Item>): Item
    requires ws != []
  {
    ItemOf(Typed(BarePieces(ws[0])), if |ws| == 1 && more == [] then "" else " ")
  }

  lemma ItemsCons(ws: seq<string>, more: seq<Item>)
    requires ws != []
    ensures Items(ws, more) == [FirstItem(ws, more)] + Items(ws[1..], more)
    ensures FirstItem(ws, more).text == ws[0] && FirstItem(ws, more).word == ws[0]
    ensures Items(ws[1..], more) == [] <==> |ws| == 1 && more == []
  {
    BareSpelling(ws[0]);
  }

  lemma {:induction false} ItemsLine(ws: seq<string>, more: seq<Item>)
    requires AllBare(ws) && IsLine(more)
    ensures IsLine(Items(ws, more))
    decreases |ws|
  {
    if ws != [] {
      ItemsLine(ws[1..], more);
      ItemsCons(ws, more);
      ConsIsLine(FirstItem(ws, more), Items(ws[1..], more));
    }
  }

  lemma {:induction false} ItemsWords(ws: seq<string>, more: seq<Item>)
    ensures Words(Items(ws, more)) == ws + Words(more)
    decreases |ws|
  {
    if ws == [] {
      assert ws + Words(more) == Words(more);
    } else {
      ItemsWords(ws[1..], more);
      ItemsCons(ws, more);
      ConsText(FirstItem(ws, more), Items(ws[1..], more));
      ConsConcat(ws, Words(more));
    }
  }

  lemma ConsConcat(ws: seq<string>, rest: seq<string>)
    requires ws != []
    ensures ws + rest == [ws[0]] + (ws[1..] + rest)
  {
  }

  /** The text of the words, and that of what follows them. */
  function Before(ws: seq<string>, rest: string, more: bool): string {
    if ws == [] then rest else if !more then Typing(ws) else Typing(ws) + " " + rest
  }

  lemma BeforeCons(ws: seq<string>, rest: string, more: bool)
    requires ws != [] && (!more ==> rest == "")
    ensures Before(ws, rest, more) == ws[0] + (if |ws| == 1 && !more then "" else " ") + Before(ws[1..], rest, more)
  {
    if |ws| > 1 && more {
      Assoc(ws[0] + " ", Typing(ws[1..]), " " + rest);
      Assoc(ws[0] + " " + Typing(ws[1..]), " ", rest);
      Assoc(Typing(ws[1..]), " ", rest);
    }
  }

  lemma {:induction false} ItemsText(ws: seq<string>, more: seq<Item>)
    ensures LineText(Items(ws, more)) == Before(ws, LineText(more), more != [])
    decreases |ws|
  {
    if ws != [] {
      ItemsText(ws[1..], more);
      ItemsCons(ws, more);
      ConsText(FirstItem(ws, more), Items(ws[1..], more));
      BeforeCons(ws, LineText(more), more != []);
    }
  }

  lemma {:induction false} TypingEnds(ws: seq<string>)
    requires ws != [] && AllBare(ws)
    ensures Typing(ws) != [] && !IsTrimmed(Typing(ws)[|Typing(ws)| - 1])
    decreases |ws|
  {
    if |ws| > 1 {
      TypingEnds(ws[1..]);
    } else {
      BareEnds(ws[0]);
    }
  }

  lemma BareEnds(w: string)
    requires IsBare(w)
    ensures !IsTrimmed(w[|w| - 1]) && IsPlain(w)
  {
    assert IsBareChar(w[0]) && IsBareChar(w[|w| - 1]);
  }

  lemma {:induction false} PlainThen(ws: seq<string>, rest: seq<string>, c: Command)
    requires forall i | 0 <= i < |ws| :: IsPlain(ws[i])
    ensures Meaning(ws + rest, c) == Meaning(rest, c.(args := c.args + ws))
    decreases |ws|
  {
    if ws == [] {
      assert ws + rest == rest && c.args + ws == c.args;
    } else {
      assert (ws + rest)[1..] == ws[1..] + rest;
      PlainThen(ws[1..], rest, c.(args := c.args + [ws[0]]));
      assert c.args + [ws[0]] + ws[1..] == c.args + ws;
    }
  }

  lemma ParseItems(items: seq<Item>, line: string)
    requires items != [] && IsLine(items) && line == LineText(items)
    requires line != [] && !IsTrimmed(line[|line| - 1])
    ensures Parse(line) == Meaning(Words(items), NO_COMMAND)
  {
    assert "" + line + "" == line;
    ParseSpelt("", items, "");
  }

  /** The typed words, followed by the text of `more`, parse to the words as arguments and the rest. */
  lemma TypedThen(ws: seq<string>, more: seq<Item>, line: string)
    requires ws != [] && AllBare(ws) && IsLine(more)
    requires line == if more == [] then Typing(ws) else Typing(ws) + " " + LineText(more)
    requires line != [] && !IsTrimmed(line[|line| - 1])
    ensures Parse(line) == Meaning(Words(more), Command(ws, None, None, false, false))
  {
    var items := Items(ws, more);
    assert LineText(items) == line by {
      ItemsText(ws, more);
    }
    ItemsLine(ws, more);
    ParseItems(items, line);
    ItemsWords(ws, more);
    BareThen(ws, Words(more));
  }

  lemma BareThen(ws: seq<string>, rest: seq<string>)
    requires AllBare(ws)
    ensures Meaning(ws + rest, NO_COMMAND) == Meaning(rest, Command(ws, None, None, false, false))
  {
    forall i | 0 <= i < |ws|
      ensures IsPlain(ws[i])
    {
      BareEnds(ws[i]);
    }
    PlainThen(ws, rest, NO_COMMAND);
    assert [] + ws == ws;
  }

  /** A command as it is typed: its words are the arguments, in order. */
  lemma TypedCommand(ws: seq<string>)
    requires ws != [] && AllBare(ws)
    ensures Parse(Typing(ws)) == Ok(Command(ws, None, None, false, false))
  {
    TypingEnds(ws);
    TypedThen(ws, [], Typing(ws));
  }

  lemma OpThenFile(op: string, f: string)
    requires IsRedirection(op) && IsBare(f)
    ensures var more := [ItemOf(Op(op), " "), ItemOf(Typed(BarePieces(f)), "")];
            IsLine(more) && LineText(more) == op + " " + f && Words(more) == [op, f]
  {
    var t := Typed(BarePieces(f));
    BareSpelling(f);
    OneToken(t);
    ConsIsLine(ItemOf(Op(op), " "), [ItemOf(t, "")]);
    ConsText(ItemOf(Op(op), " "), [ItemOf(t, "")]);
    assert [ItemOf(Op(op), " ")] + [ItemOf(t, "")] == [ItemOf(Op(op), " "), ItemOf(t, "")];
  }

  lemma RedirectionMeaning(op: string, f: string, c: Command)
    requires IsRedirection(op) && f != [] && c.args != []
    ensures op == "<" ==> Meaning([op, f], c) == Ok(c.(stdinFile := Some(f)))
    ensures op == ">" ==> Meaning([op, f], c) == Ok(c.(stdoutFile := Some(f), append := false))
    ensures op == ">>" ==> Meaning([op, f], c) == Ok(c.(stdoutFile := Some(f), append := true))
  {
    assert [op, f][2..] == [];
  }

  lemma TypedBeforeOp(ws: seq<string>, op: string, f: string)
    requires ws != [] && AllBare(ws) && IsBare(f) && IsRedirection(op)
    ensures Parse(Typing(ws) + " " + (op + " " + f)) == Meaning([op, f], Command(ws, None, None, false, false))
  {
    var more := [ItemOf(Op(op), " "), ItemOf(Typed(BarePieces(f)), "")];
    OpThenFile(op, f);
    BareEnds(f);
    var line := Typing(ws) + " " + (op + " " + f);
    assert line[|line| - 1] == f[|f| - 1];
    TypedThen(ws, more, line);
  }

  lemma JoinOp(t: string, op: string, f: string)
    ensures t + " " + (op + " " + f) == t + (" " + op + " ") + f
  {
  }

  /** With a redirection behind it. */
  lemma TypedRedirection(ws: seq<string>, f: string)
    requires ws != [] && AllBare(ws) && IsBare(f)
    ensures Parse(Typing(ws) + " < " + f) == Ok(Command(ws, Some(f), None, false, false))
    ensures Parse(Typing(ws) + " > " + f) == Ok(Command(ws, None, Some(f), false, false))
    ensures Parse(Typing(ws) + " >> " + f) == Ok(Command(ws, None, Some(f), true, false))
  {
    forall op | IsRedirection(op)
      ensures Parse(Typing(ws) + (" " + op + " ") + f) == Meaning([op, f], Command(ws, None, None, false, false))
    {
      TypedBeforeOp(ws, op, f);
      JoinOp(Typing(ws), op, f);
    }
    assert " " + "<" + " " == " < " && " " + ">" + " " == " > " && " " + ">>" + " " == " >> ";
    RedirectionMeaning("<", f, Command(ws, None, None, false, false));
    RedirectionMeaning(">", f, Command(ws, None, None, false, false));
    RedirectionMeaning(">>", f, Command(ws, None, None, false, false));
  }

  /** Sent to the background. */
  lemma TypedInBackground(ws: seq<string>)
    requires ws != [] && AllBare(ws)
    ensures Parse(Typing(ws) + " &") == Ok(Command(ws, None, None, false, true))
  {
    var more := [ItemOf(Op("&"), "")];
    OneToken(Op("&"));
    var line := Typing(ws) + " " + "&";
    TypedThen(ws, more, line);
    assert line == Typing(ws) + " &";
    assert ["&"][1..] == [];
  }

  /** A word with a backslash before every character. */
  function Slashed(w: string): string {
    if w == [] then [] else ['\\', w[0]] + Slashed(w[1..])
  }

  function SlashPieces(w: string): seq<Piece> {
    if w == [] then [] else [Piece(Slash, ['\\', w[0]], [w[0]])] + SlashPieces(w[1..])
  }

  lemma {:induction false} SlashedIs(w: string)
    ensures Spelt(SlashPieces(w)) == Slashed(w) && Reads(SlashPieces(w)) == w
    ensures forall i | 0 <= i < |SlashPieces(w)| :: Fits(SlashPieces(w)[i])
    decreases |w|
  {
    if w != [] {
      SlashedIs(w[1..]);
      assert SlashPieces(w)[1..] == SlashPieces(w[1..]);
    }
  }

  lemma {:induction false} SlashedEnds(w: string)
    requires w != []
    ensures |Slashed(w)| > 1 && Slashed(w)[|Slashed(w)| - 1] == w[|w| - 1]
    decreases |w|
  {
    if |w| > 1 {
      SlashedEnds(w[1..]);
    }
  }

  /** Behind backslashes any characters make a word: blanks, quotes and operators too. */
  lemma BackslashTakes(w: string)
    requires IsPlain(w) && !IsTrimmed(w[|w| - 1])
    ensures Parse(Slashed(w)) == Ok(Command([w], None, None, false, false))
  {
    SlashedIs(w);
    SlashedEnds(w);
    OneToken(Typed(SlashPieces(w)));
    ParseItems([ItemOf(Typed(SlashPieces(w)), "")], Slashed(w));
    PlainThen([w], [], NO_COMMAND);
    assert [w] + [] == [w] && [] + [w] == [w];
  }

  // ---------- unclosed quotes ----------

  lemma {:induction false} QuotedUnclosed(s: string, pos: nat, quote: char, word: string)
    requires pos <= |s| && forall i | pos <= i < |s| :: s[i] != quote
    ensures Quoted(s, pos, quote, word) == Err(UnclosedQuote)
    decreases |s| - pos
  {
    if pos < |s| {
      if quote == '"' && s[pos] == '\\' && pos + 1 < |s| {
        QuotedUnclosed(s, pos + 2, quote, word + [s[pos + 1]]);
      } else {
        QuotedUnclosed(s, pos + 1, quote, word + [s[pos]]);
      }
    }
  }

  /** A quote that is never closed fails the line. */
  lemma {:induction false} UnclosedFails(quote: char, w: string)
    requires (quote == '"' || quote == '\'') && quote !in w
    ensures Parse([quote] + w) == Err(UnclosedQuote)
    decreases |w|
  {
    var s := [quote] + w;
    if w != [] && IsTrimmed(w[|w| - 1]) {
      assert s[..|s| - 1] == [quote] + w[..|w| - 1];
      UnclosedFails(quote, w[..|w| - 1]);
    } else {
      assert Trim(s) == s && Skip(s, 0) == 0;
      QuotedUnclosed(s, 1, quote, []);
    }
  }
}
