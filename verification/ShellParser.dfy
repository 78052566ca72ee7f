/**
 The shell's tokenizer and command parser. A `char` stands for one input byte.
 */
module ShellParser {
  import opened Options

  datatype Error = UnclosedQuote | EmptyWord | EmptyCommand
  datatype Result<T> = Ok(value: T) | Err(error: Error)

  datatype Command =
    Command(args: seq<string>, stdinFile: Option<string>, stdoutFile: Option<string>, append: bool, background: bool)

  const NO_COMMAND: Command := Command([], None, None, false, false)

  predicate IsSpace(c: char) {
    c == ' ' || c == '\t' || c == '\n' || c == '\U{0C}' || c == '\r'
  }

  /** Trimming also removes the vertical tab. */
  predicate IsTrimmed(c: char) {
    IsSpace(c) || c == '\U{0B}'
  }

  predicate IsOperator(c: char) {
    c == '|' || c == '>' || c == '<' || c == '&'
  }

  function Trim(s: string): string {
    if s == [] then []
    else if IsTrimmed(s[0]) then Trim(s[1..])
    else if IsTrimmed(s[|s| - 1]) then Trim(s[..|s| - 1])
    else s
  }

  function Skip(s: string, pos: nat): (p: nat)
    requires pos <= |s|
    ensures pos <= p <= |s|
    decreases |s| - pos
  {
    if pos < |s| && IsSpace(s[pos]) then Skip(s, pos + 1) else pos
  }

  /** The rest of a quoted stretch, and the position after its closing quote. */
  function Quoted(s: string, pos: nat, quote: char, word: string): (r: Result<(string, nat)>)
    requires pos <= |s|
    ensures r.Ok? ==> pos < r.value.1 <= |s|
    decreases |s| - pos
  {
    if pos == |s| then Err(UnclosedQuote)
    else if s[pos] == quote then Ok((word, pos + 1))
    else if quote == '"' && s[pos] == '\\' && pos + 1 < |s| then Quoted(s, pos + 2, quote, word + [s[pos + 1]])
    else Quoted(s, pos + 1, quote, word + [s[pos]])
  }

  function Finished(word: string, pos: nat): Result<(string, nat)> {
    if word == [] then Err(EmptyWord) else Ok((word, pos))
  }

  /** The rest of a word of which `word` is read. A word that is read moves the position. */
  function Word(s: string, pos: nat, word: string): (r: Result<(string, nat)>)
    requires pos <= |s|
    ensures r.Ok? ==> pos <= r.value.1 <= |s| && (word == [] ==> pos < r.value.1)
    decreases |s| - pos
  {
    if pos == |s| || s[pos] == ' ' || s[pos] == '\t' then Finished(word, pos)
    else if s[pos] == '\\' && pos + 1 < |s| then Word(s, pos + 2, word + [s[pos + 1]])
    else if s[pos] == '"' || s[pos] == '\'' then
      match Quoted(s, pos + 1, s[pos], word)
      case Err(e) => Err(e)
      case Ok(q) => Word(s, q.1, q.0)
    else if IsOperator(s[pos]) then
      if word != [] then Ok((word, pos))
      else if (s[pos] == '>' || s[pos] == '&') && pos + 1 < |s| && s[pos + 1] == s[pos] then
        Ok(([s[pos], s[pos]], pos + 2))
      else Ok(([s[pos]], pos + 1))
    else Word(s, pos + 1, word + [s[pos]])
  }

  predicate IsRedirection(w: string) {
    w == "<" || w == ">" || w == ">>"
  }

  function Redirected(c: Command, op: string, file: string): Command {
    if op == "<" then c.(stdinFile := Some(file)) else c.(stdoutFile := Some(file), append := op == ">>")
  }

  function Taken(c: Command, w: string): Command {
    if w == "&" then c.(background := true) else c.(args := c.args + [w])
  }

  /** The words from `pos` on, added to the command read so far. */
  function Commands(s: string, pos: nat, c: Command): Result<Command>
    requires pos <= |s|
    decreases |s| - pos
  {
    if pos == |s| then (if c.args == [] then Err(EmptyCommand) else Ok(c))
    else
      match Word(s, pos, [])
      case Err(e) => Err(e)
      case Ok((w, p)) =>
        if IsRedirection(w) then
          match Word(s, Skip(s, p), [])
          case Err(e) => Err(e)
          case Ok((file, q)) => Commands(s, Skip(s, q), Redirected(c, w, file))
        else Commands(s, Skip(s, p), Taken(c, w))
  }

  function Parse(input: string): Result<Command> {
    var s := Trim(input);
    Commands(s, Skip(s, 0), NO_COMMAND)
  }

  // ---------- the loops ----------

  method SkipWs(input: string, start: nat) returns (pos: nat)
    requires start <= |input|
    ensures pos == Skip(input, start)
  {
    pos := start;
    while pos < |input| && IsSpace(input[pos])
      invariant start <= pos <= |input| && Skip(input, start) == Skip(input, pos)
    {
      pos := pos + 1;
    }
  }

  method ReadQuoted(input: string, start: nat, quote: char, sofar: string) returns (r: Result<(string, nat)>)
    requires start <= |input|
    ensures r == Quoted(input, start, quote, sofar)
  {
    var pos, word := start, sofar;
    while true
      invariant start <= pos <= |input| && Quoted(input, start, quote, sofar) == Quoted(input, pos, quote, word)
      decreases |input| - pos
    {
      if pos >= |input| {
        return Err(UnclosedQuote);
      }
      if input[pos] == quote {
        return Ok((word, pos + 1));
      }
      if quote == '"' && input[pos] == '\\' && pos + 1 < |input| {
        word := word + [input[pos + 1]];
        pos := pos + 2;
      } else {
        word := word + [input[pos]];
        pos := pos + 1;
      }
    }
  }

  method ReadWord(input: string, start: nat) returns (r: Result<(string, nat)>)
    requires start <= |input|
    ensures r == Word(input, start, [])
    ensures r.Ok? ==> start < r.value.1 <= |input| && r.value.0 != []
  {
    WordNotEmpty(input, start, []);
    var pos, word := start, [];
    while pos < |input|
      invariant start <= pos <= |input| && Word(input, start, []) == Word(input, pos, word)
      decreases |input| - pos
    {
      var b := input[pos];
      if b == ' ' || b == '\t' {
        break;
      }
      if b == '\\' && pos + 1 < |input| {
        word := word + [input[pos + 1]];
        pos := pos + 2;
      } else if b == '"' || b == '\'' {
        var q := ReadQuoted(input, pos + 1, b, word);
        if q.Err? {
          return Err(q.error);
        }
        word, pos := q.value.0, q.value.1;
      } else if IsOperator(b) {
        if word != [] {
          break;
        }
        if (b == '>' || b == '&') && pos + 1 < |input| && input[pos + 1] == b {
          return Ok(([b, b], pos + 2));
        }
        return Ok(([b], pos + 1));
      } else {
        word := word + [b];
        pos := pos + 1;
      }
    }
    r := if word == [] then Err(EmptyWord) else Ok((word, pos));
  }

  lemma {:induction false} WordNotEmpty(s: string, pos: nat, word: string)
    requires pos <= |s|
    ensures Word(s, pos, word).Ok? ==> Word(s, pos, word).value.0 != []
    decreases |s| - pos
  {
    if pos == |s| || s[pos] == ' ' || s[pos] == '\t' {
    } else if s[pos] == '\\' && pos + 1 < |s| {
      WordNotEmpty(s, pos + 2, word + [s[pos + 1]]);
    } else if s[pos] == '"' || s[pos] == '\'' {
      var q := Quoted(s, pos + 1, s[pos], word);
      if q.Ok? {
        WordNotEmpty(s, q.value.1, q.value.0);
      }
    } else if !IsOperator(s[pos]) {
      WordNotEmpty(s, pos + 1, word + [s[pos]]);
    }
  }

  method ParseLine(line: string) returns (r: Result<Command>)
    ensures r == Parse(line)
  {
    var input := Trim(line);
    var pos := SkipWs(input, 0);
    var c := NO_COMMAND;
    while pos < |input|
      invariant 0 <= pos <= |input| && Parse(line) == Commands(input, pos, c)
      decreases |input| - pos
    {
      var word := ReadWord(input, pos);
      if word.Err? {
        return Err(word.error);
      }
      var w := word.value.0;
      pos := word.value.1;
      if w == "<" || w == ">" || w == ">>" {
        pos := SkipWs(input, pos);
        var file := ReadWord(input, pos);
        if file.Err? {
          return Err(file.error);
        }
        c := Redirected(c, w, file.value.0);
        pos := file.value.1;
      } else if w == "&" {
        c := c.(background := true);
      } else {
        c := c.(args := c.args + [w]);
      }
      pos := SkipWs(input, pos);
    }
    r := if c.args == [] then Err(EmptyCommand) else Ok(c);
  }
}
