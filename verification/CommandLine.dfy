/** libcli's tokenising parser and its quoting command-line extender. */
module CommandLine {
  import opened Collections

  const NUL := '\0'

  /** isspace in the C locale. */
  predicate IsSpace(c: char) {
    c == ' ' || c == '\t' || c == '\n' || c == '\r' || c == 11 as char || c == 12 as char
  }

  predicate IsQuote(c: char) {
    c == '"' || c == '\''
  }

  predicate NoBackslash(s: string) {
    forall i :: 0 <= i < |s| ==> s[i] != '\\'
  }

  // ---------- The parser ----------

  /** A word without its backslashes. */
  function Unescaped(raw: string): (w: string)
    ensures NoBackslash(w)
    ensures NoBackslash(raw) ==> w == raw
  {
    if raw == "" then "" else Unescaped(raw[..|raw| - 1]) + if raw[|raw| - 1] == '\\' then "" else raw[|raw| - 1..]
  }

  lemma UnescapedStep(line: string, start: nat, at: nat)
    requires start <= at < |line|
    ensures Unescaped(line[start..start]) == ""
    ensures Unescaped(line[start..at + 1]) == Unescaped(line[start..at]) + if line[at] == '\\' then "" else [line[at]]
  {
    var raw := line[start..at + 1];
    assert raw[..|raw| - 1] == line[start..at] && raw[|raw| - 1..] == [line[at]];
  }

  /** cli_int_return_newword. */
  method NewWord(line: string, start: nat, end: nat) returns (newword: string)
    requires start <= end <= |line|
    ensures newword == Unescaped(line[start..end])
  {
    hide Unescaped;
    newword := "";
    var at := start;
    if start < end {
      UnescapedStep(line, start, start);
    } else {
      assert line[start..end] == "" && Unescaped("") == "";
    }
    while at != end
      invariant start <= at <= end
      invariant newword == Unescaped(line[start..at])
    {
      UnescapedStep(line, start, at);
      if line[at] != '\\' {
        newword := newword + [line[at]];
      }
      at := at + 1;
    }
  }

  /** What an escape moves past at once: a backslash and the character after it. */
  function Escape(t: string): (e: nat)
    ensures e <= |t|
  {
    if |t| >= 2 && t[0] == '\\' then 2 else 0
  }

  /** The words found in t, at most room of them. word is the raw text of the word that
      has started, if one has; quote is the open quote or NUL. */
  function Scan(t: string, word: Option<string>, quote: char, room: nat): (words: seq<string>)
    ensures |words| <= room
    ensures forall i :: 0 <= i < |words| ==> NoBackslash(words[i])
    decreases |t|, if word.Some? then 1 else 0
  {
    if room == 0 then []
    else
      var e := Escape(t);
      var raw := if word.Some? then word.value + t[..e] else "";
      var made := if word.Some? then [Unescaped(raw)] else [];
      if e == |t| then made
      else
        var c, rest := t[e], t[e + 1..];
        if quote != NUL && c == quote then
          made + Scan(rest, None, NUL, room - |made|)
        else if word.Some? && quote == NUL && (IsSpace(c) || c == '|') then
          made + Scan(t[e..], None, NUL, room - 1)
        else if quote == NUL && IsQuote(c) then
          if raw == "" then Scan(rest, Some(""), c, room)
          else made + Scan(rest, Some(""), c, room - 1)
        else if word.Some? then Scan(rest, Some(raw + [c]), quote, room)
        else if c == '|' then ["|"] + Scan(rest, None, quote, room - 1)
        else Scan(rest, if IsSpace(c) then None else Some([c]), quote, room)
  }

  function SkipSpaces(t: string): (r: string)
    ensures |r| <= |t| && r == t[|t| - |r|..]
    ensures r == "" || !IsSpace(r[0])
    ensures forall i :: 0 <= i < |t| - |r| ==> IsSpace(t[i])
  {
    if t == "" || !IsSpace(t[0]) then t else SkipSpaces(t[1..])
  }

  /** The words of a line: the first one starts at its first non-space, whatever that is. */
  function Words(line: string, maxWords: int): seq<string> {
    var t := SkipSpaces(line);
    if maxWords < 1 then [] else Scan(t, if t == "" then None else Some(""), NUL, maxWords - 1)
  }

  /** The raw text of the word that starts at wordStart, if one does. */
  ghost function Started(line: string, wordStart: int, p: nat): Option<string>
    requires -1 <= wordStart <= p <= |line|
  {
    if wordStart == -1 then None else Some(line[wordStart..p])
  }

  /** The words still to come when the parser stands at p. */
  ghost function From(line: string, wordStart: int, p: nat, inquote: char, room: nat): (words: seq<string>)
    requires -1 <= wordStart <= p <= |line|
  {
    Scan(line[p..], Started(line, wordStart, p), inquote, room)
  }

  /** One turn of the parser's loop inside a word. */
  lemma ScanIn(t: string, word: string, quote: char, room: nat)
    requires room > 0
    ensures var e := Escape(t);
            var raw := word + t[..e];
            Scan(t, Some(word), quote, room) ==
            if e == |t| then [Unescaped(raw)]
            else if quote != NUL && t[e] == quote then [Unescaped(raw)] + Scan(t[e + 1..], None, NUL, room - 1)
            else if quote == NUL && (IsSpace(t[e]) || t[e] == '|') then
              [Unescaped(raw)] + Scan(t[e..], None, NUL, room - 1)
            else if quote == NUL && IsQuote(t[e]) then
              if raw == "" then Scan(t[e + 1..], Some(""), t[e], room)
              else [Unescaped(raw)] + Scan(t[e + 1..], Some(""), t[e], room - 1)
            else Scan(t[e + 1..], Some(raw + [t[e]]), quote, room)
  {
    hide Unescaped, IsSpace, IsQuote, Escape;
  }

  /** One turn between words. */
  lemma ScanOut(t: string, quote: char, room: nat)
    requires room > 0
    ensures var e := Escape(t);
            Scan(t, None, quote, room) ==
            if e == |t| then []
            else if quote != NUL && t[e] == quote then Scan(t[e + 1..], None, NUL, room)
            else if quote == NUL && IsQuote(t[e]) then Scan(t[e + 1..], Some(""), t[e], room)
            else if t[e] == '|' then ["|"] + Scan(t[e + 1..], None, quote, room - 1)
            else Scan(t[e + 1..], if IsSpace(t[e]) then None else Some([t[e]]), quote, room)
  {
    hide Unescaped, IsSpace, IsQuote, Escape;
  }

  /** ScanIn at a position of the line. */
  lemma TurnIn(line: string, wordStart: nat, p: nat, inquote: char, room: nat)
    requires wordStart <= p <= |line| && room > 0
    ensures var q := p + Escape(line[p..]);
            var word := Unescaped(line[wordStart..q]);
            From(line, wordStart, p, inquote, room) ==
            if q == |line| then [word]
            else if inquote != NUL && line[q] == inquote then [word] + From(line, -1, q + 1, NUL, room - 1)
            else if inquote == NUL && (IsSpace(line[q]) || line[q] == '|') then
              [word] + From(line, -1, q, NUL, room - 1)
            else if inquote == NUL && IsQuote(line[q]) then
              if wordStart == q then From(line, q + 1, q + 1, line[q], room)
              else [word] + From(line, q + 1, q + 1, line[q], room - 1)
            else From(line, wordStart, q + 1, inquote, room)
  {
    hide *;
    var t := line[p..];
    var e := Escape(t);
    var q := p + e;
    FromIs(line, wordStart, p, inquote, room);
    ScanIn(t, line[wordStart..p], inquote, room);
    CutLine(line, p, e);
    CutWord(line, wordStart, p, e);
    if q < |line| {
      FromIs(line, -1, q, NUL, room - 1);
      FromIs(line, -1, q + 1, NUL, room - 1);
      FromIs(line, q + 1, q + 1, line[q], room);
      FromIs(line, q + 1, q + 1, line[q], room - 1);
      FromIs(line, wordStart, q + 1, inquote, room);
    }
  }

  lemma FromIs(line: string, wordStart: int, p: nat, inquote: char, room: nat)
    requires -1 <= wordStart <= p <= |line|
    ensures From(line, wordStart, p, inquote, room)
            == Scan(line[p..], if wordStart == -1 then None else Some(line[wordStart..p]), inquote, room)
  {
    hide Scan;
  }

  lemma CutWord(line: string, wordStart: nat, p: nat, e: nat)
    requires wordStart <= p && p + e <= |line|
    ensures var q := p + e;
            && line[wordStart..p] + line[p..][..e] == line[wordStart..q]
            && (line[wordStart..q] == "" <==> wordStart == q)
            && (q < |line| ==> line[wordStart..q] + [line[q]] == line[wordStart..q + 1])
  {
  }

  /** ScanOut at a position of the line. */
  lemma TurnOut(line: string, p: nat, inquote: char, room: nat)
    requires p <= |line| && room > 0
    ensures var q := p + Escape(line[p..]);
            From(line, -1, p, inquote, room) ==
            if q == |line| then []
            else if inquote != NUL && line[q] == inquote then From(line, -1, q + 1, NUL, room)
            else if inquote == NUL && IsQuote(line[q]) then From(line, q + 1, q + 1, line[q], room)
            else if line[q] == '|' then ["|"] + From(line, -1, q + 1, inquote, room - 1)
            else From(line, if IsSpace(line[q]) then -1 else q, q + 1, inquote, room)
  {
    hide Scan, Unescaped, IsSpace, IsQuote, Escape;
    var t := line[p..];
    ScanOut(t, inquote, room);
    CutLine(line, p, Escape(t));
  }

  lemma CutLine(line: string, p: nat, e: nat)
    requires p + e <= |line|
    ensures var t, q := line[p..], p + e;
            && t[e..] == line[q..]
            && (q < |line| ==> t[e] == line[q] && t[e + 1..] == line[q + 1..]
                               && line[q + 1..q + 1] == "" && line[q..q + 1] == [line[q]])
  {
  }

  ghost predicate Yields(all: seq<string>, words: seq<string>, rest: seq<string>) {
    all == words + rest
  }

  lemma YieldsWord(all: seq<string>, words: seq<string>, w: string, rest: seq<string>)
    requires Yields(all, words, [w] + rest)
    ensures Yields(all, words + [w], rest)
  {
    assert words + ([w] + rest) == words + [w] + rest;
  }

  lemma YieldsAll(all: seq<string>, words: seq<string>)
    ensures Yields(all, words, []) ==> words == all
    ensures forall w :: Yields(all, words, [w]) ==> words + [w] == all
  {
  }

  /** The first loop of cli_parse_line: the first word starts at the first non-space. */
  method FirstWord(line: string) returns (p: nat, wordStart: int)
    ensures p <= |line| && SkipSpaces(line) == line[p..] && wordStart == if p == |line| then -1 else p
  {
    hide *;
    p, wordStart := 0, -1;
    assert line[0..] == line;
    while p < |line|
      invariant p <= |line|
      invariant SkipSpaces(line) == SkipSpaces(line[p..])
    {
      SkipOne(line, p);
      if !IsSpace(line[p]) {
        wordStart := p;
        return;
      }
      p := p + 1;
    }
  }

  /** cli_parse_line. wordStart is the position that word_start points to, or -1. */
  method ParseLine(line: string, maxWords: int) returns (words: seq<string>)
    ensures words == Words(line, maxWords)
    ensures |words| <= if maxWords < 1 then 0 else maxWords - 1
  {
    hide *;
    words := [];
    var inquote := NUL;
    var p, wordStart := FirstWord(line);
    WordsIs(line, p, wordStart, maxWords);
    if maxWords < 1 {
      return;
    }
    ghost var all := Words(line, maxWords);
    var done := false;
    while !done && |words| < maxWords - 1
      invariant -1 <= wordStart <= p <= |line| && |words| <= maxWords - 1
      invariant if done then words == all
                else Yields(all, words, From(line, wordStart, p, inquote, maxWords - 1 - |words|))
      decreases !done, |line| - p, if wordStart == -1 then 0 else 1
    {
      words, p, wordStart, inquote, done := ParseTurn(line, words, p, wordStart, inquote, maxWords, all);
    }
    if !done {
      YieldsAll(all, words);
      NoRoom(line, wordStart, p, inquote);
    }
  }

  /** One turn of the loop of cli_parse_line; done at the end of the line. */
  method ParseTurn(line: string, words: seq<string>, p: nat, wordStart: int, inquote: char, maxWords: int,
                   ghost all: seq<string>)
    returns (words': seq<string>, p': nat, wordStart': int, inquote': char, done: bool)
    requires -1 <= wordStart <= p <= |line| && |words| < maxWords - 1
    requires Yields(all, words, From(line, wordStart, p, inquote, maxWords - 1 - |words|))
    ensures -1 <= wordStart' <= p' <= |line| && |words'| <= |words| + 1
    ensures if done then words' == all
            else
              && Yields(all, words', From(line, wordStart', p', inquote', maxWords - 1 - |words'|))
              && (p' > p || (p' == p && wordStart != -1 && wordStart' == -1))
  {
    hide *;
    words', p', wordStart', inquote', done := words, p, wordStart, inquote, false;
    ghost var room := maxWords - 2 - |words|;
    if wordStart == -1 {
      TurnOut(line, p, inquote, room + 1);
    } else {
      TurnIn(line, wordStart, p, inquote, room + 1);
    }
    EscapeIs(line, p);
    if p + 1 < |line| && line[p] == '\\' {
      p' := p + 2;
    }
    if p' == |line| || (inquote != NUL && line[p'] == inquote)
       || (wordStart != -1 && inquote == NUL && (IsSpace(line[p']) || line[p'] == '|'))
    {
      if wordStart != -1 {
        var newword := NewWord(line, wordStart, p');
        words' := words + [newword];
      }
      if p' == |line| {
        YieldsAll(all, words);
        done := true;
        return;
      }
      if inquote != NUL {
        p' := p' + 1;
      }
      if wordStart != -1 {
        YieldsWord(all, words, words'[|words|], From(line, -1, p', NUL, room));
      }
      inquote' := NUL;
      wordStart' := -1;
    } else if inquote == NUL && IsQuote(line[p']) {
      if wordStart != -1 && wordStart != p' {
        var newword := NewWord(line, wordStart, p');
        YieldsWord(all, words, newword, From(line, p' + 1, p' + 1, line[p'], room));
        words' := words + [newword];
      }
      inquote' := line[p'];
      p' := p' + 1;
      wordStart' := p';
    } else {
      if wordStart == -1 {
        if line[p'] == '|' {
          YieldsWord(all, words, "|", From(line, -1, p' + 1, inquote, room));
          words' := words + ["|"];
        } else if !IsSpace(line[p']) {
          wordStart' := p';
        }
      }
      p' := p' + 1;
    }
  }

  lemma EscapeIs(line: string, p: nat)
    requires p <= |line|
    ensures Escape(line[p..]) == if p + 1 < |line| && line[p] == '\\' then 2 else 0
  {
  }

  lemma SkipOne(line: string, p: nat)
    requires p < |line|
    ensures SkipSpaces(line[p..]) == if IsSpace(line[p]) then SkipSpaces(line[p + 1..]) else line[p..]
  {
    assert line[p..][1..] == line[p + 1..];
  }

  lemma WordsIs(line: string, p: nat, wordStart: int, maxWords: int)
    requires p <= |line| && SkipSpaces(line) == line[p..] && wordStart == if p == |line| then -1 else p
    ensures maxWords < 1 ==> Words(line, maxWords) == []
    ensures maxWords >= 1 ==> Yields(Words(line, maxWords), [], From(line, wordStart, p, NUL, maxWords - 1))
  {
    assert p < |line| ==> line[p..p] == "" && line[p..] != "";
  }

  lemma NoRoom(line: string, wordStart: int, p: nat, inquote: char)
    requires -1 <= wordStart <= p <= |line|
    ensures From(line, wordStart, p, inquote, 0) == []
  {
  }

  /** A line whose first non-space is a pipe yields an empty word first: the first word
      starts at the pipe and the pipe ends it. */
  lemma {:induction false} LeadingPipe(blanks: string, t: string, maxWords: int)
    requires maxWords >= 3 && forall i :: 0 <= i < |blanks| ==> IsSpace(blanks[i])
    ensures Words(blanks + "|" + t, maxWords) == ["", "|"] + Scan(t, None, NUL, maxWords - 3)
  {
    if blanks == "" {
      assert blanks + "|" + t == "|" + t;
      PipeFirst(t, maxWords);
    } else {
      hide Scan, IsSpace;
      var line := blanks + "|" + t;
      assert line[1..] == blanks[1..] + "|" + t && line[0] == blanks[0];
      LeadingPipe(blanks[1..], t, maxWords);
    }
  }

  lemma PipeFirst(t: string, maxWords: int)
    requires maxWords >= 3
    ensures Words("|" + t, maxWords) == ["", "|"] + Scan(t, None, NUL, maxWords - 3)
  {
    PipeIsNoSpace();
    hide *;
    var line := "|" + t;
    EmptyIsClean();
    WordsFrom(line, maxWords);
    ScanEnd("", line, maxWords - 1);
    ScanPipe(t, maxWords - 2);
  }

  lemma EmptyIsClean()
    ensures NoBackslash("")
  {
  }

  lemma WordsFrom(line: string, maxWords: int)
    requires line != "" && !IsSpace(line[0]) && maxWords >= 1
    ensures Words(line, maxWords) == Scan(line, Some(""), NUL, maxWords - 1)
  {
    hide Scan;
  }

  /** An escape between words is lost with the character it escapes. */
  lemma EscapeBetweenWords(c: char, t: string, room: nat)
    requires room > 0 && Escape(t) == 0
    ensures Scan("\\" + [c] + t, None, NUL, room) == Scan(t, None, NUL, room)
  {
    hide *;
    CutEscape(c, t);
    ScanOut("\\" + [c] + t, NUL, room);
    ScanOut(t, NUL, room);
  }

  lemma CutEscape(c: char, t: string)
    ensures var s := "\\" + [c] + t;
            Escape(s) == 2 && |s| == |t| + 2 && (t != "" ==> s[2] == t[0] && s[3..] == t[1..])
  {
  }

  // ---------- The command-line extender ----------

  /** The quote chosen for a word, given the choice made before w; "" is none. */
  function QuoteFrom(w: string, quote: string): (r: string)
    requires quote == "" || quote == "\""
    ensures r in ["", "\"", "'"]
  {
    if w == "" then quote
    else if w[0] == '\\' && |w| > 1 then QuoteFrom(w[2..], quote)
    else if w[0] == ' ' && quote == "" then QuoteFrom(w[1..], "\"")
    else if w[0] == '"' then "'"
    else if w[0] == '\'' then "\""
    else QuoteFrom(w[1..], quote)
  }

  function QuoteFor(w: string): (r: string)
    ensures r in ["", "\"", "'"]
  {
    QuoteFrom(w, if w == "" then "\"" else "")
  }

  /** What the extender appends for a word. */
  function Part(w: string): string {
    " " + QuoteFor(w) + w + QuoteFor(w)
  }

  /** cli_int_buildmode_extend_cmdline. */
  method ExtendCmdline(cmdline: string, word: string) returns (extended: string)
    ensures extended == cmdline + Part(word)
  {
    var quote := "";
    if |word| == 0 {
      quote := "\"";
    }
    var at := 0;
    while at < |word|
      invariant at <= |word| && (quote == "" || quote == "\"")
      invariant QuoteFor(word) == QuoteFrom(word[at..], quote)
    {
      var rest := word[at..];
      assert |rest| > 1 ==> rest[2..] == word[at + 2..];
      assert rest[1..] == word[at + 1..];
      if word[at] == '\\' && at + 1 < |word| {
        at := at + 1;
      } else if word[at] == ' ' && quote == "" {
        quote := "\"";
      } else if word[at] == '"' {
        quote := "'";
        break;
      } else if word[at] == '\'' {
        quote := "\"";
        break;
      }
      at := at + 1;
    }
    extended := cmdline + " " + quote + word + quote;
  }

  /** The line built by extending it with one word after another. */
  function Line(name: string, ws: seq<string>): string {
    if ws == [] then name else Line(name, ws[..|ws| - 1]) + Part(ws[|ws| - 1])
  }

  function Tail(ws: seq<string>): string {
    if ws == [] then "" else Part(ws[0]) + Tail(ws[1..])
  }

  lemma {:induction false} TailAppend(vs: seq<string>, ws: seq<string>)
    ensures Tail(vs + ws) == Tail(vs) + Tail(ws)
  {
    hide Part;
    if vs == [] {
      assert vs + ws == ws;
    } else {
      assert (vs + ws)[1..] == vs[1..] + ws;
      TailAppend(vs[1..], ws);
    }
  }

  lemma {:induction false} LineIsTail(name: string, ws: seq<string>)
    ensures Line(name, ws) == name + Tail(ws)
  {
    hide Part;
    if ws != [] {
      var e := |ws| - 1;
      LineIsTail(name, ws[..e]);
      TailAppend(ws[..e], [ws[e]]);
      assert [ws[e]][1..] == [];
      assert ws == ws[..e] + [ws[e]];
    }
  }

  // ---------- The name of a command ----------

  /** A command's own name behind those of its parents, the outermost first. */
  function FullName(names: seq<string>): string {
    if names == [] then ""
    else
      var inner := FullName(names[1..]);
      names[0] + (if inner == "" then "" else " ") + inner
  }

  /** cli_int_command_name: from the command outwards. */
  method CommandName(names: seq<string>) returns (name: string)
    ensures name == FullName(names)
  {
    name := "";
    for i := |names| downto 0
      invariant name == FullName(names[i..])
    {
      assert names[i..][1..] == names[i + 1..];
      name := names[i] + (if name == "" then "" else " ") + name;
    }
  }

  // ---------- Which quote is chosen ----------

  /** The first position of c, or the length. */
  function Find(w: string, c: char): (i: nat)
    ensures i <= |w| && c !in w[..i]
    ensures if i < |w| then w[i] == c else c !in w
  {
    if w == "" || w[0] == c then 0
    else
      var i := Find(w[1..], c);
      assert w[..i + 1] == [w[0]] + w[1..][..i];
      assert w == [w[0]] + w[1..];
      1 + i
  }

  /** The chosen quote is not the first quote of the word. */
  lemma {:induction false} QuoteFromIs(w: string, quote: string)
    requires NoBackslash(w) && (quote == "" || quote == "\"")
    ensures var r := QuoteFrom(w, quote);
            && (r == "" <==> quote == "" && ' ' !in w && '"' !in w && '\'' !in w)
            && (r == "'" ==> '"' in w[..Find(w, '\'')])
            && (r == "\"" ==> '\'' in w[..Find(w, '"')] || ('"' !in w && '\'' !in w))
  {
    if w != "" {
      var v := w[1..];
      assert w == [w[0]] + v;
      if w[0] == '"' {
        assert w[..Find(w, '\'')][0] == '"';
      } else if w[0] == '\'' {
        assert w[..Find(w, '"')][0] == '\'';
      } else {
        QuoteFromIs(v, if w[0] == ' ' && quote == "" then "\"" else quote);
        assert w[..Find(w, '\'')] == [w[0]] + v[..Find(v, '\'')];
        assert w[..Find(w, '"')] == [w[0]] + v[..Find(v, '"')];
      }
    }
  }

  /** A word is quoted when it is empty or holds a space or a quote, and then up to the
      first chosen quote, if there is one, it holds the other. */
  lemma QuoteForIs(w: string)
    requires NoBackslash(w)
    ensures QuoteFor(w) == "" <==> w != "" && ' ' !in w && '"' !in w && '\'' !in w
    ensures QuoteFor(w) != "" ==>
              var q, v := QuoteFor(w)[0], w[..Find(w, QuoteFor(w)[0])];
              && IsQuote(q) && (q in w <==> '"' in w && '\'' in w)
              && (v == "" || ' ' in v || '"' in v || '\'' in v)
  {
    hide QuoteFrom;
    if w == "" {
      QuoteFromEmpty();
    } else {
      QuoteFromIs(w, "");
      InPrefix(w, '"', Find(w, '\''));
      InPrefix(w, '\'', Find(w, '"'));
    }
  }

  /** A word without its escapes, a backslash and what it escapes being left out together. */
  function Bare(w: string): string {
    if w == "" then ""
    else if w[0] == '\\' && |w| > 1 then Bare(w[2..])
    else [w[0]] + Bare(w[1..])
  }

  /** For any word at all: whichever quote stands first among its bare characters, the
      other one is chosen; without quotes, the double one for a space or an empty word. */
  lemma QuoteChosen(w: string)
    ensures var b := Bare(w);
            QuoteFor(w) == if Find(b, '"') < Find(b, '\'') then "'"
                           else if Find(b, '\'') < Find(b, '"') then "\""
                           else if w == "" || ' ' in b then "\""
                           else ""
  {
    hide QuoteFrom, Bare, Find;
    if w == "" {
      QuoteFromEmpty();
      BareEmpty();
    } else {
      QuoteFromBare(w, "");
    }
  }

  lemma BareEmpty()
    ensures Bare("") == "" && Find("", '"') == Find("", '\'') == 0
  {
  }

  lemma {:induction false} QuoteFromBare(w: string, quote: string)
    requires quote == "" || quote == "\""
    ensures var b := Bare(w);
            QuoteFrom(w, quote) == if Find(b, '"') < Find(b, '\'') then "'"
                                   else if Find(b, '\'') < Find(b, '"') then "\""
                                   else if ' ' in b then "\""
                                   else quote
  {
    hide Find;
    if w == "" {
      BareEmpty();
    } else if w[0] == '\\' && |w| > 1 {
      QuoteFromBare(w[2..], quote);
    } else {
      var c, rest := w[0], Bare(w[1..]);
      FindNext(c, rest, '"');
      FindNext(c, rest, '\'');
      if c != '"' && c != '\'' {
        QuoteFromBare(w[1..], if c == ' ' && quote == "" then "\"" else quote);
      }
    }
  }

  lemma FindNext(a: char, t: string, c: char)
    ensures Find([a] + t, c) == if a == c then 0 else 1 + Find(t, c)
  {
    assert ([a] + t)[1..] == t;
  }

  lemma QuoteFromEmpty()
    ensures QuoteFrom("", "\"") == "\""
  {
  }

  lemma InPrefix(w: string, c: char, i: nat)
    requires i <= |w|
    ensures c in w[..i] ==> c in w
    ensures i == |w| ==> w[..i] == w
  {
  }

  // ---------- Parsing what was quoted ----------

  /** Neither whitespace, quote, pipe nor backslash. */
  predicate IsPlain(c: char) {
    !IsSpace(c) && !IsQuote(c) && c != '|' && c != '\\'
  }

  predicate PlainName(name: string) {
    name != "" && forall i :: 0 <= i < |name| ==> IsPlain(name[i])
  }

  /** The words that quoting carries through the parser: no backslash, not both kinds
      of quote, and, in a word that is not quoted for being empty or holding a space or
      a quote, no whitespace and no pipe; a pipe alone is the one exception. */
  predicate Fits(w: string) {
    && NoBackslash(w)
    && !('"' in w && '\'' in w)
    && (w == "" || w == "|" || ' ' in w || '"' in w || '\'' in w
        || forall i :: 0 <= i < |w| ==> !IsSpace(w[i]) && w[i] != '|')
  }

  lemma Kinds(c: char)
    ensures IsSpace(c) ==> !IsQuote(c) && c != '|' && c != '\\' && c != NUL
    ensures IsQuote(c) ==> c != '|' && c != '\\' && c != NUL
    ensures IsPlain(c) <==> !IsSpace(c) && !IsQuote(c) && c != '|' && c != '\\'
    ensures !IsSpace('|') && !IsQuote('|') && !IsQuote(NUL) && NUL != '\\'
  {
  }

  lemma Ahead(c: char, t: string)
    requires c != '\\'
    ensures var s := [c] + t;
            Escape(s) == 0 && |s| == |t| + 1 && s[0] == c && s[1..] == t && s[..0] == "" && s[0..] == s
  {
  }

  lemma CleanWord(acc: string)
    requires NoBackslash(acc)
    ensures Unescaped(acc) == acc && acc + "" == acc
  {
  }

  lemma ScanSpace(c: char, t: string, room: nat)
    requires IsSpace(c) && room > 0
    ensures Scan([c] + t, None, NUL, room) == Scan(t, None, NUL, room)
  {
    hide *;
    Kinds(c);
    Ahead(c, t);
    ScanOut([c] + t, NUL, room);
  }

  lemma ScanPipe(t: string, room: nat)
    requires room > 0
    ensures Scan("|" + t, None, NUL, room) == ["|"] + Scan(t, None, NUL, room - 1)
  {
    hide *;
    Kinds('|');
    Ahead('|', t);
    ScanOut("|" + t, NUL, room);
  }

  lemma ScanOpen(q: char, t: string, room: nat)
    requires IsQuote(q) && room > 0
    ensures Scan([q] + t, None, NUL, room) == Scan(t, Some(""), q, room)
  {
    hide *;
    Kinds(q);
    Ahead(q, t);
    ScanOut([q] + t, NUL, room);
  }

  lemma ScanClose(q: char, acc: string, t: string, room: nat)
    requires IsQuote(q) && room > 0 && NoBackslash(acc)
    ensures Scan([q] + t, Some(acc), q, room) == [acc] + Scan(t, None, NUL, room - 1)
  {
    hide *;
    Kinds(q);
    Ahead(q, t);
    CleanWord(acc);
    ScanIn([q] + t, acc, q, room);
  }

  /** Inside a word the scan only collects. */
  lemma {:induction false} ScanWord(acc: string, u: string, t: string, quote: char, room: nat)
    requires room > 0 && NoBackslash(u)
    requires if quote == NUL then forall i :: 0 <= i < |u| ==> IsPlain(u[i]) else IsQuote(quote) && quote !in u
    ensures Scan(u + t, Some(acc), quote, room) == Scan(t, Some(acc + u), quote, room)
    decreases |u|
  {
    hide Unescaped, Scan, IsPlain, IsQuote;
    if u == "" {
      assert u + t == t && acc + u == acc;
    } else {
      assert u + t == [u[0]] + (u[1..] + t) && acc + u == (acc + [u[0]]) + u[1..];
      assert u[0] in u;
      ScanOne(acc, u[0], u[1..] + t, quote, room);
      ScanWord(acc + [u[0]], u[1..], t, quote, room);
    }
  }

  lemma ScanOne(acc: string, c: char, t: string, quote: char, room: nat)
    requires room > 0 && c != '\\'
    requires if quote == NUL then IsPlain(c) else quote != c
    ensures Scan([c] + t, Some(acc), quote, room) == Scan(t, Some(acc + [c]), quote, room)
  {
    hide *;
    Kinds(c);
    Ahead(c, t);
    ScanIn([c] + t, acc, quote, room);
    assert acc + "" == acc;
  }

  /** An unquoted word ends at the end of the line, at whitespace or at a pipe. */
  lemma ScanEnd(acc: string, t: string, room: nat)
    requires room > 0 && NoBackslash(acc) && (t == "" || IsSpace(t[0]) || t[0] == '|')
    ensures Scan(t, Some(acc), NUL, room) == [acc] + Scan(t, None, NUL, room - 1)
  {
    hide *;
    CleanWord(acc);
    ScanIn(t, acc, NUL, room);
    if t == "" {
      ScanNothing(room - 1);
      assert [acc] + [] == [acc];
    } else {
      Kinds(t[0]);
      assert t == [t[0]] + t[1..];
      Ahead(t[0], t[1..]);
    }
  }

  lemma ScanStart(c: char, t: string, room: nat)
    requires IsPlain(c) && room > 0
    ensures Scan([c] + t, None, NUL, room) == Scan(t, Some([c]), NUL, room)
  {
    hide *;
    Kinds(c);
    Ahead(c, t);
    ScanOut([c] + t, NUL, room);
  }

  /** The first whitespace or pipe of an unquoted word, or its length. */
  function Stop(u: string): (i: nat)
    ensures i <= |u| && (i < |u| ==> IsSpace(u[i]) || u[i] == '|')
    ensures forall j :: 0 <= j < i ==> !IsSpace(u[j]) && u[j] != '|'
  {
    if u == "" || IsSpace(u[0]) || u[0] == '|' then 0 else 1 + Stop(u[1..])
  }

  predicate Unquoted(u: string) {
    forall i :: 0 <= i < |u| ==> !IsQuote(u[i]) && u[i] != '\\'
  }

  /** A text that starts with a plain character yields its run of plain characters. */
  lemma PlainFirst(u: string, t: string, room: nat)
    requires room > 0 && Unquoted(u) && u != "" && Stop(u) > 0 && (t == "" || IsSpace(t[0]))
    ensures var i := Stop(u);
            Scan(u + t, None, NUL, room) == [u[..i]] + Scan(u[i..] + t, None, NUL, room - 1)
  {
    hide *;
    var i := Stop(u);
    CutRun(u, t, i);
    RunIsPlain(u, t);
    ScanStart(u[0], u[1..i] + (u[i..] + t), room);
    ScanWord([u[0]], u[1..i], u[i..] + t, NUL, room);
    ScanEnd(u[..i], u[i..] + t, room);
  }

  lemma CutRun(u: string, t: string, i: nat)
    requires 0 < i <= |u|
    ensures u + t == [u[0]] + (u[1..i] + (u[i..] + t)) && u[..i] == [u[0]] + u[1..i]
  {
  }

  lemma RunIsPlain(u: string, t: string)
    requires Unquoted(u) && u != "" && Stop(u) > 0 && (t == "" || IsSpace(t[0]))
    ensures var i := Stop(u);
            && IsPlain(u[0]) && (forall k :: 0 <= k < |u[1..i]| ==> IsPlain(u[1..i][k]))
            && NoBackslash(u[1..i]) && NoBackslash(u[..i])
            && var t' := u[i..] + t; t' == "" || IsSpace(t'[0]) || t'[0] == '|'
  {
    hide IsSpace, IsQuote;
  }

  /** A quoted word yields its text up to the first chosen quote. */
  lemma QuotedFirst(w: string, t: string, room: nat)
    requires room > 0 && NoBackslash(w) && QuoteFor(w) != ""
    ensures var q := QuoteFor(w);
            var i := Find(w, q[0]);
            Scan(Part(w) + t, None, NUL, room) == [w[..i]] + Scan((w + q)[i + 1..] + t, None, NUL, room - 1)
  {
    hide *;
    QuoteForIs(w);
    PartIs(w);
    var q := QuoteFor(w);
    var i := Find(w, q[0]);
    var t' := (w + q)[i + 1..] + t;
    CutQuoted(w, q, t, i);
    ScanSpace(' ', [q[0]] + (w[..i] + ([q[0]] + t')), room);
    ScanOpen(q[0], w[..i] + ([q[0]] + t'), room);
    CleanStart(w, i);
    ScanWord("", w[..i], [q[0]] + t', q[0], room);
    assert "" + w[..i] == w[..i];
    ScanClose(q[0], w[..i], t', room);
  }

  lemma CutQuoted(w: string, q: string, t: string, i: nat)
    requires |q| == 1 && i <= |w| && (i < |w| ==> w[i] == q[0])
    ensures " " + q + w + q + t == [' '] + ([q[0]] + (w[..i] + ([q[0]] + ((w + q)[i + 1..] + t))))
  {
    assert w + q == w[..i] + ([q[0]] + (w + q)[i + 1..]);
  }

  lemma CleanStart(w: string, i: nat)
    requires NoBackslash(w) && i <= |w|
    ensures NoBackslash(w[..i]) && NUL != '"' && NUL != '\''
  {
  }

  ghost predicate Clean(ws: seq<string>) {
    forall i :: 0 <= i < |ws| ==> NoBackslash(ws[i])
  }

  /** The text after a part starts with a space, if there is any. */
  lemma TailStarts(ws: seq<string>)
    ensures Tail(ws) == "" || IsSpace(Tail(ws)[0])
  {
  }

  /** A word that fits is the next word parsed. */
  lemma GoodFirst(w: string, t: string, room: nat)
    requires room > 0 && Fits(w) && (t == "" || IsSpace(t[0]))
    ensures Scan(Part(w) + t, None, NUL, room) == [w] + Scan(t, None, NUL, room - 1)
  {
    hide Scan, QuoteFor, Find, IsQuote, Stop;
    QuoteForIs(w);
    var q := QuoteFor(w);
    if q != "" {
      QuotedFirst(w, t, room);
      assert w[..|w|] == w && (w + q)[|w| + 1..] + t == t;
    } else {
      assert Part(w) + t == [' '] + (w + t);
      ScanSpace(' ', w + t, room);
      if w == "|" {
        ScanPipe(t, room);
      } else {
        StopAtEnd(w);
        UnquotedIs(w);
        PlainFirst(w, t, room);
        assert w[..|w|] == w && w[|w|..] + t == t;
      }
    }
  }

  lemma StopAtEnd(w: string)
    ensures Stop(w) == |w| <==> forall i :: 0 <= i < |w| ==> !IsSpace(w[i]) && w[i] != '|'
  {
  }

  /** Whatever follows, the next word parsed is not a word that starts with whitespace
      and needed no quoting. */
  lemma {:induction false} NotSpaceFirst(u: string, rest: seq<string>, room: nat)
    requires room > 0 && Unquoted(u) && Clean(rest)
    ensures var r := Scan(u + Tail(rest), None, NUL, room);
            r == [] || r[0] == "" || !IsSpace(r[0][0]) || ' ' in r[0] || '"' in r[0] || '\'' in r[0]
    decreases |rest|, |u|
  {
    hide Scan, QuoteFor, Find, IsSpace, IsQuote, Part;
    var t := Tail(rest);
    TailStarts(rest);
    if u != "" {
      assert u + t == [u[0]] + (u[1..] + t);
      if IsSpace(u[0]) {
        ScanSpace(u[0], u[1..] + t, room);
        NotSpaceFirst(u[1..], rest, room);
      } else if u[0] == '|' {
        ScanPipe(u[1..] + t, room);
        PipeIsNoSpace();
      } else {
        PlainFirst(u, t, room);
      }
    } else if rest == [] {
      assert u + t == "";
      ScanNothing(room);
    } else {
      var w, t' := rest[0], Tail(rest[1..]);
      QuoteForIs(w);
      assert u + t == Part(w) + t';
      if QuoteFor(w) != "" {
        QuotedFirst(w, t', room);
      } else {
        PartIs(w);
        assert Part(w) + t' == [' '] + (w + t');
        ScanSpace(' ', w + t', room);
        UnquotedIs(w);
        NotSpaceFirst(w, rest[1..], room);
      }
    }
  }

  lemma PipeIsNoSpace()
    ensures !IsSpace('|') && IsSpace(' ')
  {
  }

  lemma PartIs(w: string)
    ensures Part(w) == " " + QuoteFor(w) + w + QuoteFor(w) && IsSpace(' ')
  {
  }

  lemma UnquotedIs(w: string)
    requires NoBackslash(w) && '"' !in w && '\'' !in w
    ensures Unquoted(w)
  {
  }

  lemma ScanNothing(room: nat)
    ensures Scan("", None, NUL, room) == []
  {
  }

  /** A word that does not fit is not the next word parsed. */
  lemma BadFirst(w: string, rest: seq<string>, room: nat)
    requires room > 0 && !Fits(w) && NoBackslash(w) && Clean(rest)
    ensures var r := Scan(Part(w) + Tail(rest), None, NUL, room); r == [] || r[0] != w
  {
    hide Scan, QuoteFor, Find, IsSpace, IsQuote, Stop, Tail, Part;
    var t := Tail(rest);
    TailStarts(rest);
    QuoteForIs(w);
    if QuoteFor(w) != "" {
      QuotedFirst(w, t, room);
    } else {
      PartIs(w);
      assert Part(w) + t == [' '] + (w + t);
      ScanSpace(' ', w + t, room);
      UnquotedIs(w);
      if IsSpace(w[0]) {
        NotSpaceFirst(w, rest, room);
      } else if w[0] == '|' {
        assert w + t == "|" + (w[1..] + t);
        ScanPipe(w[1..] + t, room);
      } else {
        StopAtEnd(w);
        PlainFirst(w, t, room);
      }
    }
  }

  /** Appended words come back exactly when each of them fits. */
  lemma {:induction false} TailBack(ws: seq<string>, room: nat)
    requires Clean(ws) && |ws| <= room
    ensures Scan(Tail(ws), None, NUL, room) == ws <==> AllFit(ws)
  {
    hide Scan, Fits, Part;
    if ws == [] {
      ScanNothing(room);
    } else {
      var w, rest := ws[0], ws[1..];
      assert ws == [w] + rest;
      TailStarts(rest);
      if Fits(w) {
        GoodFirst(w, Tail(rest), room);
        TailBack(rest, room - 1);
        var r := Scan(Tail(rest), None, NUL, room - 1);
        assert [w] + r == [w] + rest <==> r == rest by {
          assert ([w] + r)[1..] == r && ([w] + rest)[1..] == rest;
        }
        assert AllFit(ws) <==> AllFit(rest);
      } else {
        BadFirst(w, rest, room);
      }
    }
  }

  /** The six characters that end an unquoted word besides the pipe: tab, line feed,
      vertical tab, form feed, carriage return and space. */
  lemma SpaceIs(c: char)
    ensures IsSpace(c) <==> 9 <= c as int <= 13 || c as int == 32
    ensures IsPlain(c) <==> !(9 <= c as int <= 13 || c as int == 32) && c !in ['"', '\'', '|', '\\']
  {
  }

  /** The first word of a line is cut at each of these six and at no other character that
      is neither quote, pipe nor backslash. */
  lemma CutAtSpaces(u: string, c: char, t: string, maxWords: int)
    requires maxWords >= 2 && u != "" && (9 <= c as int <= 13 || c as int == 32)
    requires forall i :: 0 <= i < |u| ==>
               !(9 <= u[i] as int <= 13 || u[i] as int == 32) && u[i] !in ['"', '\'', '|', '\\']
    ensures Words(u, maxWords) == [u]
    ensures Words(u + [c] + t, maxWords) == [u] + Scan(t, None, NUL, maxWords - 2)
  {
    hide *;
    forall i | 0 <= i < |u|
      ensures IsPlain(u[i]) && !IsSpace(u[i]) && u[i] != '\\'
    {
      SpaceIs(u[i]);
    }
    SpaceIs(c);
    PlainIsClean(u);
    FirstEnds(u, "", maxWords);
    assert u + "" == u;
    ScanNothing(maxWords - 2);
    FirstEnds(u, [c] + t, maxWords);
    assert u + [c] + t == u + ([c] + t);
    if maxWords > 2 {
      ScanSpace(c, t, maxWords - 2);
    } else {
      NothingLeft([c] + t, t);
    }
  }

  lemma PlainIsClean(u: string)
    requires forall i :: 0 <= i < |u| ==> u[i] != '\\'
    ensures NoBackslash(u)
  {
  }

  lemma NothingLeft(s: string, t: string)
    ensures Scan(s, None, NUL, 0) == Scan(t, None, NUL, 0) == []
  {
  }

  lemma FirstEnds(u: string, t: string, maxWords: int)
    requires maxWords >= 2 && u != "" && NoBackslash(u) && (t == "" || IsSpace(t[0]))
    requires forall i :: 0 <= i < |u| ==> IsPlain(u[i]) && !IsSpace(u[i])
    ensures Words(u + t, maxWords) == [u] + Scan(t, None, NUL, maxWords - 2)
  {
    hide *;
    WordsFrom(u + t, maxWords);
    ScanWord("", u, t, NUL, maxWords - 1);
    assert "" + u == u;
    ScanEnd(u, t, maxWords - 1);
  }

  /** Inside a word an escape takes the character after it literally, whatever it is, but
      of two escapes in a row only the first does: the second backslash is passed over as
      an ordinary character, and what follows it is not protected. */
  lemma EscapeInWord(acc: string, c: char, t: string, quote: char, room: nat)
    requires room > 0
    ensures Escape(t) == 0
            ==> Scan("\\" + [c] + t, Some(acc), quote, room) == Scan(t, Some(acc + "\\" + [c]), quote, room)
    ensures Escape(t) == 2 && quote != '\\'
            ==> Scan("\\" + [c] + t, Some(acc), quote, room) == Scan(t[1..], Some(acc + "\\" + [c] + "\\"), quote, room)
  {
    hide Scan, Unescaped, IsSpace, IsQuote;
    var s := "\\" + [c] + t;
    CutEscape(c, t);
    BackslashKind();
    ScanIn(s, acc, quote, room);
    assert s[..2] == "\\" + [c] && s[2..] == t;
    assert acc + s[..2] == acc + "\\" + [c];
    if Escape(t) == 0 {
      ScanIn(t, acc + "\\" + [c], quote, room);
      assert t[..0] == "" && acc + "\\" + [c] + "" == acc + "\\" + [c];
    }
  }

  lemma BackslashKind()
    ensures !IsSpace('\\') && !IsQuote('\\')
  {
  }

  /** For a command on its own; RoundTrip is for one inside others. */
  lemma RoundTripOne(name: string, ws: seq<string>, maxWords: int)
    requires PlainName(name)
    ensures Words(Line(name, ws), maxWords) == [name] + ws <==> 1 + |ws| <= maxWords - 1 && AllFit(ws)
  {
    hide *;
    WordsBound(Line(name, ws), maxWords);
    FitsClean(ws);
    if 1 + |ws| <= maxWords - 1 && Clean(ws) {
      NameFirst(name, ws, maxWords);
      TailBack(ws, maxWords - 2);
      SameHead(name, Scan(Tail(ws), None, NUL, maxWords - 2), ws);
    } else if Words(Line(name, ws), maxWords) == [name] + ws {
      CleanTail(name, ws);
    }
  }

  /** Quoting and parsing undo each other: extending a command's full name with words one
      by one and parsing the line gives the names and the words back if and only if there
      is room for them and each of the words fits. */
  lemma RoundTrip(names: seq<string>, ws: seq<string>, maxWords: int)
    requires names != [] && AllPlain(names)
    ensures Words(Line(FullName(names), ws), maxWords) == names + ws
            <==> |names| + |ws| <= maxWords - 1 && AllFit(ws)
  {
    hide *;
    FirstOf(names, ws);
    PlainFits(names, ws);
    NameIsLine(names);
    LineIsTail(FullName(names), ws);
    LineIsTail(names[0], names[1..]);
    LineIsTail(names[0], names[1..] + ws);
    TailAppend(names[1..], ws);
    assert (names[0] + Tail(names[1..])) + Tail(ws) == names[0] + (Tail(names[1..]) + Tail(ws));
    RoundTripOne(names[0], names[1..] + ws, maxWords);
  }

  ghost predicate AllPlain(names: seq<string>) {
    forall i :: 0 <= i < |names| ==> PlainName(names[i])
  }

  ghost predicate AllFit(ws: seq<string>) {
    forall i :: 0 <= i < |ws| ==> Fits(ws[i])
  }

  lemma FirstOf(names: seq<string>, ws: seq<string>)
    requires names != [] && AllPlain(names)
    ensures names + ws == [names[0]] + (names[1..] + ws) && |names[1..] + ws| == |names| + |ws| - 1
    ensures PlainName(names[0])
  {
  }

  /** A plain name needs no quotes and comes back from the parser. */
  lemma PlainPart(name: string)
    requires PlainName(name)
    ensures Fits(name) && Part(name) == " " + name
  {
    hide Find, QuoteFor, QuoteFrom;
    assert name[0] in name;
    QuoteForIs(name);
    assert " " + "" + name + "" == " " + name;
  }

  lemma PlainFits(names: seq<string>, ws: seq<string>)
    requires names != [] && AllPlain(names)
    ensures AllFit(names[1..] + ws) <==> AllFit(ws)
  {
    hide Fits, PlainName;
    var vs := names[1..];
    forall i | 0 <= i < |vs|
      ensures Fits(vs[i])
    {
      PlainPart(names[i + 1]);
    }
    assert forall i :: 0 <= i < |ws| ==> (vs + ws)[|vs| + i] == ws[i];
  }

  /** The full name is the line that extends the outermost name with the others. */
  lemma {:induction false} NameIsLine(names: seq<string>)
    requires names != [] && AllPlain(names)
    ensures FullName(names) == Line(names[0], names[1..]) != ""
  {
    hide Part, Line, PlainName;
    LineIsTail(names[0], names[1..]);
    NotEmpty(names[0]);
    if |names| > 1 {
      var rest := names[1..];
      NameIsLine(rest);
      LineIsTail(rest[0], rest[1..]);
      PlainPart(rest[0]);
      assert " " + rest[0] + Tail(rest[1..]) == " " + (rest[0] + Tail(rest[1..]));
    } else {
      assert names[0] + "" + "" == names[0] + "";
    }
  }

  lemma NotEmpty(name: string)
    requires PlainName(name)
    ensures name != ""
  {
  }

  lemma SameHead(name: string, r: seq<string>, ws: seq<string>)
    ensures [name] + r == [name] + ws <==> r == ws
  {
    assert ([name] + r)[1..] == r && ([name] + ws)[1..] == ws;
  }

  lemma CleanTail(name: string, ws: seq<string>)
    requires Clean([name] + ws)
    ensures Clean(ws)
  {
    assert ([name] + ws)[1..] == ws;
    assert forall i :: 0 <= i < |ws| ==> ws[i] == ([name] + ws)[i + 1];
  }

  lemma FitsClean(ws: seq<string>)
    ensures AllFit(ws) ==> Clean(ws)
  {
  }

  /** No line yields more than maxWords - 1 words, and no word holds a backslash. */
  lemma WordsBound(line: string, maxWords: int)
    ensures |Words(line, maxWords)| <= if maxWords < 1 then 0 else maxWords - 1
    ensures Clean(Words(line, maxWords))
  {
  }

  lemma NameFirst(name: string, ws: seq<string>, maxWords: int)
    requires PlainName(name) && maxWords >= 2
    ensures Words(Line(name, ws), maxWords) == [name] + Scan(Tail(ws), None, NUL, maxWords - 2)
  {
    hide Scan, Part, Line, IsSpace;
    var t := Tail(ws);
    LineIsTail(name, ws);
    TailStarts(ws);
    assert (name + t)[0] == name[0];
    ScanWord("", name, t, NUL, maxWords - 1);
    assert "" + name == name;
    ScanEnd(name, t, maxWords - 1);
  }
}
