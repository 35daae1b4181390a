/** libcli's line-buffered printing and its chain of output filters. */
module Printing {
  import opened Collections
  import opened CommandLine
  import opened Kmp

  // ---------- Lines ----------

  /** The complete lines of a text, without their ends. */
  function Lines(text: string): seq<string> {
    var i := Find(text, '\n');
    if i == |text| then [] else [text[..i]] + Lines(text[i + 1..])
  }

  /** What follows the last line end. */
  function Rest(text: string): string {
    var i := Find(text, '\n');
    if i == |text| then text else Rest(text[i + 1..])
  }

  function Joined(lines: seq<string>): string {
    if lines == [] then "" else lines[0] + "\n" + Joined(lines[1..])
  }

  lemma FirstLine(text: string)
    ensures var i := Find(text, '\n');
            && Lines(text) == (if i == |text| then [] else [text[..i]] + Lines(text[i + 1..]))
            && Rest(text) == (if i == |text| then text else Rest(text[i + 1..]))
  {
    hide Find;
  }

  lemma JoinedOne(line: string, lines: seq<string>)
    ensures Joined([line] + lines) == line + "\n" + Joined(lines)
  {
    assert ([line] + lines)[1..] == lines;
  }

  lemma JoinedNone()
    ensures Joined([]) == ""
  {
  }

  /** The lines and the rest are the text, and hold no line end themselves. */
  lemma {:induction false} LinesAndRest(text: string)
    ensures Joined(Lines(text)) + Rest(text) == text
    ensures '\n' !in Rest(text) && forall i :: 0 <= i < |Lines(text)| ==> '\n' !in Lines(text)[i]
  {
    hide *;
    FirstLine(text);
    var i := Find(text, '\n');
    if i < |text| {
      var t := text[i + 1..];
      LinesAndRest(t);
      JoinedOne(text[..i], Lines(t));
      LineCut(text, i, Joined(Lines(t)), Rest(t));
      NoneEnds(text[..i], Lines(t));
    } else {
      JoinedNone();
      assert "" + text == text;
    }
  }

  lemma LineCut(text: string, i: nat, joined: string, rest: string)
    requires i < |text| && text[i] == '\n' && text[i + 1..] == joined + rest
    ensures text[..i] + "\n" + joined + rest == text
  {
    assert text == text[..i] + "\n" + text[i + 1..];
  }

  lemma NoneEnds(line: string, lines: seq<string>)
    requires '\n' !in line && forall i :: 0 <= i < |lines| ==> '\n' !in lines[i]
    ensures forall i :: 0 <= i < |[line] + lines| ==> '\n' !in ([line] + lines)[i]
  {
  }

  /** Nothing follows the last line end exactly when the text is empty or ends in one; so
      a print without buffering then delivers an empty line at the end. */
  lemma {:induction false} RestIsEmpty(text: string)
    ensures Rest(text) == "" <==> text == "" || text[|text| - 1] == '\n'
  {
    hide *;
    FirstLine(text);
    var i := Find(text, '\n');
    if i < |text| {
      RestIsEmpty(text[i + 1..]);
    } else if text != "" {
      assert text[|text| - 1] in text;
    }
  }

  lemma FindAppend(a: string, b: string, c: char)
    ensures Find(a + b, c) == if Find(a, c) < |a| then Find(a, c) else |a| + Find(b, c)
  {
    var i, j := Find(a + b, c), if Find(a, c) < |a| then Find(a, c) else |a| + Find(b, c);
    hide Find;
    assert forall k :: 0 <= k < |a| ==> (a + b)[k] == a[k];
    assert forall k :: 0 <= k < |b| ==> (a + b)[|a| + k] == b[k];
    FirstIs(a + b, c, j);
  }

  lemma FirstIs(w: string, c: char, j: nat)
    requires j <= |w| && (j < |w| ==> w[j] == c) && forall k :: 0 <= k < j ==> w[k] != c
    ensures Find(w, c) == j
  {
    var i := Find(w, c);
    hide Find;
    assert forall k :: 0 <= k < i ==> w[..i][k] == w[k];
  }

  /** Lines can be taken from the start of a text before the rest of it is known. */
  lemma {:induction false} LinesAppend(a: string, b: string)
    ensures Lines(a + b) == Lines(a) + Lines(Rest(a) + b)
    ensures Rest(a + b) == Rest(Rest(a) + b)
  {
    hide *;
    FindAppend(a, b, '\n');
    FirstLine(a);
    FirstLine(a + b);
    var i := Find(a, '\n');
    if i < |a| {
      var a' := a[i + 1..];
      LinesAppend(a', b);
      CutAppend(a, b, i);
      Associate([a[..i]], Lines(a'), Lines(Rest(a') + b));
    } else {
      assert [] + Lines(a + b) == Lines(a + b);
    }
  }

  lemma CutAppend(a: string, b: string, i: nat)
    requires i < |a|
    ensures (a + b)[..i] == a[..i] && (a + b)[i + 1..] == a[i + 1..] + b
  {
  }

  // ---------- Filters ----------

  /** strstr finds something. */
  predicate Contains(s: string, pattern: string) {
    exists i :: 0 <= i <= |s| && OccursAt(s, pattern, i)
  }

  lemma ContainsIs(s: string, pattern: string)
    ensures Contains(s, pattern) <==> exists a, b :: s == a + pattern + b
  {
    if Contains(s, pattern) {
      var i :| 0 <= i <= |s| && OccursAt(s, pattern, i);
      assert s == s[..i] + pattern + s[i + |pattern|..];
    }
    if a, b :| s == a + pattern + b {
      assert OccursAt(s, pattern, |a|);
    }
  }

  /** What a match filter looks for: a substring (include, exclude), or a regular
      expression (grep, egrep), of which only its verdicts are known. */
  datatype Pattern = Substring(text: string) | Regex(matches: string -> bool)

  predicate Matches(pattern: Pattern, line: string) {
    match pattern
    case Substring(text) => Contains(line, text)
    case Regex(matches) => matches(line)
  }

  /** The match filter, the range filter, the count filter. */
  datatype Kind = Match(pattern: Pattern, invert: bool) | Range(start: string, end: Option<string>) | Count

  datatype State = State(kind: Kind, matched: bool, count: nat)

  /** Whether a filter lets a line through. */
  predicate Keeps(f: State, line: string) {
    match f.kind
    case Match(pattern, invert) => Matches(pattern, line) != invert
    case Range(start, _) => f.matched || Contains(line, start)
    case Count => false
  }

  /** The filter's state after a line. */
  function After(f: State, line: string): State {
    match f.kind
    case Match(_, _) => f
    case Range(_, end) => f.(matched := Keeps(f, line) && !(end.Some? && Contains(line, end.value)))
    case Count => f.(count := f.count + if SkipSpaces(line) != "" then 1 else 0)
  }

  class Filter {
    const kind: Kind
    var matched: bool
    var count: nat

    constructor (kind: Kind)
      ensures Now() == State(kind, false, 0)
    {
      this.kind, matched, count := kind, false, 0;
    }

    ghost function Now(): State
      reads this
    {
      State(kind, matched, count)
    }

    /** cli_match_filter, cli_range_filter and cli_count_filter. */
    method Apply(line: string) returns (ok: bool)
      modifies this
      ensures Now() == After(old(Now()), line) && ok == Keeps(old(Now()), line)
    {
      hide Contains, Matches, SkipSpaces, IsSpace;
      match kind {
        case Match(pattern, invert) =>
          ok := Matches(pattern, line);
          if invert {
            ok := !ok;
          }
        case Range(start, end) =>
          ok := false;
          if !matched {
            matched := Contains(line, start);
          }
          if matched {
            ok := true;
            if end.Some? && Contains(line, end.value) {
              matched := false;
            }
          }
        case Count =>
          var at, blanks := FirstWord(line);
          if at < |line| {
            count := count + 1;
          }
          ok := false;
      }
    }

    /** The last call of a filter, without a line: the count filter reports its count. */
    method Close() returns (report: Option<nat>)
      ensures report == if kind.Count? then Some(Now().count) else None
    {
      report := if kind.Count? then Some(count) else None;
    }
  }

  // ---------- A chain of filters ----------

  /** One line through the chain: the filters behind one that stops it do not see it. */
  predicate Passes(fs: seq<State>, line: string) {
    fs == [] || (Keeps(fs[0], line) && Passes(fs[1..], line))
  }

  function AfterAll(fs: seq<State>, line: string): (r: seq<State>)
    ensures |r| == |fs|
  {
    if fs == [] then []
    else [After(fs[0], line)] + if Keeps(fs[0], line) then AfterAll(fs[1..], line) else fs[1..]
  }

  /** The chain's states, and the lines that survive it, when it works line by line. */
  function ChainStates(fs: seq<State>, lines: seq<string>): (r: seq<State>)
    ensures |r| == |fs|
  {
    if lines == [] then fs else AfterAll(ChainStates(fs, lines[..|lines| - 1]), lines[|lines| - 1])
  }

  function ChainOutput(fs: seq<State>, lines: seq<string>): seq<string> {
    if lines == [] then []
    else
      var before, line := lines[..|lines| - 1], lines[|lines| - 1];
      ChainOutput(fs, before) + if Passes(ChainStates(fs, before), line) then [line] else []
  }

  /** One filter over all the lines. */
  function EndState(f: State, lines: seq<string>): State {
    if lines == [] then f else After(EndState(f, lines[..|lines| - 1]), lines[|lines| - 1])
  }

  function Output(f: State, lines: seq<string>): seq<string> {
    if lines == [] then []
    else
      var before, line := lines[..|lines| - 1], lines[|lines| - 1];
      Output(f, before) + if Keeps(EndState(f, before), line) then [line] else []
  }

  /** Every filter over the whole output of the one before it. */
  function PipeStates(fs: seq<State>, lines: seq<string>): seq<State> {
    if fs == [] then [] else [EndState(fs[0], lines)] + PipeStates(fs[1..], Output(fs[0], lines))
  }

  function PipeOutput(fs: seq<State>, lines: seq<string>): seq<string> {
    if fs == [] then lines else PipeOutput(fs[1..], Output(fs[0], lines))
  }

  lemma HeadOfChain(f: State, gs: seq<State>, line: string)
    ensures Passes([f] + gs, line) == (Keeps(f, line) && Passes(gs, line))
    ensures AfterAll([f] + gs, line) == [After(f, line)] + if Keeps(f, line) then AfterAll(gs, line) else gs
  {
    hide Keeps, After;
    assert ([f] + gs)[1..] == gs;
  }

  lemma ChainStep(fs: seq<State>, before: seq<string>, line: string)
    ensures ChainStates(fs, before + [line]) == AfterAll(ChainStates(fs, before), line)
    ensures ChainOutput(fs, before + [line])
            == ChainOutput(fs, before) + if Passes(ChainStates(fs, before), line) then [line] else []
  {
    hide Passes, AfterAll;
    assert (before + [line])[..|before|] == before;
  }

  lemma FilterStep(f: State, before: seq<string>, line: string)
    ensures EndState(f, before + [line]) == After(EndState(f, before), line)
    ensures Output(f, before + [line]) == Output(f, before) + if Keeps(EndState(f, before), line) then [line] else []
  {
    hide Keeps, After;
    assert (before + [line])[..|before|] == before;
  }

  lemma NoLines(f: State, fs: seq<State>)
    ensures ChainStates(fs, []) == fs && ChainOutput(fs, []) == []
    ensures EndState(f, []) == f && Output(f, []) == []
  {
  }

  /** The chain with its first filter taken apart. */
  lemma {:induction false} ChainHead(f: State, gs: seq<State>, lines: seq<string>)
    ensures ChainStates([f] + gs, lines) == [EndState(f, lines)] + ChainStates(gs, Output(f, lines))
    ensures ChainOutput([f] + gs, lines) == ChainOutput(gs, Output(f, lines))
  {
    hide *;
    if lines == [] {
      NoLines(f, gs);
      NoLines(f, [f] + gs);
    } else {
      var before, line := lines[..|lines| - 1], lines[|lines| - 1];
      assert lines == before + [line];
      ChainHead(f, gs, before);
      ChainStep([f] + gs, before, line);
      FilterStep(f, before, line);
      HeadOfChain(EndState(f, before), ChainStates(gs, Output(f, before)), line);
      ChainStep(gs, Output(f, before), line);
      assert Output(f, before) + [] == Output(f, before);
      assert ChainOutput(gs, Output(f, before)) + [] == ChainOutput(gs, Output(f, before));
    }
  }

  /** Filtering line by line is the same as running each filter over the whole output
      of the one before it: the same lines survive and every filter ends in the same state. */
  lemma {:induction false} ChainIsPipeline(fs: seq<State>, lines: seq<string>)
    ensures ChainStates(fs, lines) == PipeStates(fs, lines)
    ensures ChainOutput(fs, lines) == PipeOutput(fs, lines)
  {
    if fs == [] {
      NoFilters(lines);
    } else {
      hide EndState, Output, ChainStates, ChainOutput;
      assert fs == [fs[0]] + fs[1..];
      ChainHead(fs[0], fs[1..], lines);
      ChainIsPipeline(fs[1..], Output(fs[0], lines));
    }
  }

  lemma {:induction false} NoFilters(lines: seq<string>)
    ensures ChainStates([], lines) == [] && ChainOutput([], lines) == lines
  {
    if lines != [] {
      NoFilters(lines[..|lines| - 1]);
    }
  }

  // ---------- What each filter keeps ----------

  /** The lines at the positions that keep picks. */
  ghost function Pick(lines: seq<string>, keep: nat -> bool): seq<string> {
    if lines == [] then []
    else Pick(lines[..|lines| - 1], keep) + if keep(|lines| - 1) then [lines[|lines| - 1]] else []
  }

  /** Pick keeps the lines at the picked positions, in order. */
  lemma {:induction false} PickExactly(lines: seq<string>, keep: nat -> bool) returns (ks: seq<nat>)
    ensures forall a, b :: 0 <= a < b < |ks| ==> ks[a] < ks[b]
    ensures forall k: nat :: k in ks <==> k < |lines| && keep(k)
    ensures |Pick(lines, keep)| == |ks|
    ensures forall a :: 0 <= a < |ks| ==> ks[a] < |lines| && Pick(lines, keep)[a] == lines[ks[a]]
  {
    ks := [];
    if lines != [] {
      var e := |lines| - 1;
      ks := PickExactly(lines[..e], keep);
      if keep(e) {
        ks := ks + [e];
      }
    }
  }

  ghost function Matching(lines: seq<string>, pattern: Pattern, invert: bool): nat -> bool {
    (i: nat) => i < |lines| && Matches(pattern, lines[i]) != invert
  }

  /** The match filter keeps exactly the lines with the text in them, or that the regular
      expression matches, or exactly the others. */
  lemma MatchKeeps(lines: seq<string>, pattern: Pattern, invert: bool, keep: nat -> bool)
    requires forall i: nat :: i < |lines| ==>
               (keep(i) <==> invert != match pattern
                                       case Substring(text) => exists a, b :: lines[i] == a + text + b
                                       case Regex(matches) => matches(lines[i]))
    ensures var f := State(Match(pattern, invert), false, 0);
            EndState(f, lines) == f && Output(f, lines) == Pick(lines, keep)
  {
    MatchOutput(lines, pattern, invert);
    hide Contains;
    forall i: nat | i < |lines|
      ensures keep(i) == Matching(lines, pattern, invert)(i)
    {
      if pattern.Substring? {
        ContainsIs(lines[i], pattern.text);
      }
    }
    PickSame(lines, keep, Matching(lines, pattern, invert));
  }

  lemma {:induction false} MatchOutput(lines: seq<string>, pattern: Pattern, invert: bool)
    ensures var f := State(Match(pattern, invert), false, 0);
            EndState(f, lines) == f && Output(f, lines) == Pick(lines, Matching(lines, pattern, invert))
  {
    hide Matches;
    if lines != [] {
      var e := |lines| - 1;
      MatchOutput(lines[..e], pattern, invert);
      PickSame(lines[..e], Matching(lines[..e], pattern, invert), Matching(lines, pattern, invert));
      assert Matching(lines, pattern, invert)(e) == (Matches(pattern, lines[e]) != invert);
    }
  }

  lemma {:induction false} PickSame(lines: seq<string>, keep: nat -> bool, keep': nat -> bool)
    requires forall i :: 0 <= i < |lines| ==> keep(i) == keep'(i)
    ensures Pick(lines, keep) == Pick(lines, keep')
  {
    if lines != [] {
      PickSame(lines[..|lines| - 1], keep, keep');
    }
  }

  /** A line before position n has opened the range, and none from there on has closed it. */
  ghost predicate Open(lines: seq<string>, start: string, end: Option<string>, n: nat)
    requires n <= |lines|
  {
    exists j :: 0 <= j < n && Contains(lines[j], start)
                && forall k :: j <= k < n ==> !(end.Some? && Contains(lines[k], end.value))
  }

  ghost function Between(lines: seq<string>, start: string, end: Option<string>): nat -> bool {
    (i: nat) => i < |lines| && (Open(lines, start, end, i) || Contains(lines[i], start))
  }

  /** The range filter keeps a line exactly when some line at or before it has the start
      in it and no line from there up to the one before it has the end. */
  lemma RangeKeeps(lines: seq<string>, start: string, end: Option<string>, has: (string, string) -> bool,
                   keep: nat -> bool)
    requires forall s, p :: has(s, p) <==> exists a, b :: s == a + p + b
    requires forall i: nat :: i < |lines| ==>
               (keep(i) <==> exists j :: 0 <= j <= i && has(lines[j], start)
                                         && forall k :: j <= k < i ==> !(end.Some? && has(lines[k], end.value)))
    ensures var f := State(Range(start, end), false, 0);
            && EndState(f, lines) == f.(matched := Open(lines, start, end, |lines|))
            && Output(f, lines) == Pick(lines, keep)
  {
    hide *;
    HasIsContains(has);
    RangeByContains(lines, start, end, has, keep);
  }

  lemma RangeByContains(lines: seq<string>, start: string, end: Option<string>, has: (string, string) -> bool,
                        keep: nat -> bool)
    requires forall s, p :: has(s, p) == Contains(s, p)
    requires forall i: nat :: i < |lines| ==>
               (keep(i) <==> exists j :: 0 <= j <= i && has(lines[j], start)
                                         && forall k :: j <= k < i ==> !(end.Some? && has(lines[k], end.value)))
    ensures var f := State(Range(start, end), false, 0);
            && EndState(f, lines) == f.(matched := Open(lines, start, end, |lines|))
            && Output(f, lines) == Pick(lines, keep)
  {
    hide *;
    RangeOutput(lines, start, end);
    forall i: nat | i < |lines|
      ensures keep(i) == Between(lines, start, end)(i)
    {
      OpensOrOpen(lines, start, end, i);
    }
    PickSame(lines, keep, Between(lines, start, end));
  }

  lemma HasIsContains(has: (string, string) -> bool)
    requires forall s, p :: has(s, p) <==> exists a, b :: s == a + p + b
    ensures forall s, p :: has(s, p) == Contains(s, p)
  {
    forall s, p
      ensures has(s, p) == Contains(s, p)
    {
      ContainsIs(s, p);
    }
  }

  lemma OpensOrOpen(lines: seq<string>, start: string, end: Option<string>, i: nat)
    requires i < |lines|
    ensures Between(lines, start, end)(i)
            <==> exists j :: 0 <= j <= i && Contains(lines[j], start)
                             && forall k :: j <= k < i ==> !(end.Some? && Contains(lines[k], end.value))
  {
    hide Contains;
  }

  /** The range is open before a line, or the line opens it; the line that closes the
      range is still kept. */
  lemma {:induction false} RangeOutput(lines: seq<string>, start: string, end: Option<string>)
    ensures var f := State(Range(start, end), false, 0);
            && EndState(f, lines) == f.(matched := Open(lines, start, end, |lines|))
            && Output(f, lines) == Pick(lines, Between(lines, start, end))
  {
    hide Contains;
    if lines != [] {
      var e := |lines| - 1;
      var before := lines[..e];
      RangeOutput(before, start, end);
      forall n: nat | n <= e
        ensures Open(before, start, end, n) == Open(lines, start, end, n)
      {
        OpenPrefix(before, lines, start, end, n);
      }
      PickSame(before, Between(before, start, end), Between(lines, start, end));
      assert Between(lines, start, end)(e) == (Open(lines, start, end, e) || Contains(lines[e], start));
      OpenStep(lines, start, end, e);
    }
  }

  lemma OpenPrefix(p: seq<string>, lines: seq<string>, start: string, end: Option<string>, n: nat)
    requires n <= |p| <= |lines| && p == lines[..|p|]
    ensures Open(p, start, end, n) == Open(lines, start, end, n)
  {
    hide Contains;
    assert forall k :: 0 <= k < |p| ==> p[k] == lines[k];
  }

  lemma OpenStep(lines: seq<string>, start: string, end: Option<string>, n: nat)
    requires n < |lines|
    ensures Open(lines, start, end, n + 1)
            <==> (Open(lines, start, end, n) || Contains(lines[n], start))
                 && !(end.Some? && Contains(lines[n], end.value))
  {
    hide Contains;
  }

  /** The lines that hold something other than whitespace. */
  function NonBlank(lines: seq<string>): nat {
    if lines == [] then 0
    else
      var line := lines[|lines| - 1];
      NonBlank(lines[..|lines| - 1]) + if exists i :: 0 <= i < |line| && !IsSpace(line[i]) then 1 else 0
  }

  /** The count filter lets nothing through and counts the lines that are not blank. */
  lemma {:induction false} CountKeeps(lines: seq<string>, n: nat)
    ensures var f := State(Count, false, n);
            EndState(f, lines) == f.(count := n + NonBlank(lines)) && Output(f, lines) == []
  {
    hide IsSpace;
    if lines != [] {
      CountKeeps(lines[..|lines| - 1], n);
    }
  }

  // ---------- Printing ----------

  ghost function StatesOf(fs: seq<Filter>): (r: seq<State>)
    reads fs
    ensures |r| == |fs| && forall i :: 0 <= i < |fs| ==> r[i] == fs[i].Now()
  {
    if fs == [] then [] else StatesOf(fs[..|fs| - 1]) + [fs[|fs| - 1].Now()]
  }

  /** The lines that a print completes: with buffering the last partial line waits. */
  function Completed(text: string, buffered: bool): seq<string> {
    Lines(text) + if buffered then [] else [Rest(text)]
  }

  function Concat(texts: seq<string>): string {
    if texts == [] then "" else Concat(texts[..|texts| - 1]) + texts[|texts| - 1]
  }

  /** The chain has passed the line on: done are the states behind, rest those ahead. */
  ghost predicate StepsTo(fs: seq<State>, line: string, done: seq<State>, rest: seq<State>) {
    AfterAll(fs, line) == done + AfterAll(rest, line) && Passes(fs, line) == Passes(rest, line)
  }

  lemma StepStarts(fs: seq<State>, line: string)
    ensures StepsTo(fs, line, [], fs)
  {
    hide AfterAll, Passes;
    assert [] + AfterAll(fs, line) == AfterAll(fs, line);
  }

  lemma StepGoesOn(fs: seq<State>, line: string, done: seq<State>, f: State, rest: seq<State>)
    requires StepsTo(fs, line, done, [f] + rest)
    ensures if Keeps(f, line) then StepsTo(fs, line, done + [After(f, line)], rest)
            else AfterAll(fs, line) == done + [After(f, line)] + rest && !Passes(fs, line)
  {
    hide Keeps, After, AfterAll, Passes;
    HeadOfChain(f, rest, line);
    Associate(done, [After(f, line)], AfterAll(rest, line));
    Associate(done, [After(f, line)], rest);
  }

  lemma AtSeam<T>(a: seq<T>, b: seq<T>, x: T)
    requires b != []
    ensures (a + b)[|a|] == b[0] && (a + b)[|a| := x] == a + [x] + b[1..] && b == [b[0]] + b[1..]
  {
  }

  lemma StepEnds(fs: seq<State>, line: string, done: seq<State>)
    requires StepsTo(fs, line, done, [])
    ensures AfterAll(fs, line) == done && Passes(fs, line)
  {
    assert done + [] == done;
  }

  /** The filters' states and the lines delivered once these lines have been printed. */
  ghost function Delivered(fs: seq<State>, before: seq<string>, lines: seq<string>, filtered: bool)
    : (seq<State>, seq<string>)
  {
    if filtered then (ChainStates(fs, lines), before + ChainOutput(fs, lines)) else (fs, before + lines)
  }

  lemma MoreLines(fs: seq<State>, before: seq<string>, lines: seq<string>, line: string, filtered: bool)
    ensures var (mid, out) := Delivered(fs, before, lines, filtered);
            Delivered(fs, before, lines + [line], filtered) == Delivered(mid, out, [line], filtered)
  {
    hide AfterAll, Passes;
    var (mid, out) := Delivered(fs, before, lines, filtered);
    OneLine(mid, out, line, filtered);
    ChainStep(fs, lines, line);
    var more := if Passes(ChainStates(fs, lines), line) then [line] else [];
    assert before + (ChainOutput(fs, lines) + more) == before + ChainOutput(fs, lines) + more;
    assert before + (lines + [line]) == before + lines + [line];
    assert out + [] == out;
  }

  lemma NothingDelivered(fs: seq<State>, before: seq<string>, filtered: bool)
    ensures Delivered(fs, before, [], filtered) == (fs, before)
  {
    assert before + [] == before;
  }

  lemma OneLine(fs: seq<State>, before: seq<string>, line: string, filtered: bool)
    ensures Delivered(fs, before, [line], filtered)
            == if filtered then (AfterAll(fs, line), if Passes(fs, line) then before + [line] else before)
               else (fs, before + [line])
  {
    hide AfterAll, Passes;
    ChainStep(fs, [], line);
    assert [] + [line] == [line] && before + [] == before;
  }

  /** The next line of what is ahead. */
  lemma NextLine(whole: string, ahead: string, lines: seq<string>, buffered: bool)
    requires Lines(whole) == lines + Lines(ahead) && Rest(whole) == Rest(ahead)
    ensures var i := Find(ahead, '\n');
            var more := lines + [ahead[..i]];
            if i < |ahead| then Lines(whole) == more + Lines(ahead[i + 1..]) && Rest(whole) == Rest(ahead[i + 1..])
            else if buffered then lines == Completed(whole, true) && ahead == Rest(whole)
            else more == Completed(whole, false)
  {
    hide *;
    var i := Find(ahead, '\n');
    FirstLine(ahead);
    CompletedIs(whole, buffered);
    if i < |ahead| {
      Associate(lines, [ahead[..i]], Lines(ahead[i + 1..]));
    } else {
      assert lines + [] == lines && ahead[..i] == ahead;
    }
  }

  lemma CutAt(whole: string, p: nat, i: nat)
    requires p + i <= |whole|
    ensures whole[p..][..i] == whole[p..p + i]
    ensures if p + i < |whole| then whole[p..][i + 1..] == whole[p + i + 1..]
            else whole[p..p + i] == whole[p..] && whole[p + i..] == ""
  {
  }

  lemma CompletedIs(text: string, buffered: bool)
    ensures Completed(text, buffered) == Lines(text) + if buffered then [] else [Rest(text)]
  {
  }

  class Cli {
    var buffer: string
    // the filter chain of the command that runs, and the lines delivered
    var filters: seq<Filter>
    var delivered: seq<string>

    /** Every filter of the chain keeps its own state. */
    ghost predicate FiltersDiffer()
      reads `filters
    {
      forall i, j :: 0 <= i < j < |filters| ==> filters[i] != filters[j]
    }

    /** Only a partial line waits in the buffer. */
    ghost predicate Valid()
      reads `filters, `buffer
    {
      FiltersDiffer() && '\n' !in buffer
    }

    ghost function States(): seq<State>
      reads `filters, filters
    {
      StatesOf(filters)
    }

    lemma StatesAre()
      requires FiltersDiffer()
      ensures var now := States(); |now| == |filters| && forall i :: 0 <= i < |filters| ==> filters[i].Now() == now[i]
      ensures forall i, j :: 0 <= i < j < |filters| ==> filters[i] != filters[j]
    {
    }

    lemma StateChanged(now: seq<State>, at: nat)
      requires |filters| == |now| && at < |now|
      requires forall i :: 0 <= i < |filters| && i != at ==> filters[i].Now() == now[i]
      ensures States() == now[at := filters[at].Now()]
    {
    }

    /** One filter of the chain. */
    method ApplyAt(at: nat, line: string) returns (ok: bool)
      requires FiltersDiffer() && at < |filters|
      modifies set f | f in filters
      ensures |old(States())| == |filters|
      ensures States() == old(States())[at := After(old(States())[at], line)] && ok == Keeps(old(States())[at], line)
    {
      hide *;
      StatesAre();
      ghost var now := States();
      ok := filters[at].Apply(line);
      StateChanged(now, at);
    }

    /** One line through the chain. */
    method RunFilters(line: string) returns (shown: bool)
      requires FiltersDiffer()
      modifies set f | f in filters
      ensures States() == AfterAll(old(States()), line) && shown == Passes(old(States()), line)
    {
      hide *;
      shown := true;
      var at := 0;
      ghost var fs, done, rest := States(), [], States();
      StepStarts(fs, line);
      assert States() == done + rest;
      StatesAre();
      while shown && at < |filters|
        invariant at == |done| && |done| + |rest| == |filters| && States() == done + rest
        invariant if shown then StepsTo(fs, line, done, rest) else AfterAll(fs, line) == States() && !Passes(fs, line)
        decreases |filters| - at
      {
        AtSeam(done, rest, After(rest[0], line));
        StepGoesOn(fs, line, done, rest[0], rest[1..]);
        shown := ApplyAt(at, line);
        done, rest := done + [After(rest[0], line)], rest[1..];
        at := at + 1;
      }
      if shown {
        assert rest == [] && done + [] == done;
        StepEnds(fs, line, done);
      }
    }

    /** Delivers a line unless a filter stops it. */
    method Deliver(line: string, filtered: bool)
      requires FiltersDiffer()
      modifies `delivered, set f | f in filters
      ensures (States(), delivered) == Delivered(old(States()), old(delivered), [line], filtered)
    {
      hide *;
      var shown := true;
      OneLine(States(), delivered, line, filtered);
      if filtered {
        shown := RunFilters(line);
      }
      if shown {
        delivered := delivered + [line];
      }
    }

    /** _print: with buffering a last partial line waits in the buffer, without it that
        line is delivered too, even when it is empty. */
    method Show(text: string, buffered: bool, filtered: bool)
      requires Valid()
      modifies `buffer, `delivered, set f | f in filters
      ensures Valid() && buffer == if buffered then Rest(old(buffer) + text) else ""
      ensures (States(), delivered)
              == Delivered(old(States()), old(delivered), Completed(old(buffer) + text, buffered), filtered)
    {
      ValidIs();
      hide *;
      buffer := buffer + text;
      ghost var whole, fs, before := buffer, States(), delivered;
      ghost var lines: seq<string> := [];
      NothingDelivered(fs, before, filtered);
      var p, more := 0, true;
      assert whole[0..] == whole && [] + Lines(whole) == Lines(whole);
      while more
        invariant p <= |buffer| && buffer == whole && FiltersDiffer()
        invariant (States(), delivered) == Delivered(fs, before, lines, filtered)
        invariant if more then Lines(whole) == lines + Lines(whole[p..]) && Rest(whole) == Rest(whole[p..])
                  else lines == Completed(whole, buffered) && whole[p..] == if buffered then Rest(whole) else ""
        decreases more, |buffer| - p
      {
        NextLine(whole, whole[p..], lines, buffered);
        CutAt(whole, p, Find(whole[p..], '\n'));
        var next := p + Find(buffer[p..], '\n');
        if next == |buffer| && buffered {
          more := false;
        } else {
          var line := buffer[p..next];
          MoreLines(fs, before, lines, line, filtered);
          Deliver(line, filtered);
          lines := lines + [line];
          if next == |buffer| {
            p, more := next, false;
          } else {
            p := next + 1;
          }
        }
      }
      buffer := buffer[p..];
      LinesAndRest(whole);
      ValidIs();
    }

    lemma ValidIs()
      ensures Valid() <==> FiltersDiffer() && '\n' !in buffer
    {
    }

    /** Texts printed with buffering: however a text is cut into calls, its complete lines
        go through the filters as they would in one piece, and what follows the last line
        end waits in the buffer. */
    method ShowAll(texts: seq<string>, filtered: bool)
      requires Valid()
      modifies `buffer, `delivered, set f | f in filters
      ensures Valid()
      ensures var whole := old(buffer) + Concat(texts);
              && buffer == Rest(whole)
              && (States(), delivered) == Delivered(old(States()), old(delivered), Lines(whole), filtered)
    {
      hide *;
      ghost var first, fs, before := buffer, States(), delivered;
      ValidIs();
      NoTexts(first, fs, before, filtered);
      for i := 0 to |texts|
        invariant Valid() && buffer == Rest(first + Concat(texts[..i]))
        invariant (States(), delivered) == Delivered(fs, before, Lines(first + Concat(texts[..i])), filtered)
      {
        ghost var sofar := first + Concat(texts[..i]);
        OneMoreText(first, texts, i);
        LinesAppend(sofar, texts[i]);
        DeliveredAppend(fs, before, Lines(sofar), Lines(buffer + texts[i]), filtered);
        CompletedIs(buffer + texts[i], true);
        assert Lines(buffer + texts[i]) + [] == Lines(buffer + texts[i]);
        Show(texts[i], true, filtered);
      }
      assert texts[..|texts|] == texts;
    }
  }

  lemma NoTexts(first: string, fs: seq<State>, before: seq<string>, filtered: bool)
    requires '\n' !in first
    ensures Rest(first + Concat([])) == first
    ensures Delivered(fs, before, Lines(first + Concat([])), filtered) == (fs, before)
  {
    assert first + Concat([]) == first;
    NothingDelivered(fs, before, filtered);
  }

  lemma OneMoreText(first: string, texts: seq<string>, i: nat)
    requires i < |texts|
    ensures first + Concat(texts[..i + 1]) == first + Concat(texts[..i]) + texts[i]
  {
    assert texts[..i + 1][..i] == texts[..i];
  }

  lemma {:induction false} DeliveredAppend(fs: seq<State>, before: seq<string>, p: seq<string>, q: seq<string>,
                                           filtered: bool)
    ensures var (mid, out) := Delivered(fs, before, p, filtered);
            Delivered(fs, before, p + q, filtered) == Delivered(mid, out, q, filtered)
  {
    hide *;
    var (mid, out) := Delivered(fs, before, p, filtered);
    if q == [] {
      assert p + q == p;
      NothingDelivered(mid, out, filtered);
    } else {
      var r, line := q[..|q| - 1], q[|q| - 1];
      DeliveredAppend(fs, before, p, r, filtered);
      MoreLines(fs, before, p + r, line, filtered);
      MoreLines(mid, out, r, line, filtered);
      assert p + q == (p + r) + [line] && q == r + [line];
    }
  }

  lemma {:induction false} JoinedAppend(p: seq<string>, q: seq<string>)
    ensures Joined(p + q) == Joined(p) + Joined(q)
  {
    if p == [] {
      assert p + q == q;
    } else {
      assert (p + q)[1..] == p[1..] + q;
      JoinedAppend(p[1..], q);
    }
  }

  /** The delivered lines followed by the retained buffer reproduce what was printed. */
  lemma NothingLost(fs: seq<State>, before: seq<string>, first: string, texts: seq<string>)
    ensures var whole := first + Concat(texts);
            Joined(Delivered(fs, before, Lines(whole), false).1) + Rest(whole) == Joined(before) + first + Concat(texts)
  {
    var whole := first + Concat(texts);
    hide Joined, Lines, Rest, Concat, ChainStates, ChainOutput;
    JoinedAppend(before, Lines(whole));
    LinesAndRest(whole);
    assert Joined(before) + Joined(Lines(whole)) + Rest(whole) == Joined(before) + (Joined(Lines(whole)) + Rest(whole));
    assert Joined(before) + (first + Concat(texts)) == Joined(before) + first + Concat(texts);
  }
}
