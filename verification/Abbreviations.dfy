/** libcli's command abbreviations: how long a prefix has to be, and which words a
    command accepts. */
module Abbreviations {

  const MODE_ANY := -1

  /** A registered command. Registration fixes all but unique_len. */
  class Command {
    const name: string
    const commandType: int
    const mode: int
    const privilege: int
    const children: seq<Command>
    var uniqueLen: nat

    constructor (name: string, commandType: int, mode: int, privilege: int, children: seq<Command>)
      ensures this.name == name && this.commandType == commandType && this.mode == mode
      ensures this.privilege == privilege && this.children == children
    {
      this.name, this.commandType, this.mode, this.privilege := name, commandType, mode, privilege;
      this.children, uniqueLen := children, 0;
    }
  }

  /** The mode and privilege of the session. */
  datatype Session = Session(mode: int, privilege: int)

  predicate Eligible(c: Command, s: Session) {
    (c.mode == MODE_ANY || c.mode == s.mode) && c.privilege <= s.privilege
  }

  /** The length of the common start of two names. */
  function Common(a: string, b: string): (n: nat)
    ensures n <= |a| && n <= |b| && a[..n] == b[..n]
    ensures n < |a| && n < |b| ==> a[n] != b[n]
  {
    if a == "" || b == "" || a[0] != b[0] then 0
    else
      var n := Common(a[1..], b[1..]);
      assert a[..n + 1] == [a[0]] + a[1..][..n] && b[..n + 1] == [b[0]] + b[1..][..n];
      1 + n
  }

  /** The commands that c has to be told apart from. */
  predicate Rival(c: Command, p: Command, s: Session) {
    c != p && c.commandType == p.commandType && Eligible(p, s)
  }

  /** One more than the longest start that c shares with a rival. */
  function Shortest(c: Command, list: seq<Command>, s: Session): (n: nat)
    ensures n >= 1
    ensures forall p :: p in list && Rival(c, p, s) ==> Common(c.name, p.name) < n
    ensures n == 1 || exists p :: p in list && Rival(c, p, s) && n == 1 + Common(c.name, p.name)
  {
    if list == [] then 1
    else
      var p, n := list[|list| - 1], Shortest(c, list[..|list| - 1], s);
      assert list == list[..|list| - 1] + [p];
      if Rival(c, p, s) && n < 1 + Common(c.name, p.name) then 1 + Common(c.name, p.name) else n
  }

  function UniqueLen(c: Command, list: seq<Command>, s: Session): nat {
    if Eligible(c, s) then Shortest(c, list, s) else |c.name|
  }

  // ---------- The command tree ----------

  /** All commands of a list and below it. */
  ghost function Below(list: seq<Command>, depth: nat): set<Command>
    decreases depth, |list|
  {
    if depth == 0 || list == [] then {}
    else
      var c := list[|list| - 1];
      Below(list[..|list| - 1], depth) + {c} + Below(c.children, depth - 1)
  }

  /** Every command stands in one place of a tree that is at most this deep. */
  ghost predicate IsTree(list: seq<Command>, depth: nat)
    decreases depth, |list|
  {
    list == [] ||
    (depth > 0 &&
     var before, c := list[..|list| - 1], list[|list| - 1];
     && IsTree(before, depth) && IsTree(c.children, depth - 1)
     && c !in Below(before, depth) && c !in Below(c.children, depth - 1)
     && Below(before, depth) !! Below(c.children, depth - 1))
  }

  /** Every command of part, all being its whole list, has its length, and so have the
      lists below it that are reached through eligible commands. */
  ghost predicate Built(part: seq<Command>, all: seq<Command>, depth: nat, s: Session)
    reads Below(part, depth)`uniqueLen
    decreases depth, |part|
  {
    part == [] || depth == 0 ||
    var before, c := part[..|part| - 1], part[|part| - 1];
    && Built(before, all, depth, s)
    && c.uniqueLen == UniqueLen(c, all, s)
    && (Eligible(c, s) ==> Built(c.children, c.children, depth - 1, s))
  }

  lemma {:induction false} TreePrefix(list: seq<Command>, i: nat, depth: nat)
    requires IsTree(list, depth) && i <= |list|
    ensures IsTree(list[..i], depth) && Below(list[..i], depth) <= Below(list, depth)
  {
    if i < |list| {
      TreePrefix(list[..|list| - 1], i, depth);
      assert list[..|list| - 1][..i] == list[..i];
    } else {
      assert list[..i] == list;
    }
  }

  /** The tree up to one more command. */
  lemma TreeStep(list: seq<Command>, i: nat, depth: nat)
    requires IsTree(list, depth) && i < |list|
    ensures depth > 0 && IsTree(list[i].children, depth - 1)
    ensures var before, c := list[..i], list[i];
            && c !in Below(before, depth) && c !in Below(c.children, depth - 1)
            && Below(before, depth) !! Below(c.children, depth - 1)
            && {c} + Below(c.children, depth - 1) <= Below(list, depth)
    ensures allocated(Below(list[..i], depth))
  {
    TreePrefix(list, i + 1, depth);
    assert list[..i + 1][..i] == list[..i];
  }

  lemma BuiltStep(list: seq<Command>, i: nat, depth: nat, s: Session)
    requires i < |list| && depth > 0 && Built(list[..i], list, depth, s)
    requires list[i].uniqueLen == UniqueLen(list[i], list, s)
    requires Eligible(list[i], s) ==> Built(list[i].children, list[i].children, depth - 1, s)
    ensures Built(list[..i + 1], list, depth, s)
  {
    assert list[..i + 1][..i] == list[..i];
  }

  lemma {:induction false} BuiltLen(part: seq<Command>, all: seq<Command>, depth: nat, s: Session, c: Command)
    requires Built(part, all, depth, s) && depth > 0 && c in part
    ensures c.uniqueLen == UniqueLen(c, all, s)
  {
    var e := |part| - 1;
    assert part == part[..e] + [part[e]];
    if c != part[e] {
      BuiltLen(part[..e], all, depth, s, c);
    }
  }

  /** The commands of a list, and of the lists below it that are reached through commands
      that the session may use. */
  ghost function Reached(list: seq<Command>, depth: nat, s: Session): set<Command>
    decreases depth, |list|
  {
    if depth == 0 || list == [] then {}
    else
      var c := list[|list| - 1];
      var below := if (c.mode == -1 || c.mode == s.mode) && c.privilege <= s.privilege then
                     Reached(c.children, depth - 1, s)
                   else {};
      Reached(list[..|list| - 1], depth, s) + {c} + below
  }

  lemma {:induction false} ReachedBelow(list: seq<Command>, depth: nat, s: Session)
    ensures Reached(list, depth, s) <= Below(list, depth)
    ensures allocated(Reached(list, depth, s))
    decreases depth, |list|
  {
    if depth > 0 && list != [] {
      ReachedBelow(list[..|list| - 1], depth, s);
      ReachedBelow(list[|list| - 1].children, depth - 1, s);
    }
  }

  lemma {:induction false} ReachedStep(list: seq<Command>, depth: nat, s: Session, i: nat)
    requires depth > 0 && i < |list|
    ensures list[i] in Reached(list, depth, s)
    ensures (list[i].mode == -1 || list[i].mode == s.mode) && list[i].privilege <= s.privilege ==>
              Reached(list[i].children, depth - 1, s) <= Reached(list, depth, s)
  {
    if i < |list| - 1 {
      ReachedStep(list[..|list| - 1], depth, s, i);
    }
  }

  /** What stands below a command that the session may not use is not reached. */
  lemma {:induction false} ExcludedUntouched(list: seq<Command>, depth: nat, s: Session, c: Command)
    requires IsTree(list, depth) && depth > 0 && c in list
    requires (c.mode != -1 && c.mode != s.mode) || c.privilege > s.privilege
    ensures Below(c.children, depth - 1) !! Reached(list, depth, s)
  {
    var e := |list| - 1;
    var before, d := list[..e], list[e];
    assert list == before + [d];
    ReachedBelow(before, depth, s);
    ReachedBelow(d.children, depth - 1, s);
    if c != d {
      ExcludedUntouched(before, depth, s, c);
      BelowChild(before, depth, c);
    }
  }

  lemma {:induction false} BelowChild(list: seq<Command>, depth: nat, c: Command)
    requires depth > 0 && c in list
    ensures Below(c.children, depth - 1) <= Below(list, depth)
  {
    var e := |list| - 1;
    assert list == list[..e] + [list[e]];
    if c != list[e] {
      BelowChild(list[..e], depth, c);
    }
  }

  /** cli_build_shortest: it goes below the commands only that the session may use. */
  method BuildShortest(list: seq<Command>, s: Session, ghost depth: nat)
    requires IsTree(list, depth)
    modifies Reached(list, depth, s)`uniqueLen
    ensures Built(list, list, depth, s)
    ensures forall c :: c in list ==>
              if (c.mode != -1 && c.mode != s.mode) || c.privilege > s.privilege then c.uniqueLen == |c.name|
              else forall k :: 0 <= k <= |c.name| ==>
                     (Accepts(c, c.name[..k])
                      <==> k == |c.name|
                           || (k > 0 && forall p :: p in list && p != c && p.commandType == c.commandType
                                                    && (p.mode == -1 || p.mode == s.mode) && p.privilege <= s.privilege
                                                    ==> !(c.name[..k] <= p.name)))
    decreases depth, 1
  {
    hide *;
    NothingBuilt(list, depth, s);
    for i := 0 to |list|
      invariant Built(list[..i], list, depth, s)
    {
      TreeStep(list, i, depth);
      ReachedStep(list, depth, s, i);
      ReachedBelow(list[i].children, depth - 1, s);
      MayUse(list[i], s);
      BuildOne(list, i, s, depth);
      BuiltStep(list, i, depth, s);
    }
    assert list[..|list|] == list;
    forall c | c in list
      ensures (c.mode != -1 && c.mode != s.mode) || c.privilege > s.privilege ==> c.uniqueLen == |c.name|
      ensures (c.mode == -1 || c.mode == s.mode) && c.privilege <= s.privilege ==>
                forall k :: 0 <= k <= |c.name| ==>
                  (Accepts(c, c.name[..k])
                   <==> k == |c.name|
                        || (k > 0 && forall p :: p in list && p != c && p.commandType == c.commandType
                                                 && (p.mode == -1 || p.mode == s.mode) && p.privilege <= s.privilege
                                                 ==> !(c.name[..k] <= p.name)))
    {
      TreeStep(list, 0, depth);
      BuiltExactly(list, depth, s, c);
    }
  }

  lemma NothingBuilt(list: seq<Command>, depth: nat, s: Session)
    ensures Built(list[..0], list, depth, s)
  {
  }

  /** One command of the list: its own length, and the lists below it. */
  method BuildOne(list: seq<Command>, i: nat, s: Session, ghost depth: nat)
    requires i < |list| && depth > 0
    requires IsTree(list[i].children, depth - 1) && list[i] !in Below(list[i].children, depth - 1)
    modifies {list[i]}`uniqueLen
    modifies (if Eligible(list[i], s) then Reached(list[i].children, depth - 1, s) else {})`uniqueLen
    ensures list[i].uniqueLen == UniqueLen(list[i], list, s)
    ensures Eligible(list[i], s) ==> Built(list[i].children, list[i].children, depth - 1, s)
    decreases depth, 0
  {
    hide *;
    var c := list[i];
    LenIs(c, list, s);
    c.uniqueLen := |c.name|;
    if Eligible(c, s) {
      ReachedBelow(c.children, depth - 1, s);
      ComputeShortest(c, list, s);
      BuildShortest(c.children, s, depth - 1);
    }
  }

  lemma LenIs(c: Command, list: seq<Command>, s: Session)
    ensures UniqueLen(c, list, s) == if Eligible(c, s) then Shortest(c, list, s) else |c.name|
  {
  }

  /** The inner loops: the comparison of c with each of its rivals. */
  method ComputeShortest(c: Command, list: seq<Command>, s: Session)
    modifies c`uniqueLen
    ensures c.uniqueLen == Shortest(c, list, s)
  {
    hide *;
    c.uniqueLen := 1;
    NoRivals(c, s);
    for i := 0 to |list|
      invariant c.uniqueLen == Shortest(c, list[..i], s)
    {
      var p := list[i];
      ShortestStep(c, list, i, s);
      if c == p || c.commandType != p.commandType || !Eligible(p, s) {
        continue;
      }
      var len, at := 1, 0;
      while at < |c.name| && at < |p.name| && c.name[at] == p.name[at]
        invariant at <= |c.name| && at <= |p.name| && len == 1 + at && c.name[..at] == p.name[..at]
      {
        len, at := len + 1, at + 1;
      }
      CommonIs(c.name, p.name, at);
      if len > c.uniqueLen {
        c.uniqueLen := len;
      }
    }
    assert list[..|list|] == list;
  }

  lemma NoRivals(c: Command, s: Session)
    ensures Shortest(c, [], s) == 1
  {
  }

  lemma ShortestStep(c: Command, list: seq<Command>, i: nat, s: Session)
    requires i < |list|
    ensures var p, n := list[i], Shortest(c, list[..i], s);
            var rival := c != p && c.commandType == p.commandType && Eligible(p, s);
            Shortest(c, list[..i + 1], s)
            == if rival && n < 1 + Common(c.name, p.name) then 1 + Common(c.name, p.name) else n
  {
    assert list[..i + 1][..i] == list[..i];
  }

  lemma CommonIs(a: string, b: string, n: nat)
    requires n <= |a| && n <= |b| && a[..n] == b[..n] && (n < |a| && n < |b| ==> a[n] != b[n])
    ensures Common(a, b) == n
  {
  }

  // ---------- Accepting a word ----------

  /** tolower in the C locale. */
  function ToLower(c: char): char {
    if 'A' <= c <= 'Z' then c - 'A' + 'a' else c
  }

  function Lower(s: string): (r: string)
    ensures |r| == |s| && forall i :: 0 <= i < |s| ==> r[i] == ToLower(s[i])
  {
    if s == "" then "" else Lower(s[..|s| - 1]) + [ToLower(s[|s| - 1])]
  }

  /** Two strings are equal but for case when they differ at most by the 32 between a
      capital and its small letter. */
  lemma EqualButForCase(a: string, b: string)
    ensures Lower(a) == Lower(b)
            <==> |a| == |b| && forall i :: 0 <= i < |a| ==>
                   || a[i] == b[i]
                   || (65 <= a[i] as int <= 90 && b[i] as int == a[i] as int + 32)
                   || (65 <= b[i] as int <= 90 && a[i] as int == b[i] as int + 32)
  {
    hide *;
    if |a| == |b| {
      forall i | 0 <= i < |a|
        ensures Lower(a)[i] == Lower(b)[i] <==>
                  || a[i] == b[i]
                  || (65 <= a[i] as int <= 90 && b[i] as int == a[i] as int + 32)
                  || (65 <= b[i] as int <= 90 && a[i] as int == b[i] as int + 32)
      {
        SameLetter(a[i], b[i]);
      }
      assert Lower(a) == Lower(b) <==> forall i :: 0 <= i < |a| ==> Lower(a)[i] == Lower(b)[i];
    }
    assert |Lower(a)| == |a| && |Lower(b)| == |b|;
  }

  lemma SameLetter(a: char, b: char)
    ensures ToLower(a) == ToLower(b)
            <==> || a == b
                 || (65 <= a as int <= 90 && b as int == a as int + 32)
                 || (65 <= b as int <= 90 && a as int == b as int + 32)
  {
  }

  predicate IsLowerCase(s: string) {
    Lower(s) == s
  }

  function Take(s: string, n: nat): string {
    if n < |s| then s[..n] else s
  }

  /** strncasecmp: the strings agree in their first n characters, an end counting as one. */
  predicate SameStart(a: string, b: string, n: nat) {
    Lower(Take(a, n)) == Lower(Take(b, n))
  }

  /** The word tests of cli_int_locate_command. */
  predicate Accepts(c: Command, word: string)
    reads c`uniqueLen
  {
    SameStart(c.name, word, c.uniqueLen) && SameStart(c.name, word, |word|)
  }

  lemma {:induction false} LowerStart(s: string, n: nat)
    requires n <= |s|
    ensures Lower(s[..n]) == Lower(s)[..n]
  {
    hide *;
    assert forall i :: 0 <= i < n ==> Lower(s[..n])[i] == Lower(s)[..n][i];
  }

  /** A command accepts just the starts of its name, in any case, that are long enough
      or are the whole name. */
  lemma AcceptsIs(c: Command, word: string)
    ensures Accepts(c, word)
            <==> |word| <= |c.name| && Lower(word) == Lower(c.name)[..|word|]
                 && (|word| >= c.uniqueLen || |word| == |c.name|)
  {
    hide Lower;
    var n, u := |word|, c.uniqueLen;
    if n <= |c.name| {
      LowerStart(c.name, n);
    }
    if u <= n <= |c.name| {
      LowerStart(c.name, u);
      LowerStart(word, u);
      assert Lower(c.name)[..n][..u] == Lower(c.name)[..u];
    }
  }

  /** Every start of a command's name that is long enough is accepted for it, and no
      other start but the whole name. */
  lemma StartAccepted(c: Command, k: nat)
    requires k <= |c.name|
    ensures Accepts(c, c.name[..k]) <==> k >= c.uniqueLen || k == |c.name|
  {
    LowerStart(c.name, k);
    AcceptsIs(c, c.name[..k]);
  }

  /** When two commands accept a common word at all, they accept the longest start that
      their names share but for case. */
  lemma CommonWord(c: Command, d: Command)
    ensures (exists word :: Accepts(c, word) && Accepts(d, word))
            <==> var n := Common(Lower(c.name), Lower(d.name));
                 (n >= c.uniqueLen || n == |c.name|) && (n >= d.uniqueLen || n == |d.name|)
  {
    hide Lower, Accepts, Common;
    var n := Common(Lower(c.name), Lower(d.name));
    LowerStart(c.name, n);
    AcceptsIs(c, c.name[..n]);
    AcceptsIs(d, c.name[..n]);
    if word :| Accepts(c, word) && Accepts(d, word) {
      AcceptsIs(c, word);
      AcceptsIs(d, word);
      StartsShared(Lower(c.name), Lower(d.name), |word|);
    }
  }

  lemma StartsShared(a: string, b: string, n: nat)
    requires n <= |a| && n <= |b| && a[..n] == b[..n]
    ensures n <= Common(a, b)
  {
    assert forall k :: 0 <= k < n ==> a[..n][k] == a[k] && b[..n][k] == b[k];
  }

  /** With lower-case names, two eligible commands of one list and type that accept the
      same word have the same name, even where one name starts another. */
  lemma NoAmbiguity(c: Command, d: Command, list: seq<Command>, s: Session, word: string)
    requires c in list && d in list && Eligible(c, s) && Eligible(d, s) && c.commandType == d.commandType
    requires c.uniqueLen == UniqueLen(c, list, s) && d.uniqueLen == UniqueLen(d, list, s)
    requires IsLowerCase(c.name) && IsLowerCase(d.name)
    requires Accepts(c, word) && Accepts(d, word)
    ensures c.name == d.name
  {
    hide Lower, Accepts, Common, Shortest;
    AcceptsIs(c, word);
    AcceptsIs(d, word);
    StartsShared(c.name, d.name, |word|);
    StartsShared(d.name, c.name, |word|);
    if c != d {
      assert Rival(c, d, s) && Rival(d, c, s);
      assert c.name[..|c.name|] == c.name && d.name[..|d.name|] == d.name;
    }
  }

  /** So once the lengths have been built, no word of a lower-case list is ambiguous. */
  lemma BuiltIsUnambiguous(list: seq<Command>, depth: nat, s: Session, c: Command, d: Command, word: string)
    requires depth > 0 && Built(list, list, depth, s)
    requires c in list && d in list && Eligible(c, s) && Eligible(d, s) && c.commandType == d.commandType
    requires IsLowerCase(c.name) && IsLowerCase(d.name) && Accepts(c, word) && Accepts(d, word)
    ensures c.name == d.name
  {
    hide *;
    BuiltLen(list, list, depth, s, c);
    BuiltLen(list, list, depth, s, d);
    NoAmbiguity(c, d, list, s, word);
  }

  lemma SharedStart(a: string, b: string, n: nat)
    requires n <= |a|
    ensures a[..n] <= b <==> n <= Common(a, b)
  {
    hide Common;
    var m := Common(a, b);
    if a[..n] <= b {
      assert a[..n] == b[..n];
      StartsShared(a, b, n);
    }
    if n <= m {
      assert a[..n] == a[..m][..n] && b[..n] == b[..m][..n];
    }
  }

  /** What a built list accepts, command by command. A command that the session's mode or
      privilege excludes is accepted by its whole name only; any other by its whole name and
      by every start that no other such command of its type begins with, and the list
      below it has been built. */
  lemma BuiltExactly(list: seq<Command>, depth: nat, s: Session, c: Command)
    requires depth > 0 && Built(list, list, depth, s) && c in list
    ensures (c.mode != -1 && c.mode != s.mode) || c.privilege > s.privilege ==> c.uniqueLen == |c.name|
    ensures (c.mode == -1 || c.mode == s.mode) && c.privilege <= s.privilege ==>
              && Built(c.children, c.children, depth - 1, s)
              && forall k :: 0 <= k <= |c.name| ==>
                   (Accepts(c, c.name[..k])
                    <==> k == |c.name|
                         || (k > 0 && forall p :: p in list && p != c && p.commandType == c.commandType
                                                  && (p.mode == -1 || p.mode == s.mode) && p.privilege <= s.privilege
                                                  ==> !(c.name[..k] <= p.name)))
  {
    hide Shortest, Accepts, Common, Below;
    BuiltLen(list, list, depth, s, c);
    if Eligible(c, s) {
      BuiltBelow(list, list, depth, s, c);
      forall k | 0 <= k <= |c.name|
        ensures Accepts(c, c.name[..k]) <==> k == |c.name| || Reaches(c, list, s, k)
      {
        StartAccepted(c, k);
        ReachesByLength(c, list, s, k);
      }
    }
  }

  lemma {:induction false} BuiltBelow(part: seq<Command>, all: seq<Command>, depth: nat, s: Session, c: Command)
    requires Built(part, all, depth, s) && depth > 0 && c in part && Eligible(c, s)
    ensures Built(c.children, c.children, depth - 1, s)
  {
    var e := |part| - 1;
    assert part == part[..e] + [part[e]];
    if c != part[e] {
      BuiltBelow(part[..e], all, depth, s, c);
    }
  }

  /** A start of n characters reaches c: it is the whole name, or no other command of the
      type that the session may use begins with it. */
  predicate Reaches(c: Command, list: seq<Command>, s: Session, n: nat)
    requires n <= |c.name|
  {
    n == |c.name|
    || (n > 0 && forall p :: p in list && p != c && p.commandType == c.commandType
                             && (p.mode == -1 || p.mode == s.mode) && p.privilege <= s.privilege
                             ==> !(c.name[..n] <= p.name))
  }

  /** For names in any case, said of the names alone: once the lengths have been built, two
      commands of one list and type that the session may use accept a common word exactly
      when the longest start their names share but for case reaches both. */
  lemma AmbiguousExactly(list: seq<Command>, depth: nat, s: Session, c: Command, d: Command)
    requires depth > 0 && Built(list, list, depth, s)
    requires c in list && d in list && c != d && c.commandType == d.commandType
    requires (c.mode == -1 || c.mode == s.mode) && c.privilege <= s.privilege
    requires (d.mode == -1 || d.mode == s.mode) && d.privilege <= s.privilege
    ensures (exists word :: Accepts(c, word) && Accepts(d, word))
            <==> var n := Common(Lower(c.name), Lower(d.name)); Reaches(c, list, s, n) && Reaches(d, list, s, n)
  {
    MayUse(c, s);
    MayUse(d, s);
    hide *;
    BuiltLen(list, list, depth, s, c);
    BuiltLen(list, list, depth, s, d);
    CommonWord(c, d);
    var n := Common(Lower(c.name), Lower(d.name));
    ReachesByLength(c, list, s, n);
    ReachesByLength(d, list, s, n);
  }

  lemma MayUse(c: Command, s: Session)
    ensures Eligible(c, s) <==> (c.mode == -1 || c.mode == s.mode) && c.privilege <= s.privilege
  {
  }

  lemma ReachesByLength(c: Command, list: seq<Command>, s: Session, n: nat)
    requires Eligible(c, s) && n <= |c.name|
    ensures Reaches(c, list, s, n) <==> n == |c.name| || n >= UniqueLen(c, list, s)
  {
    hide Common, Shortest;
    forall p | p in list
      ensures c.name[..n] <= p.name <==> n <= Common(c.name, p.name)
      ensures Rival(c, p, s) <==> p != c && p.commandType == c.commandType
                                  && (p.mode == -1 || p.mode == s.mode) && p.privilege <= s.privilege
    {
      SharedStart(c.name, p.name, n);
    }
  }

  /** With capitals the same word may be accepted for two commands: the lengths are
      computed with regard to case, the words are tested without. AmbiguousExactly says
      when. */
  lemma MixedCaseClash(c: Command, d: Command, s: Session)
    requires c != d && c.name == "Show" && d.name == "show" && c.commandType == d.commandType
    requires Eligible(c, s) && Eligible(d, s)
    requires c.uniqueLen == UniqueLen(c, [c, d], s) && d.uniqueLen == UniqueLen(d, [c, d], s)
    ensures Accepts(c, "s") && Accepts(d, "s")
  {
    assert Common("Show", "show") == 0 && Common("show", "Show") == 0;
    assert c.uniqueLen == 1 && d.uniqueLen == 1;
    AcceptsIs(c, "s");
    AcceptsIs(d, "s");
  }
}
