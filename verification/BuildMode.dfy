/** libcli's build mode: the options gathered one by one become a command line, which is
    then run like a typed one. */
module BuildMode {
  import opened Collections
  import opened CommandLine
  import Abbreviations

  /** struct cli_optarg: the flags that decide how it is spelled. */
  datatype Optarg = Optarg(name: string, privilege: int, mode: int, optionalFlag: bool, argument: bool, multiple: bool)

  /** struct cli_optarg_pair. A value is identified by its position among the pairs. */
  datatype Pair = Pair(name: string, value: string)

  /** The privilege and modes of the session that started the build mode. */
  datatype Access = Access(privilege: int, mode: int, transientMode: int)

  datatype Outcome = Run(line: string) | Missing(name: string)

  /** strcasecmp. */
  predicate SameName(a: string, b: string) {
    Abbreviations.Lower(a) == Abbreviations.Lower(b)
  }

  /** Two names are the same when they differ at most by the 32 between a capital and its
      small letter. */
  lemma SameNameIs(a: string, b: string)
    ensures SameName(a, b)
            <==> |a| == |b| && forall i :: 0 <= i < |a| ==>
                   || a[i] == b[i]
                   || (65 <= a[i] as int <= 90 && b[i] as int == a[i] as int + 32)
                   || (65 <= b[i] as int <= 90 && a[i] as int == b[i] as int + 32)
  {
    Abbreviations.EqualButForCase(a, b);
  }

  /** The next pair under that name. */
  ghost predicate IsNext(pairs: seq<Pair>, name: string, from: nat, value: Option<nat>) {
    match value
    case None => forall j :: from <= j < |pairs| ==> !SameName(pairs[j].name, name)
    case Some(k) =>
      && from <= k < |pairs| && SameName(pairs[k].name, name)
      && forall j :: from <= j < k ==> !SameName(pairs[j].name, name)
  }

  /** cli_get_optarg_value: the first value under the name, or the first behind a given one. */
  method OptargValue(pairs: seq<Pair>, name: string, after: Option<nat>) returns (value: Option<nat>)
    ensures after == None ==> IsNext(pairs, name, 0, value)
    ensures after.Some? ==>
              if after.value < |pairs| && SameName(pairs[after.value].name, name) then
                IsNext(pairs, name, after.value + 1, value)
              else value == None
  {
    hide SameName;
    var findAfter := after;
    for i := 0 to |pairs|
      invariant findAfter == None || findAfter == after
      invariant after == None ==> forall j :: 0 <= j < i ==> !SameName(pairs[j].name, name)
      invariant after.Some? ==>
                  if findAfter.Some? then after.value < i ==> !SameName(pairs[after.value].name, name)
                  else
                    && after.value < i && SameName(pairs[after.value].name, name)
                    && forall j :: after.value < j < i ==> !SameName(pairs[j].name, name)
    {
      if SameName(pairs[i].name, name) {
        if findAfter == Some(i) {
          findAfter := None;
        } else if findAfter == None {
          return Some(i);
        }
      }
    }
    return None;
  }

  // ---------- The words of one option ----------

  /** The option may be set by this session. */
  predicate Applies(o: Optarg, at: Access) {
    at.privilege >= o.privilege && (o.mode == at.mode || o.mode == at.transientMode || o.mode == Abbreviations.MODE_ANY)
  }

  /** ks are the positions of the values under a name before position from, in order. */
  ghost predicate Listed(pairs: seq<Pair>, name: string, from: nat, ks: seq<nat>) {
    && (forall a, b :: 0 <= a < b < |ks| ==> ks[a] < ks[b])
    && (forall a :: 0 <= a < |ks| ==> ks[a] < from <= |pairs| && SameName(pairs[ks[a]].name, name))
    && (forall k :: 0 <= k < from && k < |pairs| && SameName(pairs[k].name, name) ==> k in ks)
  }

  /** The values used: all, or the first. */
  ghost predicate Chosen(o: Optarg, pairs: seq<Pair>, ks: seq<nat>) {
    && (forall a, b :: 0 <= a < b < |ks| ==> ks[a] < ks[b])
    && (forall a :: 0 <= a < |ks| ==> ks[a] < |pairs| && SameName(pairs[ks[a]].name, o.name))
    && (forall k :: 0 <= k < |pairs| && SameName(pairs[k].name, o.name) ==>
          if o.multiple then k in ks else ks != [] && ks[0] <= k)
    && (o.multiple || |ks| <= 1)
  }

  /** Flags and arguments are spelled by their value, optional arguments by name and value. */
  ghost predicate Spells(o: Optarg, pairs: seq<Pair>, ks: seq<nat>, ws: seq<string>) {
    && (forall a :: 0 <= a < |ks| ==> ks[a] < |pairs|)
    && if o.optionalFlag || o.argument then
         |ws| == |ks| && forall a :: 0 <= a < |ks| ==> ws[a] == pairs[ks[a]].value
       else
         && |ws| == 2 * |ks|
         && forall a :: 0 <= a < |ks| ==> ws[2 * a] == o.name && ws[2 * a + 1] == pairs[ks[a]].value
  }

  ghost predicate NoValue(pairs: seq<Pair>, name: string) {
    forall k :: 0 <= k < |pairs| ==> !SameName(pairs[k].name, name)
  }

  lemma ListedNext(pairs: seq<Pair>, name: string, from: nat, ks: seq<nat>, next: Option<nat>)
    requires from <= |pairs| && Listed(pairs, name, from, ks) && IsNext(pairs, name, from, next)
    ensures next == None ==> Listed(pairs, name, |pairs|, ks) && (ks == [] ==> NoValue(pairs, name))
    ensures next.Some? ==> Listed(pairs, name, next.value + 1, ks + [next.value]) && !NoValue(pairs, name)
  {
    hide SameName;
    if next == None && ks == [] {
      assert forall k :: 0 <= k < from && SameName(pairs[k].name, name) ==> k in ks;
    }
  }

  lemma AllChosen(o: Optarg, pairs: seq<Pair>, from: nat, ks: seq<nat>)
    requires from <= |pairs| && Listed(pairs, o.name, from, ks)
    requires if from == |pairs| then o.multiple || |ks| <= 1 else !o.multiple && |ks| == 1
    ensures Chosen(o, pairs, ks)
  {
    hide SameName;
  }

  lemma SpellsMore(o: Optarg, pairs: seq<Pair>, ks: seq<nat>, ws: seq<string>, k: nat)
    requires Spells(o, pairs, ks, ws) && k < |pairs|
    ensures var v := pairs[k].value;
            Spells(o, pairs, ks + [k], ws + if o.optionalFlag || o.argument then [v] else [o.name, v])
  {
  }

  lemma LineAppend(name: string, vs: seq<string>, ws: seq<string>)
    ensures Line(Line(name, vs), ws) == Line(name, vs + ws)
  {
    hide *;
    LineIsTail(name, vs);
    LineIsTail(Line(name, vs), ws);
    LineIsTail(name, vs + ws);
    TailAppend(vs, ws);
    assert (name + Tail(vs)) + Tail(ws) == name + (Tail(vs) + Tail(ws));
  }

  lemma LineOne(name: string, w: string)
    ensures Line(name, []) == name && Line(name, [w]) == name + Part(w)
  {
    assert [w][..0] == [];
  }

  /** Spells one value at the end of the line. */
  method ExtendWith(line: string, o: Optarg, value: string, ghost ws: seq<string>, ghost start: string)
    returns (extended: string)
    requires line == Line(start, ws)
    ensures extended == Line(start, ws + if o.optionalFlag || o.argument then [value] else [o.name, value])
  {
    hide *;
    extended := line;
    ghost var before := ws;
    if !(o.optionalFlag || o.argument) {
      extended := ExtendCmdline(extended, o.name);
      LineOne(line, o.name);
      LineAppend(start, ws, [o.name]);
      assert (ws + [o.name]) + [value] == ws + [o.name, value];
      before := ws + [o.name];
    }
    LineOne(extended, value);
    LineAppend(start, before, [value]);
    extended := ExtendCmdline(extended, value);
  }

  /** The loop over the values of one option. */
  method ExtendByOptarg(line: string, o: Optarg, pairs: seq<Pair>)
    returns (extended: string, missing: bool, ghost ks: seq<nat>, ghost ws: seq<string>)
    ensures missing <==> o.argument && (o.multiple || NoValue(pairs, o.name))
    ensures !missing ==> extended == Line(line, ws) && Chosen(o, pairs, ks) && Spells(o, pairs, ks, ws)
  {
    hide *;
    extended, missing := line, false;
    ks, ws := [], [];
    var value: Option<nat>, more := None, true;
    ghost var from := 0;
    NothingYet(line, o, pairs);
    while more
      invariant from <= |pairs| && value == if ks == [] then None else Some(ks[|ks| - 1])
      invariant if ks == [] then from == 0
                else from == ks[|ks| - 1] + 1 && ks[|ks| - 1] < |pairs|
                     && SameName(pairs[ks[|ks| - 1]].name, o.name) && !NoValue(pairs, o.name)
      invariant Listed(pairs, o.name, from, ks) && Spells(o, pairs, ks, ws)
      invariant extended == Line(line, ws)
      invariant more ==> ks == [] || o.multiple
      invariant !more ==> Chosen(o, pairs, ks) && !(o.argument && (o.multiple || NoValue(pairs, o.name)))
      decreases more, |pairs| - from
    {
      var next := OptargValue(pairs, o.name, value);
      ListedNext(pairs, o.name, from, ks, next);
      NextWithin(pairs, o.name, from, next);
      if next == None {
        if o.argument {
          missing := true;
          return;
        }
        AllChosen(o, pairs, |pairs|, ks);
        break;
      } else {
        SpellsMore(o, pairs, ks, ws, next.value);
        extended := ExtendWith(extended, o, pairs[next.value].value, ws, line);
        ghost var v := pairs[next.value].value;
        ws := ws + if o.optionalFlag || o.argument then [v] else [o.name, v];
        ks, from := ks + [next.value], next.value + 1;
        value, more := next, o.multiple;
        if !more {
          AllChosen(o, pairs, from, ks);
        }
      }
    }
  }

  lemma NothingYet(line: string, o: Optarg, pairs: seq<Pair>)
    ensures Line(line, []) == line && Spells(o, pairs, [], []) && Listed(pairs, o.name, 0, [])
  {
  }

  lemma NextWithin(pairs: seq<Pair>, name: string, from: nat, next: Option<nat>)
    requires IsNext(pairs, name, from, next)
    ensures next.Some? ==> from <= next.value < |pairs| && SameName(pairs[next.value].name, name)
  {
  }

  // ---------- The whole line ----------

  /** The words of an option that spells the values ks; none when it does not apply. */
  ghost predicate OptionIs(o: Optarg, pairs: seq<Pair>, at: Access, ks: seq<nat>, words: seq<string>) {
    if Applies(o, at) then Chosen(o, pairs, ks) && Spells(o, pairs, ks, words) else words == []
  }

  predicate Lacks(o: Optarg, pairs: seq<Pair>, at: Access) {
    Applies(o, at) && o.argument && (o.multiple || forall k :: 0 <= k < |pairs| ==> !SameName(pairs[k].name, o.name))
  }

  lemma LacksIs(o: Optarg, pairs: seq<Pair>, at: Access)
    ensures Lacks(o, pairs, at) <==> Applies(o, at) && o.argument && (o.multiple || NoValue(pairs, o.name))
  {
  }

  /** So a required argument that may be repeated keeps the line from running even when
      it has a value. */
  lemma RepeatedNeverRuns(o: Optarg, value: string, at: Access)
    requires at.privilege >= o.privilege && (o.mode == at.mode || o.mode == at.transientMode || o.mode == -1)
    requires o.argument && o.multiple
    ensures Listed([Pair(o.name, value)], o.name, 1, [0]) && Lacks(o, [Pair(o.name, value)], at)
  {
    LacksMeans(o, [Pair(o.name, value)], at);
  }

  lemma OptionDone(o: Optarg, pairs: seq<Pair>, at: Access, ks: seq<nat>, words: seq<string>)
    requires if Applies(o, at) then Chosen(o, pairs, ks) && Spells(o, pairs, ks, words) else words == []
    ensures OptionIs(o, pairs, at, ks, words)
  {
  }

  /** Lacks and OptionIs in full. */
  lemma LacksMeans(o: Optarg, pairs: seq<Pair>, at: Access)
    ensures Lacks(o, pairs, at)
            <==> && at.privilege >= o.privilege
                 && (o.mode == at.mode || o.mode == at.transientMode || o.mode == -1)
                 && o.argument
                 && (o.multiple || forall k :: 0 <= k < |pairs| ==> !SameName(pairs[k].name, o.name))
  {
    hide SameName;
  }

  lemma OptionMeans(o: Optarg, pairs: seq<Pair>, at: Access, ks: seq<nat>, words: seq<string>)
    requires OptionIs(o, pairs, at, ks, words)
    ensures if at.privilege < o.privilege || (o.mode != at.mode && o.mode != at.transientMode && o.mode != -1) then
              words == []
            else
              && (forall a, a' :: 0 <= a < a' < |ks| ==> ks[a] < ks[a'])
              && (forall a :: 0 <= a < |ks| ==> ks[a] < |pairs| && SameName(pairs[ks[a]].name, o.name))
              && (forall k :: 0 <= k < |pairs| && SameName(pairs[k].name, o.name) ==>
                    if o.multiple then k in ks else ks != [] && ks[0] <= k)
              && (o.multiple || |ks| <= 1)
              && if o.optionalFlag || o.argument then
                   |words| == |ks| && forall a :: 0 <= a < |ks| ==> words[a] == pairs[ks[a]].value
                 else
                   && |words| == 2 * |ks|
                   && forall a :: 0 <= a < |ks| ==> words[2 * a] == o.name && words[2 * a + 1] == pairs[ks[a]].value
  {
    hide SameName;
  }

  /** cli_int_execute_buildmode, up to the line that is run. The first done options are
      those before the first that lacks a value. What follows the command's name is the
      words of one option after the other, for its values at the positions used[i]. The
      line is parsed into just these words if and only if there is room and they fit. */
  method ExecuteBuildmode(names: seq<string>, optargs: seq<Optarg>, pairs: seq<Pair>, at: Access)
    returns (r: Outcome, ghost done: nat, ghost blocks: seq<seq<string>>, ghost used: seq<seq<nat>>)
    ensures done == |blocks| == |used| <= |optargs|
    ensures r == if done == |optargs| then Run(Line(FullName(names), Flat(blocks))) else Missing(optargs[done].name)
    ensures forall i :: 0 <= i <= done && i < |optargs| ==>
              var o := optargs[i];
              var lacks := at.privilege >= o.privilege
                           && (o.mode == at.mode || o.mode == at.transientMode || o.mode == -1)
                           && o.argument
                           && (o.multiple || forall k :: 0 <= k < |pairs| ==> !SameName(pairs[k].name, o.name));
              lacks <==> i == done
    ensures forall i :: 0 <= i < done ==>
              var o, ks, words := optargs[i], used[i], blocks[i];
              if at.privilege < o.privilege || (o.mode != at.mode && o.mode != at.transientMode && o.mode != -1) then
                words == []
              else
                && (forall a, a' :: 0 <= a < a' < |ks| ==> ks[a] < ks[a'])
                && (forall a :: 0 <= a < |ks| ==> ks[a] < |pairs| && SameName(pairs[ks[a]].name, o.name))
                && (forall k :: 0 <= k < |pairs| && SameName(pairs[k].name, o.name) ==>
                      if o.multiple then k in ks else ks != [] && ks[0] <= k)
                && (o.multiple || |ks| <= 1)
                && if o.optionalFlag || o.argument then
                     |words| == |ks| && forall a :: 0 <= a < |ks| ==> words[a] == pairs[ks[a]].value
                   else
                     && |words| == 2 * |ks|
                     && forall a :: 0 <= a < |ks| ==> words[2 * a] == o.name && words[2 * a + 1] == pairs[ks[a]].value
    ensures r.Run? && names != [] && AllPlain(names) ==>
              var ws := Flat(blocks);
              Words(r.line, 128) == names + ws <==> |names| + |ws| < 128 && AllFit(ws)
  {
    hide *;
    var cmdline := CommandName(names);
    done, blocks, used := 0, [], [];
    NoBlocks(cmdline);
    var i, missing := 0, false;
    while !missing && i < |optargs|
      invariant done == |blocks| == |used| <= |optargs|
      invariant if missing then done < |optargs| && i == done + 1 else i == done
      invariant !missing ==> cmdline == Line(FullName(names), Flat(blocks))
      invariant missing ==> Lacks(optargs[done], pairs, at)
      invariant forall j :: 0 <= j < done ==> !Lacks(optargs[j], pairs, at)
      invariant forall j :: 0 <= j < done ==> OptionIs(optargs[j], pairs, at, used[j], blocks[j])
    {
      var o := optargs[i];
      ghost var ks, words := [], [];
      LacksIs(o, pairs, at);
      if Applies(o, at) {
        cmdline, missing, ks, words := ExtendByOptarg(cmdline, o, pairs);
      } else {
        NoBlocks(cmdline);
      }
      i := i + 1;
      if !missing {
        OptionDone(o, pairs, at, ks, words);
        LineAppend(FullName(names), Flat(blocks), words);
        FlatMore(blocks, words);
        done, blocks, used := done + 1, blocks + [words], used + [ks];
      }
    }
    r := if missing then Missing(optargs[i - 1].name) else Run(cmdline);
    if names != [] && AllPlain(names) {
      RoundTrip(names, Flat(blocks), 128);
    }
    forall j | 0 <= j < |optargs| {
      LacksMeans(optargs[j], pairs, at);
    }
    forall j | 0 <= j < done {
      OptionMeans(optargs[j], pairs, at, used[j], blocks[j]);
    }
  }

  lemma NoBlocks(line: string)
    ensures Flat<string>([]) == [] && Line(line, []) == line
  {
  }

  lemma FlatMore(blocks: seq<seq<string>>, words: seq<string>)
    ensures Flat(blocks + [words]) == Flat(blocks) + words
  {
    assert (blocks + [words])[..|blocks|] == blocks;
  }
}
