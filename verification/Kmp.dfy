/** Substring search of utstring.h: Knuth-Morris-Pratt with the optimised
    failure table, in both directions, and the two wrappers over a string
    buffer. */
module Kmp {

  // ---------- Borders ----------

  /** The first k characters of p[..i] are also its last k, and k < i. */
  ghost predicate IsBorder(p: seq<char>, i: nat, k: int)
    requires i <= |p|
  {
    0 <= k < i && p[..k] == p[i - k..i]
  }

  /** A border worth falling back to: the character after it differs from the
      one that has just failed at i. At i == |p| nothing has failed. */
  ghost predicate IsFallback(p: seq<char>, i: nat, k: int)
    requires i <= |p|
  {
    IsBorder(p, i, k) && (i < |p| ==> p[k] != p[i])
  }

  /** t is the longest fallback at i, or -1 when there is none. */
  ghost predicate IsFailure(p: seq<char>, i: nat, t: int)
    requires i <= |p|
  {
    && (t == -1 || IsFallback(p, i, t))
    && forall k :: IsFallback(p, i, k) ==> k <= t
  }

  /** The longest fallback of length at most bound, found by trying every length. */
  ghost function FailureUpTo(p: seq<char>, i: nat, bound: int): (t: int)
    requires i <= |p| && -1 <= bound
    ensures -1 <= t <= bound
    decreases bound + 1
  {
    if bound == -1 || IsFallback(p, i, bound) then bound else FailureUpTo(p, i, bound - 1)
  }

  /** The failure function that the table has to hold. */
  ghost function Failure(p: seq<char>, i: nat): (t: int)
    requires i <= |p|
    ensures -1 <= t < i
  {
    FailureUpTo(p, i, i - 1)
  }

  lemma {:induction false} FailureUpToIsLongest(p: seq<char>, i: nat, bound: int)
    requires i <= |p| && -1 <= bound
    ensures var t := FailureUpTo(p, i, bound);
            && (t == -1 || IsFallback(p, i, t))
            && forall k :: IsFallback(p, i, k) && k <= bound ==> k <= t
    decreases bound + 1
  {
    if bound != -1 && !IsFallback(p, i, bound) {
      FailureUpToIsLongest(p, i, bound - 1);
    }
  }

  /** The searched-for value is the longest fallback, and the only one. */
  lemma FailureIsLongest(p: seq<char>, i: nat, t: int)
    requires i <= |p|
    ensures IsFailure(p, i, t) <==> t == Failure(p, i)
  {
    FailureUpToIsLongest(p, i, i - 1);
  }

  ghost predicate IsTable(p: seq<char>, t: seq<int>) {
    |t| == |p| + 1 && forall i :: 0 <= i <= |p| ==> t[i] == Failure(p, i)
  }

  function Reversed(s: seq<char>): (r: seq<char>)
    ensures |r| == |s|
    ensures forall k :: 0 <= k < |s| ==> r[k] == s[|s| - 1 - k]
  {
    seq(|s|, k requires 0 <= k < |s| => s[|s| - 1 - k])
  }

  /** The right-to-left table mirrors the left-to-right table of the reversed needle. */
  ghost function FailureR(p: seq<char>, x: nat): (t: int)
    requires x <= |p|
    ensures x <= t <= |p|
  {
    |p| - 1 - Failure(Reversed(p), |p| - x)
  }

  ghost predicate IsTableR(p: seq<char>, t: seq<int>) {
    |t| == |p| + 1 && forall x :: 0 <= x <= |p| ==> t[x] == FailureR(p, x)
  }

  /** Below a border, the borders of the whole and of the border coincide. */
  lemma BorderOfBorder(p: seq<char>, i: nat, j: int, k: int)
    requires i <= |p| && IsBorder(p, i, j) && k < j
    ensures IsBorder(p, i, k) <==> IsBorder(p, j, k)
  {
    if 0 <= k {
      assert p[i - k..i] == p[i - j..i][j - k..];
      assert p[j - k..j] == p[..j][j - k..];
    }
  }

  /** A border of p[..i+1] is a border of p[..i] extended by an equal character. */
  lemma BorderExtends(p: seq<char>, i: nat, k: nat)
    requires i < |p| && k < i
    ensures IsBorder(p, i + 1, k + 1) <==> IsBorder(p, i, k) && p[k] == p[i]
  {
    assert p[..k + 1] == p[..k] + [p[k]];
    assert p[i - k..i + 1] == p[i - k..i] + [p[i]];
    assert p[i + 1 - (k + 1)..i + 1] == p[i - k..i + 1];
  }

  /** Every border of p[..i] that the character at i would extend is at most j. */
  ghost predicate Bounds(p: seq<char>, i: nat, j: int)
    requires i < |p|
  {
    forall k :: IsBorder(p, i, k) && p[k] == p[i] ==> k <= j
  }

  /** Falling back from a mismatched border j to t = Failure(p, j) skips only
      borders that the character at i cannot extend. */
  lemma FallBack(p: seq<char>, i: nat, j: nat, t: int)
    requires i < |p| && IsBorder(p, i, j) && p[i] != p[j] && Bounds(p, i, j)
    requires t == Failure(p, j)
    ensures t == -1 || IsBorder(p, i, t)
    ensures Bounds(p, i, t)
  {
    FailureIsLongest(p, j, t);
    if t != -1 {
      BorderOfBorder(p, i, j, t);
    }
    forall k | IsBorder(p, i, k) && p[k] == p[i]
      ensures k <= t
    {
      BorderOfBorder(p, i, j, k);
      assert IsFallback(p, j, k);
    }
  }

  /** j is the longest border of p[..i]. */
  ghost predicate IsLongest(p: seq<char>, i: nat, j: int)
    requires i <= |p|
  {
    && (if i == 0 then j == -1 else IsBorder(p, i, j))
    && forall k :: IsBorder(p, i, k) ==> k <= j
  }

  /** Where the fallback loop starts. */
  lemma StartFallBack(p: seq<char>, i: nat, j: int)
    requires i < |p| && IsLongest(p, i, j)
    ensures -1 <= j < i && (j == -1 || IsBorder(p, i, j)) && Bounds(p, i, j)
    ensures 0 < i ==> 0 <= j
  {
  }

  lemma FailureAtStart(p: seq<char>)
    ensures Failure(p, 0) == -1
  {
  }

  lemma LongestAtStart(p: seq<char>)
    ensures IsLongest(p, 0, -1)
  {
  }

  /** After the fallback loop, one step to the right gives the next longest border. */
  lemma Advance(p: seq<char>, i: nat, j: int)
    requires i < |p| && (j == -1 || (IsBorder(p, i, j) && p[i] == p[j])) && Bounds(p, i, j)
    ensures IsLongest(p, i + 1, j + 1)
  {
    if j != -1 {
      BorderExtends(p, i, j);
    } else {
      assert p[..0] == p[i + 1..i + 1];
    }
    var i' := i + 1;
    forall k | IsBorder(p, i', k)
      ensures k <= j + 1
    {
      if 0 < k {
        BorderExtends(p, i, k - 1);
      }
    }
  }

  /** The value the builder stores at i, given the longest border there. */
  lemma EntryFromLongest(p: seq<char>, i: nat, j: nat)
    requires i <= |p| && IsLongest(p, i, j) && 0 < i
    ensures Failure(p, i) == if i < |p| && p[i] == p[j] then Failure(p, j) else j
  {
    var t := Failure(p, i);
    FailureIsLongest(p, i, t);
    FailureIsLongest(p, j, Failure(p, j));
    if i < |p| && p[i] == p[j] {
      var u := Failure(p, j);
      assert t < j;
      if t != -1 {
        BorderOfBorder(p, i, j, t);
        assert IsFallback(p, j, t);
      }
      if u != -1 {
        BorderOfBorder(p, i, j, u);
        assert IsFallback(p, i, u);
      }
    } else {
      assert IsFallback(p, i, j);
    }
  }

  // ---------- Counting comparisons ----------

  /** The comparisons of the fallback loop that starts at j, and where it stops. */
  ghost function InnerAt(p: seq<char>, i: nat, j: int): nat
    requires i < |p| && -1 <= j < i
    decreases j + 1
  {
    if j == -1 then 0 else if p[i] == p[j] then 1 else 1 + InnerAt(p, i, Failure(p, j))
  }

  ghost function Landing(p: seq<char>, i: nat, j: int): (l: int)
    requires i < |p| && -1 <= j < i
    ensures -1 <= l <= j
    decreases j + 1
  {
    if j == -1 || p[i] == p[j] then j else Landing(p, i, Failure(p, j))
  }

  /** The comparisons of all fallback loops from i on. */
  ghost function InnerFrom(p: seq<char>, i: nat, j: int): nat
    requires i <= |p| && -1 <= j && (i < |p| ==> j < i)
    decreases |p| - i
  {
    if i == |p| then 0 else InnerAt(p, i, j) + InnerFrom(p, i + 1, Landing(p, i, j) + 1)
  }

  lemma InnerStep(p: seq<char>, i: nat, j: int)
    requires i < |p| && -1 <= j < i
    ensures InnerFrom(p, i, j) == InnerAt(p, i, j) + InnerFrom(p, i + 1, Landing(p, i, j) + 1)
  {
  }

  lemma LoopStep(p: seq<char>, i: nat, j: int)
    requires i < |p| && -1 <= j < i
    ensures InnerAt(p, i, j) == if j == -1 then 0 else if p[i] == p[j] then 1 else 1 + InnerAt(p, i, Failure(p, j))
    ensures Landing(p, i, j) == if j == -1 || p[i] == p[j] then j else Landing(p, i, Failure(p, j))
  {
  }

  lemma InnerEnd(p: seq<char>, j: int)
    requires -1 <= j
    ensures InnerFrom(p, |p|, j) == 0
  {
  }

  /** _utstring_BuildTable. */
  method BuildTable(needle: seq<char>, table: array<int>) returns (ghost inner: nat, ghost fill: nat)
    requires table.Length == |needle| + 1
    modifies table
    ensures IsTable(needle, table[..])
    ensures inner == InnerFrom(needle, 0, -1)
    ensures |needle| > 0 ==> inner <= Most(|needle|) && fill == |needle| - 1
  {
    hide IsLongest, Bounds, IsBorder, Failure, InnerAt, Landing, InnerFrom;
    var m := |needle|;
    var i, j := 0, -1;
    inner, fill := 0, 0;
    table[i] := j;
    LongestAtStart(needle);
    FailureAtStart(needle);
    while i < m
      invariant 0 <= i <= m && -1 <= j < i && (0 < i ==> 0 <= j)
      invariant IsLongest(needle, i, j)
      invariant forall k :: 0 <= k <= i ==> table[k] == Failure(needle, k)
      invariant inner + InnerFrom(needle, i, j) == InnerFrom(needle, 0, -1)
      invariant fill == if i == 0 then 0 else if i < m then i else i - 1
    {
      StartFallBack(needle, i, j);
      InnerStep(needle, i, j);
      while j > -1 && needle[i] != needle[j]
        invariant -1 <= j < i && (j == -1 || IsBorder(needle, i, j))
        invariant Bounds(needle, i, j)
        invariant inner + InnerAt(needle, i, j) + InnerFrom(needle, i + 1, Landing(needle, i, j) + 1)
                  == InnerFrom(needle, 0, -1)
        modifies {}
        decreases j
      {
        FallBack(needle, i, j, table[j]);
        LoopStep(needle, i, j);
        j := table[j];
        inner := inner + 1;
      }
      LoopStep(needle, i, j);
      if j > -1 {
        inner := inner + 1;
      }
      Advance(needle, i, j);
      i, j := i + 1, j + 1;
      EntryFromLongest(needle, i, j);
      if i < m {
        fill := fill + 1;
        if needle[i] == needle[j] {
          table[i] := table[j];
        } else {
          table[i] := j;
        }
      } else {
        table[i] := j;
      }
    }
    InnerEnd(needle, j);
    if m > 0 {
      MostIsEnough(needle);
    }
  }

  // ---------- The most comparisons ----------

  /** The most comparisons of the fallback loops for a needle of length m. */
  function Most(m: nat): int
    requires m > 0
  {
    if m < 3 then m - 1 else 2 * m - 4
  }

  /** Before position i the loops have spent less than two comparisons a position,
      and fewer by what the border j still allows; a needle that starts with one
      repeated character has spent one a position. */
  ghost predicate Spent(p: seq<char>, i: nat, j: nat, spent: nat)
    requires i <= |p|
  {
    || (j == i - 1 && spent <= i - 1 && forall k :: 0 <= k < i ==> p[k] == p[0])
    || (i == 2 && j == 0 && spent <= 1)
    || spent <= 2 * i - 3 - (if j < 1 then 1 else j)
  }

  /** Every comparison but the one that ends the loop shortens the border. */
  lemma {:induction false} LoopShortens(p: seq<char>, i: nat, j: int)
    requires i < |p| && -1 <= j < i
    ensures var l := Landing(p, i, j); InnerAt(p, i, j) <= j - l + if l == -1 then 0 else 1
    decreases j + 1
  {
    hide InnerAt, Landing;
    LoopStep(p, i, j);
    if j != -1 && p[i] != p[j] {
      LoopShortens(p, i, Failure(p, j));
    }
  }

  /** Behind equal characters there is nothing to fall back to. */
  lemma NoFallBack(p: seq<char>, j: nat)
    requires j < |p| && forall k :: 0 <= k <= j ==> p[k] == p[0]
    ensures Failure(p, j) == -1
  {
    FailureIsLongest(p, j, -1);
  }

  lemma SpendMore(p: seq<char>, i: nat, j: nat, spent: nat)
    requires 0 <= j < i < |p| && Spent(p, i, j, spent)
    ensures Spent(p, i + 1, Landing(p, i, j) + 1, spent + InnerAt(p, i, j))
  {
    hide InnerAt, Landing, Failure;
    LoopShortens(p, i, j);
    LoopStep(p, i, j);
    if j == i - 1 && spent <= i - 1 && forall k :: 0 <= k < i ==> p[k] == p[0] {
      NoFallBack(p, j);
      LoopStep(p, i, -1);
    } else if j == 0 {
      FailureAtStart(p);
      LoopStep(p, i, -1);
    }
  }

  lemma {:induction false} WalkBound(p: seq<char>, i: nat, j: nat, spent: nat)
    requires 3 <= |p| && 0 <= j < i <= |p| && Spent(p, i, j, spent)
    ensures spent + InnerFrom(p, i, j) <= Most(|p|)
    decreases |p| - i
  {
    hide InnerAt, Landing, InnerFrom;
    if i == |p| {
      InnerEnd(p, j);
    } else {
      InnerStep(p, i, j);
      SpendMore(p, i, j, spent);
      WalkBound(p, i + 1, Landing(p, i, j) + 1, spent + InnerAt(p, i, j));
    }
  }

  /** No needle needs more. */
  lemma MostIsEnough(p: seq<char>)
    requires |p| > 0
    ensures InnerFrom(p, 0, -1) <= Most(|p|)
  {
    hide InnerAt, Landing, InnerFrom, Failure;
    InnerStep(p, 0, -1);
    LoopStep(p, 0, -1);
    if 3 <= |p| {
      WalkBound(p, 1, 0, 0);
    } else if |p| == 2 {
      InnerStep(p, 1, 0);
      LoopShortens(p, 1, 0);
      InnerEnd(p, Landing(p, 1, 0) + 1);
    } else {
      InnerEnd(p, 0);
    }
  }

  /** c b c c ... */
  function Costly(m: nat): (p: seq<char>)
    ensures |p| == m
  {
    seq(m, k => if k == 1 then 'b' else 'c')
  }

  /** From position 3 on every position costs two comparisons. */
  lemma {:induction false} TwoEach(p: seq<char>, i: nat)
    requires 3 <= i <= |p| && p == Costly(|p|) && Failure(p, 1) == 0
    ensures InnerFrom(p, i, 1) == 2 * (|p| - i)
    decreases |p| - i
  {
    hide InnerAt, Landing, InnerFrom, Failure;
    if i == |p| {
      InnerEnd(p, 1);
    } else {
      InnerStep(p, i, 1);
      LoopStep(p, i, 1);
      LoopStep(p, i, 0);
      TwoEach(p, i + 1);
    }
  }

  /** Some needle of every length needs that many. */
  lemma MostIsReached(m: nat)
    requires 3 <= m
    ensures InnerFrom(Costly(m), 0, -1) == Most(m)
  {
    hide InnerAt, Landing, InnerFrom, Failure;
    var p := Costly(m);
    FailureAtStart(p);
    assert IsFallback(p, 1, 0);
    FailureIsLongest(p, 1, 0);
    InnerStep(p, 0, -1);
    LoopStep(p, 0, -1);
    InnerStep(p, 1, 0);
    LoopStep(p, 1, 0);
    LoopStep(p, 1, -1);
    InnerStep(p, 2, 0);
    LoopStep(p, 2, 0);
    TwoEach(p, 3);
  }

  /** Counting both loops, every needle of length m is built within two comparisons a
      character if and only if m is at most 5. */
  lemma TwoEachUpToFive(m: nat)
    requires 0 < m
    ensures (forall p: seq<char> :: |p| == m ==> InnerFrom(p, 0, -1) + (m - 1) <= 2 * m) <==> m <= 5
  {
    hide InnerFrom, Costly;
    if m <= 5 {
      forall p: seq<char> | |p| == m
        ensures InnerFrom(p, 0, -1) + (m - 1) <= 2 * m
      {
        MostIsEnough(p);
      }
    } else {
      MostIsReached(m);
    }
  }

  /** The last r + 1 entries are those of the mirrored table. */
  ghost predicate FilledR(p: seq<char>, t: seq<int>, r: int) {
    |t| == |p| + 1 && r <= |p| && forall x :: |p| - r <= x <= |p| ==> t[x] == FailureR(p, x)
  }

  lemma EntryR(p: seq<char>, t: seq<int>, r: nat, x: int)
    requires FilledR(p, t, r) && |p| - r <= x <= |p|
    ensures t[x] == |p| - 1 - Failure(Reversed(p), |p| - x)
  {
  }

  lemma FillOne(p: seq<char>, t: seq<int>, r: nat, t': seq<int>)
    requires r <= |p| && |t| == |p| + 1 && (0 < r ==> FilledR(p, t, r - 1))
    requires t' == t[|p| - r := |p| - 1 - Failure(Reversed(p), r)]
    ensures FilledR(p, t', r)
  {
  }

  /** What the builder stores at r fills one entry more. */
  lemma NextEntryR(p: seq<char>, t: seq<int>, r: nat, s: nat, t': seq<int>)
    requires s < r <= |p| && |t| == |p| + 1 && FilledR(p, t, r - 1) && IsLongest(Reversed(p), r, s)
    requires t' == t[|p| - r := if r < |p| && Reversed(p)[r] == Reversed(p)[s] then t[|p| - s] else |p| - 1 - s]
    ensures FilledR(p, t', r)
  {
    hide FilledR, IsLongest, Failure;
    EntryFromLongest(Reversed(p), r, s);
    EntryR(p, t, r - 1, |p| - s);
    FillOne(p, t, r, t');
  }

  lemma AllFilledR(p: seq<char>, t: seq<int>)
    requires FilledR(p, t, |p|)
    ensures IsTableR(p, t)
  {
  }

  /** _utstring_BuildTableR: the same walk from the other end. The ghosts r and s
      are the positions of i and j in the reversed needle. */
  method BuildTableR(needle: seq<char>, table: array<int>) returns (ghost inner: nat, ghost fill: nat)
    requires table.Length == |needle| + 1
    modifies table
    ensures IsTableR(needle, table[..])
    ensures inner == InnerFrom(Reversed(needle), 0, -1)
    ensures |needle| > 0 ==> inner <= Most(|needle|) && fill == |needle| - 1
  {
    hide *;
    var m := |needle|;
    ghost var p := Reversed(needle);
    var i, j := m - 1, m;
    ghost var r, s := 0, -1;
    inner, fill := 0, 0;
    LongestAtStart(p);
    FailureAtStart(p);
    ghost var was := table[..];
    table[i + 1] := j;
    FillOne(needle, was, 0, table[..]);
    while i >= 0
      invariant r == m - 1 - i && s == m - 1 - j
      invariant 0 <= r <= m && -1 <= s < r && (0 < r ==> 0 <= s)
      invariant IsLongest(p, r, s)
      invariant FilledR(needle, table[..], r)
      invariant inner + InnerFrom(p, r, s) == InnerFrom(p, 0, -1)
      invariant fill == if r == 0 then 0 else if r < m then r else r - 1
      decreases i + 1
    {
      StartFallBack(p, r, s);
      InnerStep(p, r, s);
      was := table[..];
      while j < m && needle[i] != needle[j]
        invariant s == m - 1 - j && -1 <= s < r && (s == -1 || IsBorder(p, r, s))
        invariant Bounds(p, r, s)
        invariant inner + InnerAt(p, r, s) + InnerFrom(p, r + 1, Landing(p, r, s) + 1) == InnerFrom(p, 0, -1)
        modifies {}
        decreases m - j
      {
        ghost var t := Failure(p, s);
        EntryR(needle, was, r, j + 1);
        FallBack(p, r, s, t);
        LoopStep(p, r, s);
        j := table[j + 1];
        s := t;
        inner := inner + 1;
      }
      LoopStep(p, r, s);
      if j < m {
        inner := inner + 1;
      }
      Advance(p, r, s);
      i, j := i - 1, j - 1;
      r, s := r + 1, s + 1;
      if i >= 0 {
        fill := fill + 1;
        if needle[i] == needle[j] {
          table[i + 1] := table[j + 1];
        } else {
          table[i + 1] := j;
        }
      } else {
        table[i + 1] := j;
      }
      NextEntryR(needle, was, r, s, table[..]);
    }
    InnerEnd(p, s);
    AllFilledR(needle, table[..]);
    if m > 0 {
      MostIsEnough(p);
    }
  }

  // ---------- Searching ----------

  predicate OccursAt(h: seq<char>, p: seq<char>, q: int) {
    0 <= q && q + |p| <= |h| && h[q..q + |p|] == p
  }

  ghost predicate IsFirst(h: seq<char>, p: seq<char>, pos: int) {
    if pos == -1 then forall q :: !OccursAt(h, p, q)
    else OccursAt(h, p, pos) && forall q :: OccursAt(h, p, q) ==> pos <= q
  }

  ghost predicate IsLast(h: seq<char>, p: seq<char>, pos: int) {
    if pos == -1 then forall q :: !OccursAt(h, p, q)
    else OccursAt(h, p, pos) && forall q :: OccursAt(h, p, q) ==> q <= pos
  }

  /** The last k characters of h[..j] are the first k of p. */
  ghost predicate Matched(h: seq<char>, p: seq<char>, j: nat, k: int)
    requires j <= |h|
  {
    0 <= k <= j && k <= |p| && h[j - k..j] == p[..k]
  }

  lemma MatchedBelow(h: seq<char>, p: seq<char>, j: nat, i: int, k: int)
    requires j <= |h| && Matched(h, p, j, i) && 0 <= k < i
    ensures Matched(h, p, j, k) <==> IsBorder(p, i, k)
  {
    assert h[j - k..j] == h[j - i..j][i - k..];
    assert p[i - k..i] == p[..i][i - k..];
  }

  lemma MatchedExtends(h: seq<char>, p: seq<char>, j: nat, k: nat)
    requires j < |h| && k < |p|
    ensures Matched(h, p, j + 1, k + 1) <==> Matched(h, p, j, k) && p[k] == h[j]
  {
    if k <= j {
      assert h[j + 1 - (k + 1)..j + 1] == h[j - k..j] + [h[j]];
      assert p[..k + 1] == p[..k] + [p[k]];
    }
  }

  ghost predicate MatchBounds(h: seq<char>, p: seq<char>, j: nat, i: int)
    requires j < |h|
  {
    forall k :: Matched(h, p, j, k) && k < |p| && p[k] == h[j] ==> k <= i
  }

  lemma MatchFallBack(h: seq<char>, p: seq<char>, j: nat, i: nat, t: int)
    requires j < |h| && i < |p| && Matched(h, p, j, i) && p[i] != h[j] && MatchBounds(h, p, j, i)
    requires t == Failure(p, i)
    ensures t == -1 || Matched(h, p, j, t)
    ensures MatchBounds(h, p, j, t)
  {
    FailureIsLongest(p, i, t);
    if t != -1 {
      MatchedBelow(h, p, j, i, t);
    }
    forall k | Matched(h, p, j, k) && k < |p| && p[k] == h[j]
      ensures k <= t
    {
      if k < i {
        MatchedBelow(h, p, j, i, k);
        assert IsFallback(p, i, k);
      }
    }
  }

  /** i is the longest prefix of p that ends at j. */
  ghost predicate IsLongestMatch(h: seq<char>, p: seq<char>, j: nat, i: int)
    requires j <= |h|
  {
    Matched(h, p, j, i) && forall k :: Matched(h, p, j, k) ==> k <= i
  }

  lemma MatchAdvance(h: seq<char>, p: seq<char>, j: nat, i: int)
    requires j < |h| && i < |p| && (i == -1 || (Matched(h, p, j, i) && p[i] == h[j]))
    requires MatchBounds(h, p, j, i)
    ensures IsLongestMatch(h, p, j + 1, i + 1)
  {
    if i != -1 {
      MatchedExtends(h, p, j, i);
    } else {
      assert h[j + 1..j + 1] == p[..0];
    }
    var j' := j + 1;
    forall k | Matched(h, p, j', k)
      ensures k <= i + 1
    {
      if 0 < k {
        MatchedExtends(h, p, j, k - 1);
      }
    }
  }

  /** Every occurrence still starts no earlier than the current partial match. */
  ghost predicate NoneBefore(h: seq<char>, p: seq<char>, bound: int) {
    forall q :: OccursAt(h, p, q) ==> bound <= q
  }

  lemma OccurrenceIsMatch(h: seq<char>, p: seq<char>, j: nat, i: int, q: int)
    requires j <= |h| && OccursAt(h, p, q) && q + |p| >= j && IsLongestMatch(h, p, j, i)
    ensures j - i <= q
  {
    if q < j {
      assert h[q..j] == h[q..q + |p|][..j - q];
      assert p[..j - q] == h[j - (j - q)..j];
      assert Matched(h, p, j, j - q);
    }
  }

  /** Where the fallback loop starts. */
  lemma StartMatchFallBack(h: seq<char>, p: seq<char>, j: nat, i: int)
    requires j < |h| && IsLongestMatch(h, p, j, i)
    ensures 0 <= i && Matched(h, p, j, i) && MatchBounds(h, p, j, i)
  {
  }

  /** Before the first step nothing is matched and nothing is ruled out. */
  lemma MatchAtStart(h: seq<char>, p: seq<char>)
    ensures IsLongestMatch(h, p, 0, 0) && NoneBefore(h, p, 0)
  {
  }

  /** A partial match as long as the needle is an occurrence, and the first one. */
  lemma FullMatchIsFirst(h: seq<char>, p: seq<char>, j: nat)
    requires j <= |h| && IsLongestMatch(h, p, j, |p|) && NoneBefore(h, p, j - |p|)
    ensures IsFirst(h, p, j - |p|) && j >= |p|
  {
  }

  /** The early exit: what is left is too short to complete the partial match. */
  lemma TooShort(h: seq<char>, p: seq<char>, j: nat, i: nat)
    requires j <= |h| && NoneBefore(h, p, j - i) && (j == |h| || (|h| - j) + i < |p|) && i < |p|
    ensures IsFirst(h, p, -1)
  {
  }

  /** One outer step keeps every occurrence at or after the partial match. */
  lemma NoneBeforeStep(h: seq<char>, p: seq<char>, j: nat, i: int, j': nat, i': int)
    requires j < |h| && j' == j + 1
    requires IsLongestMatch(h, p, j, i) && i < |p| && NoneBefore(h, p, j - i)
    requires IsLongestMatch(h, p, j', i')
    ensures NoneBefore(h, p, j' - i')
  {
    forall q | OccursAt(h, p, q)
      ensures j' - i' <= q
    {
      OccurrenceIsMatch(h, p, j', i', q);
    }
  }

  /** The comparisons at position j of the text, a match of length i being held, and the
      length at which they stop. */
  ghost function CompareAt(h: seq<char>, p: seq<char>, j: nat, i: int): nat
    requires j < |h| && -1 <= i < |p|
    decreases i + 1
  {
    if i == -1 then 0 else if p[i] == h[j] then 1 else 1 + CompareAt(h, p, j, Failure(p, i))
  }

  ghost function StopAt(h: seq<char>, p: seq<char>, j: nat, i: int): (l: int)
    requires j < |h| && -1 <= i < |p|
    ensures -1 <= l <= i
    decreases i + 1
  {
    if i == -1 || p[i] == h[j] then i else StopAt(h, p, j, Failure(p, i))
  }

  /** The comparisons of the whole search from there on. */
  ghost function CompareFrom(h: seq<char>, p: seq<char>, j: nat, i: nat): nat
    requires j <= |h| && i <= |p|
    decreases |h| - j
  {
    if i == |p| || j == |h| || (|h| - j) + i < |p| then 0
    else CompareAt(h, p, j, i) + CompareFrom(h, p, j + 1, StopAt(h, p, j, i) + 1)
  }

  /** c comparisons have been made before position j. */
  ghost predicate Counted(h: seq<char>, p: seq<char>, j: nat, i: nat, c: int)
    requires j <= |h| && i <= |p|
  {
    c + CompareFrom(h, p, j, i) == CompareFrom(h, p, 0, 0) && c <= 2 * j - i
  }

  /** The same in the middle of position j. */
  ghost predicate CountedAt(h: seq<char>, p: seq<char>, j: nat, i: int, c: int)
    requires j < |h| && -1 <= i < |p|
  {
    && c + CompareAt(h, p, j, i) + CompareFrom(h, p, j + 1, StopAt(h, p, j, i) + 1) == CompareFrom(h, p, 0, 0)
    && c <= 2 * j - i
  }

  lemma CountNothing(h: seq<char>, p: seq<char>)
    ensures Counted(h, p, 0, 0, 0)
  {
  }

  lemma CountEnters(h: seq<char>, p: seq<char>, j: nat, i: nat, c: int)
    requires j < |h| && i < |p| && (|h| - j) + i >= |p| && Counted(h, p, j, i, c)
    ensures CountedAt(h, p, j, i, c)
  {
  }

  lemma CountFalls(h: seq<char>, p: seq<char>, j: nat, i: nat, c: int)
    requires j < |h| && i < |p| && p[i] != h[j] && CountedAt(h, p, j, i, c)
    ensures CountedAt(h, p, j, Failure(p, i), c + 1)
  {
  }

  lemma CountLeaves(h: seq<char>, p: seq<char>, j: nat, i: int, c: int)
    requires j < |h| && -1 <= i < |p| && (i == -1 || p[i] == h[j]) && CountedAt(h, p, j, i, c)
    ensures Counted(h, p, j + 1, i + 1, if i == -1 then c else c + 1)
  {
  }

  lemma CountEnds(h: seq<char>, p: seq<char>, j: nat, i: nat, c: int)
    requires j <= |h| && i <= |p| && (i == |p| || j == |h| || (|h| - j) + i < |p|) && Counted(h, p, j, i, c)
    ensures c == CompareFrom(h, p, 0, 0) <= 2 * |h|
  {
  }

  lemma TableAt(p: seq<char>, t: seq<int>, i: nat)
    requires IsTable(p, t) && i <= |p|
    ensures |t| == |p| + 1 && t[i] == Failure(p, i)
  {
  }

  lemma TableRAt(p: seq<char>, t: seq<int>, x: nat)
    requires IsTableR(p, t) && x <= |p|
    ensures |t| == |p| + 1 && t[x] == |p| - 1 - Failure(Reversed(p), |p| - x)
  {
  }

  /** _utstring_find: the loop counts character comparisons in a ghost. */
  method FindFirst(haystack: seq<char>, needle: seq<char>, table: array<int>) returns (pos: int, ghost comparisons: nat)
    requires |needle| > 0 && IsTable(needle, table[..])
    ensures IsFirst(haystack, needle, pos)
    ensures comparisons == CompareFrom(haystack, needle, 0, 0) <= 2 * |haystack|
  {
    hide *;
    var n, m := |haystack|, |needle|;
    pos := -1;
    comparisons := 0;
    var i, j := 0, 0;
    MatchAtStart(haystack, needle);
    CountNothing(haystack, needle);
    while j < n && (n - j) + i >= m
      invariant 0 <= i < m && i <= j <= n
      invariant IsLongestMatch(haystack, needle, j, i)
      invariant NoneBefore(haystack, needle, j - i)
      invariant Counted(haystack, needle, j, i, comparisons)
    {
      ghost var i0, j0 := i, j;
      StartMatchFallBack(haystack, needle, j, i);
      CountEnters(haystack, needle, j, i, comparisons);
      while i > -1 && needle[i] != haystack[j]
        invariant -1 <= i < m && (i == -1 || Matched(haystack, needle, j, i))
        invariant MatchBounds(haystack, needle, j, i)
        invariant CountedAt(haystack, needle, j, i, comparisons)
        decreases i
      {
        TableAt(needle, table[..], i);
        CountFalls(haystack, needle, j, i, comparisons);
        MatchFallBack(haystack, needle, j, i, table[i]);
        i := table[i];
        comparisons := comparisons + 1;
      }
      CountLeaves(haystack, needle, j, i, comparisons);
      if i > -1 {
        comparisons := comparisons + 1;
      }
      MatchAdvance(haystack, needle, j, i);
      i, j := i + 1, j + 1;
      NoneBeforeStep(haystack, needle, j0, i0, j, i);
      if i >= m {
        pos := j - i;
        FullMatchIsFirst(haystack, needle, j);
        CountEnds(haystack, needle, j, i, comparisons);
        return;
      }
    }
    TooShort(haystack, needle, j, i);
    CountEnds(haystack, needle, j, i, comparisons);
  }

  /** _utstring_findR: the mirror image of FindFirst. The ghosts a and b are the
      positions of i and j in the reversed strings. */
  method FindLast(haystack: seq<char>, needle: seq<char>, table: array<int>) returns (pos: int, ghost comparisons: nat)
    requires |needle| > 0 && IsTableR(needle, table[..])
    ensures IsLast(haystack, needle, pos)
    ensures comparisons == CompareFrom(Reversed(haystack), Reversed(needle), 0, 0) <= 2 * |haystack|
  {
    hide *;
    var n, m := |haystack|, |needle|;
    ghost var h, p := Reversed(haystack), Reversed(needle);
    pos := -1;
    comparisons := 0;
    var j, i := n - 1, m - 1;
    ghost var a, b := 0, 0;
    MatchAtStart(h, p);
    CountNothing(h, p);
    while j >= 0 && j >= i
      invariant a == m - 1 - i && b == n - 1 - j
      invariant 0 <= a < m && a <= b <= n
      invariant IsLongestMatch(h, p, b, a)
      invariant NoneBefore(h, p, b - a)
      invariant Counted(h, p, b, a, comparisons)
      decreases j + 1
    {
      ghost var a0, b0 := a, b;
      StartMatchFallBack(h, p, b, a);
      CountEnters(h, p, b, a, comparisons);
      while i < m && needle[i] != haystack[j]
        invariant a == m - 1 - i && -1 <= a < m && (a == -1 || Matched(h, p, b, a))
        invariant MatchBounds(h, p, b, a)
        invariant CountedAt(h, p, b, a, comparisons)
        decreases m - i
      {
        TableRAt(needle, table[..], i + 1);
        CountFalls(h, p, b, a, comparisons);
        MatchFallBack(h, p, b, a, Failure(p, a));
        i := table[i + 1];
        a := Failure(p, a);
        comparisons := comparisons + 1;
      }
      CountLeaves(h, p, b, a, comparisons);
      if i < m {
        comparisons := comparisons + 1;
      }
      MatchAdvance(h, p, b, a);
      i, j := i - 1, j - 1;
      a, b := a + 1, b + 1;
      NoneBeforeStep(h, p, b0, a0, b, a);
      if i < 0 {
        pos := j + 1;
        FullMatchIsFirst(h, p, b);
        CountEnds(h, p, b, a, comparisons);
        LastIsFirstReversed(haystack, needle, pos);
        return;
      }
    }
    TooShort(h, p, b, a);
    CountEnds(h, p, b, a, comparisons);
    LastIsFirstReversed(haystack, needle, pos);
  }

  /** Reversing both strings mirrors every occurrence. */
  lemma OccurrenceReversed(h: seq<char>, p: seq<char>, q: int)
    ensures OccursAt(h, p, q) <==> OccursAt(Reversed(h), Reversed(p), |h| - |p| - q)
  {
    if 0 <= q && q + |p| <= |h| {
      var h', p', q' := Reversed(h), Reversed(p), |h| - |p| - q;
      if h[q..q + |p|] == p {
        assert h'[q'..q' + |p|] == p';
      }
      if h'[q'..q' + |p|] == p' {
        forall k | 0 <= k < |p|
          ensures h[q..q + |p|][k] == p[k]
        {
          assert h'[q'..q' + |p|][|p| - 1 - k] == p'[|p| - 1 - k];
        }
        assert h[q..q + |p|] == p;
      }
    }
  }

  /** The last occurrence is the mirror image of the first one in the mirrored strings. */
  lemma LastIsFirstReversed(h: seq<char>, p: seq<char>, pos: int)
    ensures IsLast(h, p, pos) <==>
            if pos == -1 then IsFirst(Reversed(h), Reversed(p), -1)
            else 0 <= pos <= |h| - |p| && IsFirst(Reversed(h), Reversed(p), |h| - |p| - pos)
  {
    forall q
      ensures OccursAt(h, p, q) <==> OccursAt(Reversed(h), Reversed(p), |h| - |p| - q)
    {
      OccurrenceReversed(h, p, q);
    }
    forall q
      ensures OccursAt(Reversed(h), Reversed(p), q) <==> OccursAt(h, p, |h| - |p| - q)
    {
      OccurrenceReversed(h, p, |h| - |p| - q);
    }
  }

  // ---------- The string buffer ----------

  /** UT_string: the first i characters of d are in use. */
  class UTString {
    var d: array<char>
    var i: nat

    ghost predicate Valid()
      reads this
    {
      i <= d.Length
    }

    /** utstring_find. A start before the buffer is outside what the source can serve. */
    method Find(start: int, needle: seq<char>) returns (pos: int)
      requires Valid() && 0 <= i + start
      ensures var from := if start < 0 then i + start else start;
              if |needle| == 0 || pos == -1 then
                pos == -1 && (|needle| > 0 ==> forall q :: from <= q ==> !OccursAt(d[..i], needle, q))
              else
                && from <= pos && OccursAt(d[..i], needle, pos)
                && forall q :: from <= q && OccursAt(d[..i], needle, q) ==> pos <= q
    {
      pos := -1;
      var from := if start < 0 then i + start else start;
      var length := i - from;
      if length >= |needle| && |needle| > 0 {
        var table := new int[|needle| + 1];
        ghost var inner, fill := BuildTable(needle, table);
        ghost var comparisons;
        pos, comparisons := FindFirst(d[from..i], needle, table);
        forall q | from <= q
          ensures OccursAt(d[..i], needle, q) <==> OccursAt(d[from..i], needle, q - from)
        {
          OccurrenceInSuffix(d[..i], needle, from, q);
        }
        if pos >= 0 {
          pos := pos + from;
        }
      }
    }

    /** utstring_findR: the start is the last position a match may cover. */
    method FindR(start: int, needle: seq<char>) returns (pos: int)
      requires Valid() && start < d.Length
      ensures var upto := (if start < 0 then i + start else start) + 1;
              if |needle| == 0 || pos == -1 then
                pos == -1 && (|needle| > 0 && 0 <= upto <= d.Length ==> forall q :: !OccursAt(d[..upto], needle, q))
              else
                && |needle| <= upto <= d.Length
                && OccursAt(d[..upto], needle, pos)
                && forall q :: OccursAt(d[..upto], needle, q) ==> q <= pos
    {
      pos := -1;
      var last := if start < 0 then i + start else start;
      var length := last + 1;
      if length >= |needle| && |needle| > 0 {
        var table := new int[|needle| + 1];
        ghost var inner, fill := BuildTableR(needle, table);
        ghost var comparisons;
        pos, comparisons := FindLast(d[..length], needle, table);
      }
    }
  }

  lemma OccurrenceInSuffix(h: seq<char>, p: seq<char>, from: nat, q: int)
    requires from <= q && from <= |h|
    ensures OccursAt(h, p, q) <==> OccursAt(h[from..], p, q - from)
  {
    if q + |p| <= |h| {
      assert h[q..q + |p|] == h[from..][q - from..q - from + |p|];
    }
  }
}
