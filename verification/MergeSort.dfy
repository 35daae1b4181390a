/** The bottom-up merge sort shared by utlist.h and uthash.h as a function on
    sequences, with what it guarantees: a sorted, stable permutation. */
module MergeSort {

  // ---------- The algorithm ----------

  /** Two adjacent runs merged; on a tie the element of the first run goes first. */
  function Merge<T>(p: seq<T>, q: seq<T>, cmp: (T, T) -> int): (r: seq<T>)
    ensures |r| == |p| + |q|
  {
    if p == [] then q
    else if q == [] then p
    else if cmp(p[0], q[0]) <= 0 then [p[0]] + Merge(p[1..], q, cmp)
    else [q[0]] + Merge(p, q[1..], cmp)
  }

  function Min(a: nat, b: nat): nat {
    if a <= b then a else b
  }

  /** One pass: the runs of length k are merged in pairs; a last short run may stay alone. */
  function MergePass<T>(s: seq<T>, k: nat, cmp: (T, T) -> int): (r: seq<T>)
    requires 0 < k
    ensures |r| == |s|
  {
    if s == [] then []
    else
      var mid, end := Min(k, |s|), Min(k + k, |s|);
      Merge(s[..mid], s[mid..end], cmp) + MergePass(s[end..], k, cmp)
  }

  lemma PassOfNothing<T>(s: seq<T>, k: nat, cmp: (T, T) -> int)
    requires 0 < k && s == []
    ensures MergePass(s, k, cmp) == []
  {
  }

  /** Where the first two runs of a pass end. */
  lemma Cuts<T>(s: seq<T>, k: nat) returns (mid: nat, end: nat)
    requires 0 < k && s != []
    ensures mid == Min(k, |s|) && end == Min(k + k, |s|) && 0 < mid <= end <= |s|
  {
    mid, end := Min(k, |s|), Min(k + k, |s|);
  }

  lemma FirstMerge<T>(s: seq<T>, k: nat, cmp: (T, T) -> int)
    requires 0 < k && s != []
    ensures var mid, end := Min(k, |s|), Min(k + k, |s|);
            MergePass(s, k, cmp) == Merge(s[..mid], s[mid..end], cmp) + MergePass(s[end..], k, cmp)
  {
  }

  /** Passes with run length k, 2k, 4k and so on, until a pass needs at most one merge. */
  function SortFrom<T>(s: seq<T>, k: nat, cmp: (T, T) -> int): (r: seq<T>)
    requires 0 < k
    ensures |r| == |s|
    decreases |s| - k
  {
    var r := MergePass(s, k, cmp);
    if |s| <= k + k then r else SortFrom(r, k + k, cmp)
  }

  function Sort<T>(s: seq<T>, cmp: (T, T) -> int): (r: seq<T>)
    ensures |r| == |s|
  {
    SortFrom(s, 1, cmp)
  }

  // ---------- Cutting sequences ----------

  lemma Pieces<T>(s: seq<T>, a: nat, b: nat)
    requires a <= b <= |s|
    ensures s == s[..a] + s[a..b] + s[b..]
  {
  }

  lemma CutSuffix<T>(s: seq<T>, a: nat, b: nat)
    requires a <= b <= |s|
    ensures s[a..][..b - a] == s[a..b] && s[a..][b - a..] == s[b..]
  {
  }

  lemma MultisetOfPieces<T>(s: seq<T>, a: nat, b: nat)
    requires a <= b <= |s|
    ensures multiset(s) == multiset(s[..a]) + multiset(s[a..b]) + multiset(s[b..])
  {
    Pieces(s, a, b);
  }

  lemma MultisetOfConcat<T>(p: seq<T>, q: seq<T>)
    ensures multiset(p + q) == multiset(p) + multiset(q)
  {
  }

  // ---------- The same elements ----------

  lemma {:induction false} MergePermutes<T>(p: seq<T>, q: seq<T>, cmp: (T, T) -> int)
    ensures multiset(Merge(p, q, cmp)) == multiset(p) + multiset(q)
  {
    if p != [] && q != [] {
      assert p == [p[0]] + p[1..] && q == [q[0]] + q[1..];
      if cmp(p[0], q[0]) <= 0 {
        MergePermutes(p[1..], q, cmp);
      } else {
        MergePermutes(p, q[1..], cmp);
      }
    }
  }

  lemma {:induction false} PassPermutes<T>(s: seq<T>, k: nat, cmp: (T, T) -> int)
    requires 0 < k
    ensures multiset(MergePass(s, k, cmp)) == multiset(s)
  {
    hide *;
    if s == [] {
      PassOfNothing(s, k, cmp);
    } else {
      var mid, end := Cuts(s, k);
      var p, q, rest := s[..mid], s[mid..end], s[end..];
      FirstMerge(s, k, cmp);
      MergePermutes(p, q, cmp);
      PassPermutes(rest, k, cmp);
      MultisetOfPieces(s, mid, end);
      MultisetOfConcat(Merge(p, q, cmp), MergePass(rest, k, cmp));
    }
  }

  lemma {:induction false} SortFromPermutes<T>(s: seq<T>, k: nat, cmp: (T, T) -> int)
    requires 0 < k
    ensures multiset(SortFrom(s, k, cmp)) == multiset(s)
    decreases |s| - k
  {
    PassPermutes(s, k, cmp);
    if k + k < |s| {
      SortFromPermutes(MergePass(s, k, cmp), k + k, cmp);
    }
  }

  // ---------- Orders ----------

  /** On the elements of dom, cmp(a, b) <= 0 is a total preorder, which is what a
      comparison function promises. */
  ghost predicate IsOrder<T>(dom: set<T>, cmp: (T, T) -> int) {
    && (forall a, b :: a in dom && b in dom ==> cmp(a, b) <= 0 || cmp(b, a) <= 0)
    && (forall a, b, c :: a in dom && b in dom && c in dom && cmp(a, b) <= 0 && cmp(b, c) <= 0 ==> cmp(a, c) <= 0)
  }

  ghost predicate Within<T>(s: seq<T>, dom: set<T>) {
    forall x :: x in s ==> x in dom
  }

  ghost predicate Sorted<T>(s: seq<T>, cmp: (T, T) -> int) {
    forall i, j :: 0 <= i < j < |s| ==> cmp(s[i], s[j]) <= 0
  }

  lemma WithinPass<T>(s: seq<T>, k: nat, cmp: (T, T) -> int, dom: set<T>)
    requires 0 < k && Within(s, dom)
    ensures Within(MergePass(s, k, cmp), dom)
  {
    var r := MergePass(s, k, cmp);
    PassPermutes(s, k, cmp);
    forall x | x in r
      ensures x in dom
    {
      assert x in multiset(r);
    }
  }

  lemma SortedCons<T>(x: T, s: seq<T>, cmp: (T, T) -> int)
    requires Sorted(s, cmp) && forall y :: y in s ==> cmp(x, y) <= 0
    ensures Sorted([x] + s, cmp)
  {
  }

  /** The element that a merge takes next is below everything that is left. */
  lemma NextIsLeast<T>(p: seq<T>, q: seq<T>, cmp: (T, T) -> int, dom: set<T>)
    requires p != [] && q != [] && IsOrder(dom, cmp) && Within(p, dom) && Within(q, dom)
    requires Sorted(p, cmp) && Sorted(q, cmp)
    ensures cmp(p[0], q[0]) <= 0 ==> forall y :: y in p[1..] || y in q ==> cmp(p[0], y) <= 0
    ensures cmp(p[0], q[0]) > 0 ==> forall y :: y in p || y in q[1..] ==> cmp(q[0], y) <= 0
  {
    var a, b := p[0], q[0];
    assert a in dom && b in dom;
    forall y | y in p[1..]
      ensures cmp(a, y) <= 0 && y in dom
    {
      assert y in p;
    }
    forall y | y in q[1..]
      ensures cmp(b, y) <= 0 && y in dom
    {
      assert y in q;
    }
    assert p == [a] + p[1..] && q == [b] + q[1..];
  }

  lemma {:induction false} MergeSorted<T>(p: seq<T>, q: seq<T>, cmp: (T, T) -> int, dom: set<T>)
    requires IsOrder(dom, cmp) && Within(p, dom) && Within(q, dom)
    requires Sorted(p, cmp) && Sorted(q, cmp)
    ensures Sorted(Merge(p, q, cmp), cmp)
  {
    hide IsOrder;
    if p != [] && q != [] {
      NextIsLeast(p, q, cmp, dom);
      var pFirst := cmp(p[0], q[0]) <= 0;
      var x := if pFirst then p[0] else q[0];
      var p', q' := if pFirst then p[1..] else p, if pFirst then q else q[1..];
      MergeSorted(p', q', cmp, dom);
      MergePermutes(p', q', cmp);
      forall y | y in Merge(p', q', cmp)
        ensures cmp(x, y) <= 0
      {
        assert y in multiset(Merge(p', q', cmp));
      }
      SortedCons(x, Merge(p', q', cmp), cmp);
    }
  }

  /** Every run of length k, counted from the front, is sorted. */
  ghost predicate RunsSorted<T>(s: seq<T>, k: nat, cmp: (T, T) -> int)
    requires 0 < k
  {
    s == [] || (Sorted(s[..Min(k, |s|)], cmp) && RunsSorted(s[Min(k, |s|)..], k, cmp))
  }

  /** The first two runs, and what follows them. */
  lemma FirstTwoRuns<T>(s: seq<T>, k: nat, cmp: (T, T) -> int)
    requires 0 < k && s != [] && RunsSorted(s, k, cmp)
    ensures var mid, end := Min(k, |s|), Min(k + k, |s|);
            && Sorted(s[..mid], cmp) && Sorted(s[mid..end], cmp) && RunsSorted(s[end..], k, cmp)
            && s == s[..mid] + s[mid..end] + s[end..]
  {
    var mid, end := Min(k, |s|), Min(k + k, |s|);
    var rest := s[mid..];
    CutSuffix(s, mid, end);
    Pieces(s, mid, end);
    if rest == [] {
      assert s[mid..end] == [];
    }
  }

  lemma {:induction false} RunsOfOne<T>(s: seq<T>, cmp: (T, T) -> int)
    ensures RunsSorted(s, 1, cmp)
  {
    if s != [] {
      RunsOfOne(s[1..], cmp);
    }
  }

  /** A pass doubles the length of the sorted runs. */
  lemma {:induction false} PassDoublesRuns<T>(s: seq<T>, k: nat, cmp: (T, T) -> int, dom: set<T>)
    requires 0 < k && IsOrder(dom, cmp) && Within(s, dom) && RunsSorted(s, k, cmp)
    ensures RunsSorted(MergePass(s, k, cmp), k + k, cmp)
  {
    hide IsOrder;
    if s != [] {
      var mid, end := Min(k, |s|), Min(k + k, |s|);
      var p, q, rest := s[..mid], s[mid..end], s[end..];
      FirstTwoRuns(s, k, cmp);
      MergeSorted(p, q, cmp, dom);
      PassDoublesRuns(rest, k, cmp, dom);
      var r := MergePass(s, k, cmp);
      assert r[..Min(k + k, |r|)] == Merge(p, q, cmp);
      assert r[Min(k + k, |r|)..] == MergePass(rest, k, cmp);
    }
  }

  lemma {:induction false} SortFromSorted<T>(s: seq<T>, k: nat, cmp: (T, T) -> int, dom: set<T>)
    requires 0 < k && IsOrder(dom, cmp) && Within(s, dom) && RunsSorted(s, k, cmp)
    ensures Sorted(SortFrom(s, k, cmp), cmp)
    decreases |s| - k
  {
    hide IsOrder;
    var r := MergePass(s, k, cmp);
    PassDoublesRuns(s, k, cmp, dom);
    if |s| <= k + k {
      assert r[..Min(k + k, |r|)] == r;
    } else {
      WithinPass(s, k, cmp, dom);
      SortFromSorted(r, k + k, cmp, dom);
    }
  }

  // ---------- Stability ----------

  ghost predicate Ties<T>(x: T, g: T, cmp: (T, T) -> int) {
    cmp(x, g) <= 0 && cmp(g, x) <= 0
  }

  /** The elements that compare equal to g, in the order they stand. */
  ghost function TiesOf<T>(s: seq<T>, g: T, cmp: (T, T) -> int): seq<T> {
    if s == [] then [] else (if Ties(s[0], g, cmp) then [s[0]] else []) + TiesOf(s[1..], g, cmp)
  }

  lemma TiesOfFirst<T>(s: seq<T>, g: T, cmp: (T, T) -> int)
    requires s != []
    ensures TiesOf(s, g, cmp) == (if Ties(s[0], g, cmp) then [s[0]] else []) + TiesOf(s[1..], g, cmp)
  {
  }

  lemma {:induction false} TiesOfAppend<T>(p: seq<T>, q: seq<T>, g: T, cmp: (T, T) -> int)
    ensures TiesOf(p + q, g, cmp) == TiesOf(p, g, cmp) + TiesOf(q, g, cmp)
  {
    var all := p + q;
    if p == [] {
      assert all == q;
    } else {
      assert all[0] == p[0] && all[1..] == p[1..] + q;
      TiesOfAppend(p[1..], q, g, cmp);
      TiesOfFirst(all, g, cmp);
      TiesOfFirst(p, g, cmp);
    }
  }

  lemma {:induction false} NoTies<T>(s: seq<T>, g: T, cmp: (T, T) -> int)
    requires forall x :: x in s ==> !Ties(x, g, cmp)
    ensures TiesOf(s, g, cmp) == []
  {
    if s != [] {
      assert s[0] in s;
      NoTies(s[1..], g, cmp);
    }
  }

  /** When the second run goes first, nothing of the first run ties with its head. */
  lemma NothingTiesWith<T>(p: seq<T>, y: T, g: T, cmp: (T, T) -> int, dom: set<T>)
    requires IsOrder(dom, cmp) && Within(p, dom) && g in dom && y in dom && Sorted(p, cmp)
    requires p != [] && cmp(p[0], y) > 0 && Ties(y, g, cmp)
    ensures TiesOf(p, g, cmp) == []
  {
    assert p[0] in p;
    forall x | x in p
      ensures !Ties(x, g, cmp)
    {
      assert x == p[0] || cmp(p[0], x) <= 0;
    }
    NoTies(p, g, cmp);
  }

  lemma {:induction false} MergeStable<T>(p: seq<T>, q: seq<T>, g: T, cmp: (T, T) -> int, dom: set<T>)
    requires IsOrder(dom, cmp) && Within(p, dom) && Within(q, dom) && g in dom && Sorted(p, cmp)
    ensures TiesOf(Merge(p, q, cmp), g, cmp) == TiesOf(p, g, cmp) + TiesOf(q, g, cmp)
  {
    hide IsOrder, Ties, TiesOf;
    if p == [] || q == [] {
      TiesOfAppend(p, q, g, cmp);
      assert p + q == Merge(p, q, cmp);
    } else {
      var r := Merge(p, q, cmp);
      TiesOfFirst(r, g, cmp);
      if cmp(p[0], q[0]) <= 0 {
        MergeStable(p[1..], q, g, cmp, dom);
        assert r[1..] == Merge(p[1..], q, cmp);
        TiesOfFirst(p, g, cmp);
      } else {
        MergeStable(p, q[1..], g, cmp, dom);
        assert r[1..] == Merge(p, q[1..], cmp);
        TiesOfFirst(q, g, cmp);
        if Ties(q[0], g, cmp) {
          assert q[0] in q;
          NothingTiesWith(p, q[0], g, cmp, dom);
        }
      }
    }
  }

  lemma {:induction false} PassStable<T>(s: seq<T>, k: nat, g: T, cmp: (T, T) -> int, dom: set<T>)
    requires 0 < k && IsOrder(dom, cmp) && Within(s, dom) && g in dom && RunsSorted(s, k, cmp)
    ensures TiesOf(MergePass(s, k, cmp), g, cmp) == TiesOf(s, g, cmp)
  {
    hide IsOrder;
    if s != [] {
      var mid, end := Min(k, |s|), Min(k + k, |s|);
      var p, q, rest := s[..mid], s[mid..end], s[end..];
      FirstTwoRuns(s, k, cmp);
      MergeStable(p, q, g, cmp, dom);
      PassStable(rest, k, g, cmp, dom);
      TiesOfAppend(Merge(p, q, cmp), MergePass(rest, k, cmp), g, cmp);
      TiesOfAppend(p, q, g, cmp);
      TiesOfAppend(p + q, rest, g, cmp);
    }
  }

  lemma {:induction false} SortFromStable<T>(s: seq<T>, k: nat, g: T, cmp: (T, T) -> int, dom: set<T>)
    requires 0 < k && IsOrder(dom, cmp) && Within(s, dom) && g in dom && RunsSorted(s, k, cmp)
    ensures TiesOf(SortFrom(s, k, cmp), g, cmp) == TiesOf(s, g, cmp)
    decreases |s| - k
  {
    hide IsOrder;
    PassStable(s, k, g, cmp, dom);
    if k + k < |s| {
      PassDoublesRuns(s, k, cmp, dom);
      WithinPass(s, k, cmp, dom);
      SortFromStable(MergePass(s, k, cmp), k + k, g, cmp, dom);
    }
  }

  /** What the sort promises. The permutation needs nothing of the comparison. */
  lemma SortCorrect<T>(s: seq<T>, cmp: (T, T) -> int)
    ensures multiset(Sort(s, cmp)) == multiset(s)
    ensures var dom := set x | x in s;
            IsOrder(dom, cmp) ==>
              && Sorted(Sort(s, cmp), cmp)
              && forall g :: g in s ==> TiesOf(Sort(s, cmp), g, cmp) == TiesOf(s, g, cmp)
  {
    var dom := set x | x in s;
    SortFromPermutes(s, 1, cmp);
    if IsOrder(dom, cmp) {
      RunsOfOne(s, cmp);
      SortFromSorted(s, 1, cmp, dom);
      forall g | g in s
        ensures TiesOf(Sort(s, cmp), g, cmp) == TiesOf(s, g, cmp)
      {
        SortFromStable(s, 1, g, cmp, dom);
      }
    }
  }
}
