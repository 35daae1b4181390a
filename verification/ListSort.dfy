/** One pass of the in-place merge sort, as it appears in CDL_SORT2 and DL_SORT2
    of utlist.h and in HASH_SRT of uthash.h. The three differ only in how the end of the list is
    recognised: stop is the old head in a ring and null in a null-ended list. */
module ListSort {
  import opened Elements
  import MergeSort

  /** What the next pointer of element u leads to. */
  ghost function After<V>(s: seq<Elem<V>>, u: nat, stop: Elem?<V>): Elem?<V> {
    if u + 1 < |s| then s[u + 1] else stop
  }

  ghost function Before<V>(s: seq<Elem<V>>, u: nat): Elem?<V>
    requires u <= |s|
  {
    if u == 0 then null else s[u - 1]
  }

  /** The next pointers of s[lo..] still lead to the end of the list. */
  ghost predicate Ahead<V>(s: seq<Elem<V>>, lo: nat, hi: nat, stop: Elem?<V>)
    requires hi <= |s|
    reads s`next
  {
    forall u :: lo <= u < hi ==> s[u].next == After(s, u, stop)
  }

  /** The elements relinked so far form a list of their own; the next pointer of
      the last one is not set yet. */
  ghost predicate Linked<V>(out: seq<Elem<V>>)
    reads out`next, out`prev
  {
    && (forall i :: 0 <= i < |out| ==> out[i].prev == Before(out, i))
    && (forall i :: 0 <= i < |out| - 1 ==> out[i].next == After(out, i, null))
  }

  ghost predicate Apart<V>(out: seq<Elem<V>>, s: seq<Elem<V>>, lo: nat, hi: nat)
    requires hi <= |s|
  {
    forall u :: lo <= u < hi ==> s[u] !in out
  }

  ghost predicate ValidStop<V>(s: seq<Elem<V>>, stop: Elem?<V>) {
    stop == null || (s != [] && stop == s[0])
  }

  /** The pointers list and tail name the two ends of out. */
  ghost predicate Ends<V>(list: Elem?<V>, tail: Elem?<V>, out: seq<Elem<V>>) {
    if out == [] then list == null && tail == null else list == out[0] && tail == out[|out| - 1]
  }

  /** Follows a next pointer, turning the end marker into null. */
  method Step<V>(x: Elem<V>, stop: Elem?<V>, ghost s: seq<Elem<V>>, ghost u: nat) returns (y: Elem?<V>)
    requires u < |s| && x == s[u] && NoDup(s) && ValidStop(s, stop) && Ahead(s, u, u + 1, stop)
    ensures y == At(s, u + 1)
  {
    assert u + 1 < |s| ==> s[0] != s[u + 1];
    if x.next == stop {
      y := null;
    } else {
      y := x.next;
    }
  }

  /** Counts up to insize elements off from p: the first run of a merge. */
  method SplitRun<V>(p: Elem<V>, insize: nat, stop: Elem?<V>, ghost s: seq<Elem<V>>, ghost a: nat)
    returns (q: Elem?<V>, psize: nat)
    requires 0 < insize && a < |s| && p == s[a] && NoDup(s) && ValidStop(s, stop) && Ahead(s, a, |s|, stop)
    ensures psize == MergeSort.Min(insize, |s| - a) && q == At(s, a + psize)
  {
    q, psize := p, 0;
    var i := 0;
    while i < insize
      invariant 0 <= i == psize <= insize && a + psize < |s| && q == s[a + psize]
    {
      psize := psize + 1;
      q := Step(q, stop, s, a + i);
      if q == null {
        break;
      }
      i := i + 1;
    }
  }

  ghost function Just<V>(x: Elem?<V>): set<Elem<V>> {
    if x == null then {} else {x}
  }

  /** Appends e to the output list. */
  method Emit<V>(e: Elem<V>, list: Elem?<V>, tail: Elem?<V>, ghost out: seq<Elem<V>>) returns (list': Elem?<V>)
    requires Ends(list, tail, out) && Linked(out) && NoDup(out) && e !in out
    modifies e`prev, Just(tail)`next
    ensures Ends(list', e, out + [e]) && Linked(out + [e]) && NoDup(out + [e])
  {
    list' := list;
    ghost var last := |out| - 1;
    assert tail == if out == [] then null else out[last];
    if tail != null {
      tail.next := e;
    } else {
      list' := e;
    }
    e.prev := tail;
    assert forall i :: 0 <= i < |out| ==> (out + [e])[i] == out[i];
  }

  /** The state between two steps of a merge: out is relinked, while s[a..mid] and
      s[c..] still wait in their old links. */
  ghost predicate InMerge<V>(s: seq<Elem<V>>, out: seq<Elem<V>>, a: nat, mid: nat, c: nat, stop: Elem?<V>)
    reads s`next, out`next, out`prev
  {
    && a <= mid <= c <= |s| && NoDup(s) && ValidStop(s, stop)
    && Ahead(s, a, mid, stop) && Ahead(s, c, |s|, stop)
    && NoDup(out) && Linked(out)
    && Apart(out, s, a, mid) && Apart(out, s, c, |s|)
    && forall x :: x in out ==> x in s
  }

  /** Emitting s[a] keeps the state, with the first run one shorter. */
  method EmitFirst<V>(list: Elem?<V>, tail: Elem?<V>, ghost s: seq<Elem<V>>, p: Elem<V>, stop: Elem?<V>,
                      ghost out: seq<Elem<V>>, ghost a: nat, ghost mid: nat, ghost c: nat)
    returns (p': Elem?<V>, list': Elem?<V>)
    requires InMerge(s, out, a, mid, c, stop) && Ends(list, tail, out) && a < mid && p == s[a]
    modifies Objs(s)`prev, Objs(s)`next
    ensures InMerge(s, out + [p], a + 1, mid, c, stop) && Ends(list', p, out + [p])
    ensures p' == At(s, a + 1)
  {
    assert Ahead(s, a, a + 1, stop);
    p' := Step(p, stop, s, a);
    assert p in s && (tail != null ==> tail in s);
    list' := Emit(p, list, tail, out);
  }

  /** Emitting s[c] keeps the state, with the second run one shorter. */
  method EmitSecond<V>(list: Elem?<V>, tail: Elem?<V>, ghost s: seq<Elem<V>>, q: Elem<V>, stop: Elem?<V>,
                       ghost out: seq<Elem<V>>, ghost a: nat, ghost mid: nat, ghost c: nat)
    returns (q': Elem?<V>, list': Elem?<V>)
    requires InMerge(s, out, a, mid, c, stop) && Ends(list, tail, out) && c < |s| && q == s[c]
    modifies Objs(s)`prev, Objs(s)`next
    ensures InMerge(s, out + [q], a, mid, c + 1, stop) && Ends(list', q, out + [q])
    ensures q' == At(s, c + 1)
  {
    assert Ahead(s, c, c + 1, stop);
    q' := Step(q, stop, s, c);
    assert q in s && (tail != null ==> tail in s);
    list' := Emit(q, list, tail, out);
  }

  /** Merges the runs s[a..a+psize] and the next at most insize elements, relinking
      them behind tail. */
  method MergeRuns<V>(p0: Elem<V>, q0: Elem?<V>, psize0: nat, insize: nat, stop: Elem?<V>,
                      cmp: (User<V>, User<V>) -> int,
                      ghost ord: (Elem<V>, Elem<V>) -> int, list0: Elem?<V>, tail0: Elem?<V>, ghost s: seq<Elem<V>>,
                      ghost a0: nat, ghost out0: seq<Elem<V>>)
    returns (list: Elem?<V>, tail: Elem?<V>, q: Elem?<V>, ghost out: seq<Elem<V>>)
    requires 0 < insize && a0 < |s| && psize0 == MergeSort.Min(insize, |s| - a0)
    requires InMerge(s, out0, a0, a0 + psize0, a0 + psize0, stop) && Ends(list0, tail0, out0)
    requires p0 == s[a0] && q0 == At(s, a0 + psize0) && Reflects(ord, cmp, s)
    modifies Objs(s)`prev, Objs(s)`next
    ensures var mid, end := a0 + psize0, MergeSort.Min(a0 + insize + insize, |s|);
            && out == out0 + MergeSort.Merge(s[a0..mid], s[mid..end], ord)
            && InMerge(s, out, end, end, end, stop) && q == At(s, end)
    ensures Ends(list, tail, out)
  {
    hide Reflects, InMerge, Ends, At, Objs, MergeSort.Merge;
    ObjsAllocated(s);
    var p: Elem?<V>, psize, qsize := p0, psize0, insize;
    list, tail, q, out := list0, tail0, q0, out0;
    ghost var mid, end := a0 + psize0, MergeSort.Min(a0 + insize + insize, |s|);
    ghost var a: nat, c: nat := a0, mid;
    ghost var goal := out0 + MergeSort.Merge(s[a0..mid], s[mid..end], ord);
    AtIsNull(s, c);
    while psize != 0 || (qsize != 0 && q != null)
      invariant a <= mid <= c <= end && psize == mid - a && qsize == insize - (c - mid)
      invariant InMerge(s, out, a, mid, c, stop) && Ends(list, tail, out)
      invariant (psize != 0 ==> p == s[a]) && q == At(s, c) && (q == null <==> c == |s|)
      invariant goal == out + MergeSort.Merge(s[a..mid], s[c..end], ord)
      decreases mid - a + end - c
    {
      AtIsNull(s, c);
      if psize != 0 && q != null {
        Compared(ord, cmp, s, p, q);
      }
      if psize == 0 {
        TakeSecond(s, a, mid, c, end, ord, out);
        var e: Elem<V> := q;
        q, list := EmitSecond(list, tail, s, e, stop, out, a, mid, c);
        tail, out, c, qsize := e, out + [e], c + 1, qsize - 1;
        AtIsNull(s, c);
      } else if qsize == 0 || q == null || cmp(p.Mine(), q.Mine()) <= 0 {
        TakeFirst(s, a, mid, c, end, ord, out);
        var e: Elem<V> := p;
        p, list := EmitFirst(list, tail, s, e, stop, out, a, mid, c);
        tail, out, a, psize := e, out + [e], a + 1, psize - 1;
        AtIsNull(s, a);
      } else {
        TakeSecond(s, a, mid, c, end, ord, out);
        var e: Elem<V> := q;
        q, list := EmitSecond(list, tail, s, e, stop, out, a, mid, c);
        tail, out, c, qsize := e, out + [e], c + 1, qsize - 1;
        AtIsNull(s, c);
      }
    }
    RunsMerged(s, a, mid, c, stop, out, ord);
  }

  lemma AtIsNull<V>(s: seq<Elem<V>>, i: nat)
    requires i <= |s|
    ensures At(s, i) == null <==> i == |s|
    ensures i < |s| ==> At(s, i) == s[i]
  {
  }

  lemma TakeFirst<V>(s: seq<Elem<V>>, a: nat, mid: nat, c: nat, end: nat, cmp: (Elem<V>, Elem<V>) -> int,
                     out: seq<Elem<V>>)
    requires a < mid <= c <= end <= |s| && (c == end || cmp(s[a], s[c]) <= 0)
    ensures out + MergeSort.Merge(s[a..mid], s[c..end], cmp)
            == out + [s[a]] + MergeSort.Merge(s[a + 1..mid], s[c..end], cmp)
  {
    assert s[a..mid][1..] == s[a + 1..mid];
    assert c == end ==> s[a..mid] == [s[a]] + s[a + 1..mid] && s[c..end] == [];
    var rest := MergeSort.Merge(s[a + 1..mid], s[c..end], cmp);
    assert MergeSort.Merge(s[a..mid], s[c..end], cmp) == [s[a]] + rest;
  }

  lemma TakeSecond<V>(s: seq<Elem<V>>, a: nat, mid: nat, c: nat, end: nat, cmp: (Elem<V>, Elem<V>) -> int,
                      out: seq<Elem<V>>)
    requires a <= mid <= c < end <= |s| && (a == mid || cmp(s[a], s[c]) > 0)
    ensures out + MergeSort.Merge(s[a..mid], s[c..end], cmp)
            == out + [s[c]] + MergeSort.Merge(s[a..mid], s[c + 1..end], cmp)
  {
    assert s[c..end][1..] == s[c + 1..end];
    assert a == mid ==> s[c..end] == [s[c]] + s[c + 1..end] && s[a..mid] == [];
    var rest := MergeSort.Merge(s[a..mid], s[c + 1..end], cmp);
    assert MergeSort.Merge(s[a..mid], s[c..end], cmp) == [s[c]] + rest;
  }

  /** With both runs used up the state can be read as the start of the next merge. */
  lemma RunsMerged<V>(s: seq<Elem<V>>, a: nat, mid: nat, c: nat, stop: Elem?<V>, out: seq<Elem<V>>,
                      cmp: (Elem<V>, Elem<V>) -> int)
    requires a == mid <= c <= |s| && InMerge(s, out, a, mid, c, stop)
    ensures InMerge(s, out, c, c, c, stop)
    ensures out + MergeSort.Merge(s[a..mid], s[c..c], cmp) == out
  {
  }

  /** One whole pass over the list: all runs of length insize merged in pairs. */
  method Pass<V>(list0: Elem<V>, insize: nat, stop: Elem?<V>, cmp: (User<V>, User<V>) -> int,
                 ghost ord: (Elem<V>, Elem<V>) -> int, ghost s: seq<Elem<V>>)
    returns (list: Elem?<V>, tail: Elem?<V>, nmerges: nat, ghost out: seq<Elem<V>>)
    requires 0 < insize && s != [] && list0 == s[0] && NoDup(s) && ValidStop(s, stop) && Ahead(s, 0, |s|, stop)
    requires Reflects(ord, cmp, s)
    modifies Objs(s)`prev, Objs(s)`next
    ensures out == MergeSort.MergePass(s, insize, ord)
    ensures Linked(out) && NoDup(out) && Ends(list, tail, out) && forall x :: x in out ==> x in s
    ensures nmerges <= 1 <==> |s| <= insize + insize
  {
    hide Reflects, InMerge, Ends, At, MergeSort.Merge, MergeSort.MergePass, Ahead, NoDup, Linked, PassLeft;
    var p: Elem?<V> := list0;
    list, tail, nmerges, out := null, null, 0, [];
    ghost var a: nat := 0;
    NothingMerged(s, stop, insize, ord);
    AtIsNull(s, 0);
    while p != null
      invariant a <= |s| && p == At(s, a) && (p == null <==> a == |s|)
      invariant InMerge(s, out, a, a, a, stop) && Ends(list, tail, out)
      invariant PassLeft(s, a, out, insize, ord)
      invariant nmerges == 0 ==> a == 0
      invariant nmerges == 1 ==> a == MergeSort.Min(insize + insize, |s|)
      invariant nmerges > 1 ==> a > insize + insize
      decreases |s| - a
    {
      nmerges := nmerges + 1;
      AtIsNull(s, a);
      MergeState(s, a, stop, out);
      var q, psize := SplitRun(p, insize, stop, s, a);
      RunsFound(s, a, a + psize, stop, out);
      ghost var end := MergeSort.Min(a + insize + insize, |s|);
      ghost var out0 := out;
      list, tail, q, out := MergeRuns(p, q, psize, insize, stop, cmp, ord, list, tail, s, a, out);
      PassStep(s, a, a + psize, end, insize, ord, out0);
      a := end;
      AtIsNull(s, a);
      p := q;
    }
    PassFinished(s, out, insize, ord);
    MergeState(s, a, stop, out);
  }

  lemma NothingMerged<V>(s: seq<Elem<V>>, stop: Elem?<V>, insize: nat, cmp: (Elem<V>, Elem<V>) -> int)
    requires 0 < insize && NoDup(s) && ValidStop(s, stop) && Ahead(s, 0, |s|, stop)
    ensures InMerge(s, [], 0, 0, 0, stop) && Ends<V>(null, null, [])
    ensures PassLeft(s, 0, [], insize, cmp)
  {
    assert s[0..] == s;
  }

  /** What the state between two merges says about the two lists. */
  lemma MergeState<V>(s: seq<Elem<V>>, a: nat, stop: Elem?<V>, out: seq<Elem<V>>)
    requires a <= |s| && InMerge(s, out, a, a, a, stop)
    ensures NoDup(s) && ValidStop(s, stop) && Ahead(s, a, |s|, stop)
    ensures NoDup(out) && Linked(out) && forall x :: x in out ==> x in s
  {
  }

  lemma RunsFound<V>(s: seq<Elem<V>>, a: nat, mid: nat, stop: Elem?<V>, out: seq<Elem<V>>)
    requires a <= mid <= |s| && InMerge(s, out, a, a, a, stop)
    ensures InMerge(s, out, a, mid, mid, stop)
  {
  }

  /** out followed by a pass over the rest of s is the pass over all of s. */
  ghost predicate PassLeft<V>(s: seq<Elem<V>>, a: nat, out: seq<Elem<V>>, insize: nat, cmp: (Elem<V>, Elem<V>) -> int)
    requires a <= |s| && 0 < insize
  {
    MergeSort.MergePass(s, insize, cmp) == out + MergeSort.MergePass(s[a..], insize, cmp)
  }

  lemma PassFinished<V>(s: seq<Elem<V>>, out: seq<Elem<V>>, insize: nat, cmp: (Elem<V>, Elem<V>) -> int)
    requires 0 < insize && PassLeft(s, |s|, out, insize, cmp)
    ensures out == MergeSort.MergePass(s, insize, cmp)
  {
    assert s[|s|..] == [];
  }

  lemma PassStep<V>(s: seq<Elem<V>>, a: nat, mid: nat, end: nat, insize: nat, cmp: (Elem<V>, Elem<V>) -> int,
                    out: seq<Elem<V>>)
    requires 0 < insize && a < |s| && mid == a + MergeSort.Min(insize, |s| - a)
    requires end == MergeSort.Min(a + insize + insize, |s|) && PassLeft(s, a, out, insize, cmp)
    ensures PassLeft(s, end, out + MergeSort.Merge(s[a..mid], s[mid..end], cmp), insize, cmp)
  {
    hide MergeSort.Merge, MergeSort.MergePass;
    var t := s[a..];
    var run, rest := MergeSort.Merge(s[a..mid], s[mid..end], cmp), MergeSort.MergePass(s[end..], insize, cmp);
    assert MergeSort.MergePass(t, insize, cmp) == run + rest by {
      assert t[..mid - a] == s[a..mid];
      assert t[mid - a..end - a] == s[mid..end];
      assert t[end - a..] == s[end..];
      MergeSort.FirstMerge(t, insize, cmp);
    }
    assert out + (run + rest) == out + run + rest;
  }

  // ---------- What a sort leaves behind ----------

  ghost function Users<V>(s: seq<Elem<V>>): set<User<V>>
    reads Objs(s)`key, Objs(s)`val
  {
    set x | x in Objs(s) :: x.Mine()
  }

  ghost predicate InOrder<V>(s: seq<Elem<V>>, cmp: (User<V>, User<V>) -> int)
    reads Objs(s)`key, Objs(s)`val
  {
    forall i, j :: 0 <= i < j < |s| ==> cmp(s[i].Mine(), s[j].Mine()) <= 0
  }

  /** r holds the elements of s; and if cmp is a total preorder on their user parts, r is
      sorted and elements that compare equal stand as they did in s. */
  ghost predicate StablySorted<V>(s: seq<Elem<V>>, r: seq<Elem<V>>, cmp: (User<V>, User<V>) -> int)
    reads Objs(s)`key, Objs(s)`val, Objs(r)`key, Objs(r)`val
  {
    && multiset(r) == multiset(s)
    && (MergeSort.IsOrder(Users(s), cmp) ==>
          && InOrder(r, cmp)
          && (forall g :: g in s ==> MergeSort.TiesOf(r, g, ByUser(cmp, s)) == MergeSort.TiesOf(s, g, ByUser(cmp, s))))
  }

  lemma OrderLifts<V>(s: seq<Elem<V>>, cmp: (User<V>, User<V>) -> int, dom: set<Elem<V>>)
    requires MergeSort.IsOrder(Users(s), cmp) && dom == set x | x in s
    ensures MergeSort.IsOrder(dom, ByUser(cmp, s))
  {
    var ord := ByUser(cmp, s);
    ByUserReflects(cmp, s);
    hide ByUser;
    forall a | a in dom
      ensures a in s && a.Mine() in Users(s)
    {
      assert a in Objs(s);
    }
  }

  lemma SortStablySorts<V>(s: seq<Elem<V>>, cmp: (User<V>, User<V>) -> int)
    ensures StablySorted(s, MergeSort.Sort(s, ByUser(cmp, s)), cmp)
  {
    var ord, dom := ByUser(cmp, s), set x | x in s;
    var r := MergeSort.Sort(s, ord);
    MergeSort.SortCorrect(s, ord);
    ByUserReflects(cmp, s);
    if MergeSort.IsOrder(Users(s), cmp) {
      OrderLifts(s, cmp, dom);
      SortedByUser(s, r, ord, cmp);
    }
  }

  lemma SortedByUser<V>(s: seq<Elem<V>>, r: seq<Elem<V>>, ord: (Elem<V>, Elem<V>) -> int,
                        cmp: (User<V>, User<V>) -> int)
    requires Reflects(ord, cmp, s) && multiset(r) == multiset(s) && MergeSort.Sorted(r, ord)
    ensures InOrder(r, cmp)
  {
    forall i, j | 0 <= i < j < |r|
      ensures cmp(r[i].Mine(), r[j].Mine()) <= 0
    {
      assert r[i] in multiset(r) && r[j] in multiset(r);
      Compared(ord, cmp, s, r[i], r[j]);
    }
  }
}
