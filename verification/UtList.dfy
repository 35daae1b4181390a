/** The circular lists of utlist.h, and its sorts for circular and null-ended lists. */
module UtList {
  import opened Elements
  import opened ListSort
  import MergeSort

  ghost function RingNext<V>(s: seq<Elem<V>>, i: nat): Elem<V>
    requires i < |s|
  {
    if i + 1 < |s| then s[i + 1] else s[0]
  }

  ghost function RingPrev<V>(s: seq<Elem<V>>, i: nat): Elem<V>
    requires i < |s|
  {
    if i == 0 then s[|s| - 1] else s[i - 1]
  }

  /** head is null or names the first element of the ring s. */
  ghost predicate IsRing<V>(head: Elem?<V>, s: seq<Elem<V>>)
    reads s`next, s`prev
  {
    && head == At(s, 0)
    && NoDup(s)
    && (forall i {:trigger s[i].next} :: 0 <= i < |s| ==> s[i].next == RingNext(s, i))
    && (forall i {:trigger s[i].prev} :: 0 <= i < |s| ==> s[i].prev == RingPrev(s, i))
  }

  /** A null-ended list; the head's prev names the last element. */
  ghost predicate IsList<V>(head: Elem?<V>, s: seq<Elem<V>>)
    reads s`next, s`prev
  {
    && head == At(s, 0)
    && NoDup(s)
    && (forall i {:trigger s[i].next} :: 0 <= i < |s| ==> s[i].next == After(s, i, null))
    && (forall i {:trigger s[i].prev} :: 0 <= i < |s| ==> s[i].prev == RingPrev(s, i))
  }

  /** CDL_PREPEND2. */
  method Prepend<V>(head: Elem?<V>, add: Elem<V>, ghost s: seq<Elem<V>>) returns (head': Elem<V>)
    requires IsRing(head, s) && add !in s
    modifies Objs(s)`next, Objs(s)`prev, add`next, add`prev
    ensures IsRing(head', [add] + s)
  {
    if head != null {
      add.prev := head.prev;
      add.next := head;
      head.prev := add;
      add.prev.next := add;
    } else {
      add.prev := add;
      add.next := add;
    }
    head' := add;
  }

  /** CDL_DELETE2. */
  method Delete<V>(head: Elem<V>, del: Elem<V>, ghost s: seq<Elem<V>>, ghost k: nat) returns (head': Elem?<V>)
    requires IsRing(head, s) && k < |s| && del == s[k]
    modifies Objs(s)`next, Objs(s)`prev
    ensures IsRing(head', s[..k] + s[k + 1..])
    ensures del.next == old(del.next) && del.prev == old(del.prev)
  {
    head' := head;
    if head == del && head.next == head {
      head' := null;
    } else {
      ghost var kp, kn := if k == 0 then |s| - 1 else k - 1, if k + 1 < |s| then k + 1 else 0;
      assert del.prev == s[kp] && del.next == s[kn];
      assert |s| > 1 && kp != k && kn != k;
      del.next.prev := del.prev;
      del.prev.next := del.next;
      assert forall j {:trigger s[j].next} :: 0 <= j < |s| ==> s[j].next == if j == kp then s[kn] else RingNext(s, j);
      assert forall j {:trigger s[j].prev} :: 0 <= j < |s| ==> s[j].prev == if j == kn then s[kp] else RingPrev(s, j);
      Unlinked(s, k, kp, kn);
      if del == head {
        head' := del.next;
      }
    }
  }

  lemma Unlinked<V>(s: seq<Elem<V>>, k: nat, kp: nat, kn: nat)
    requires NoDup(s) && k < |s| && |s| > 1
    requires kp == (if k == 0 then |s| - 1 else k - 1) && kn == (if k + 1 < |s| then k + 1 else 0)
    requires forall j {:trigger s[j].next} :: 0 <= j < |s| ==> s[j].next == if j == kp then s[kn] else RingNext(s, j)
    requires forall j {:trigger s[j].prev} :: 0 <= j < |s| ==> s[j].prev == if j == kn then s[kp] else RingPrev(s, j)
    ensures var r := s[..k] + s[k + 1..]; IsRing(r[0], r)
  {
    var r := s[..k] + s[k + 1..];
    forall i | 0 <= i < |r|
      ensures r[i].next == RingNext(r, i) && r[i].prev == RingPrev(r, i)
    {
      var j := if i < k then i else i + 1;
      assert r[i] == s[j];
      SeamNext(s, k, i);
      SeamPrev(s, k, i);
    }
    NoDupWithout(s, k);
  }

  /** The neighbours in a ring that has lost element k. */
  lemma SeamNext<V>(s: seq<Elem<V>>, k: nat, i: nat)
    requires k < |s| && i + 1 < |s|
    ensures var r, j := s[..k] + s[k + 1..], if i < k then i else i + 1;
            RingNext(r, i) == if j == (if k == 0 then |s| - 1 else k - 1) then RingNext(s, k) else RingNext(s, j)
  {
  }

  lemma SeamPrev<V>(s: seq<Elem<V>>, k: nat, i: nat)
    requires k < |s| && i + 1 < |s|
    ensures var r, j := s[..k] + s[k + 1..], if i < k then i else i + 1;
            RingPrev(r, i) == if j == (if k + 1 < |s| then k + 1 else 0) then RingPrev(s, k) else RingPrev(s, j)
  {
  }

  lemma NoDupWithout<T>(s: seq<T>, k: nat)
    requires NoDup(s) && k < |s|
    ensures NoDup(s[..k] + s[k + 1..])
  {
  }

  // ---------- Sorting ----------

  /** A ring seen by a pass: its own head marks the end. */
  lemma RingAhead<V>(head: Elem?<V>, s: seq<Elem<V>>)
    requires IsRing(head, s) && s != []
    ensures NoDup(s) && ValidStop(s, head) && Ahead(s, 0, |s|, head) && head == s[0]
  {
  }

  /** Tying the two ends of a pass's output together makes it a ring. */
  method CloseRing<V>(list: Elem<V>, tail: Elem<V>, ghost out: seq<Elem<V>>)
    requires out != [] && Linked(out) && NoDup(out) && Ends(list, tail, out)
    modifies list`prev, tail`next
    ensures IsRing(list, out)
  {
    list.prev := tail;
    tail.next := list;
  }

  /** CDL_SORT2. */
  method CdlSort<V>(head: Elem?<V>, cmp: (User<V>, User<V>) -> int, ghost s: seq<Elem<V>>) returns (list: Elem?<V>)
    requires IsRing(head, s)
    modifies Objs(s)`next, Objs(s)`prev
    ensures IsRing(list, MergeSort.Sort(s, ByUser(cmp, s)))
    ensures StablySorted(s, MergeSort.Sort(s, ByUser(cmp, s)), cmp)
  {
    hide ByUser, Reflects, StablySorted, IsRing, NoDup, Ahead, Linked, Ends, MergeSort.MergePass;
    ghost var ord := ByUser(cmp, s);
    ByUserReflects(cmp, s);
    ObjsAllocated(s);
    list := head;
    HeadOfRing(head, s);
    if list != null {
      var insize, looping := 1, true;
      ghost var cur := s;
      while looping
        invariant 0 < insize && cur != [] && IsRing(list, cur) && list != null
        invariant forall x :: x in cur ==> x in s
        invariant MergeSort.Sort(s, ord) == if looping then MergeSort.SortFrom(cur, insize, ord) else cur
        decreases looping, |cur| - insize
      {
        var oldhead := list;
        RingAhead(oldhead, cur);
        ReflectsWithin(ord, cmp, s, cur);
        var tail, nmerges;
        ghost var out;
        list, tail, nmerges, out := Pass(list, insize, oldhead, cmp, ord, cur);
        EndsExist(list, tail, out);
        CloseRing(list, tail, out);
        if nmerges <= 1 {
          looping := false;
        }
        insize, cur := insize * 2, out;
      }
    }
    SortStablySorts(s, cmp);
  }

  lemma HeadOfRing<V>(head: Elem?<V>, s: seq<Elem<V>>)
    requires IsRing(head, s)
    ensures head == null <==> s == []
  {
  }

  lemma EndsExist<V>(list: Elem?<V>, tail: Elem?<V>, out: seq<Elem<V>>)
    requires Ends(list, tail, out) && out != []
    ensures list != null && tail != null && list in out && tail in out
  {
  }

  lemma ListAhead<V>(head: Elem?<V>, s: seq<Elem<V>>)
    requires IsList(head, s) && s != []
    ensures NoDup(s) && Ahead(s, 0, |s|, null) && head == s[0]
  {
  }

  /** A null-ended list keeps its tail in the head's prev. */
  method CloseList<V>(list: Elem<V>, tail: Elem<V>, ghost out: seq<Elem<V>>)
    requires out != [] && Linked(out) && NoDup(out) && Ends(list, tail, out)
    modifies list`prev, tail`next
    ensures IsList(list, out)
  {
    list.prev := tail;
    tail.next := null;
  }

  /** DL_SORT2. */
  method DlSort<V>(head: Elem?<V>, cmp: (User<V>, User<V>) -> int, ghost s: seq<Elem<V>>) returns (list: Elem?<V>)
    requires IsList(head, s)
    modifies Objs(s)`next, Objs(s)`prev
    ensures IsList(list, MergeSort.Sort(s, ByUser(cmp, s)))
    ensures StablySorted(s, MergeSort.Sort(s, ByUser(cmp, s)), cmp)
  {
    hide ByUser, Reflects, StablySorted, IsList, NoDup, Ahead, Linked, Ends, MergeSort.MergePass;
    ghost var ord := ByUser(cmp, s);
    ByUserReflects(cmp, s);
    ObjsAllocated(s);
    list := head;
    HeadOfList(head, s);
    if list != null {
      var insize, looping := 1, true;
      ghost var cur := s;
      while looping
        invariant 0 < insize && cur != [] && IsList(list, cur) && list != null
        invariant forall x :: x in cur ==> x in s
        invariant MergeSort.Sort(s, ord) == if looping then MergeSort.SortFrom(cur, insize, ord) else cur
        decreases looping, |cur| - insize
      {
        ListAhead(list, cur);
        ReflectsWithin(ord, cmp, s, cur);
        var tail, nmerges;
        ghost var out;
        list, tail, nmerges, out := Pass(list, insize, null, cmp, ord, cur);
        EndsExist(list, tail, out);
        CloseList(list, tail, out);
        if nmerges <= 1 {
          looping := false;
        }
        insize, cur := insize * 2, out;
      }
    }
    SortStablySorts(s, cmp);
  }

  lemma HeadOfList<V>(head: Elem?<V>, s: seq<Elem<V>>)
    requires IsList(head, s)
    ensures head == null <==> s == []
  {
  }

  // ---------- Safe traversal ----------

  /** The elements of s that are not in drop, in order. */
  ghost function Kept<V>(s: seq<Elem<V>>, drop: set<Elem<V>>): seq<Elem<V>> {
    if s == [] then []
    else Kept(s[..|s| - 1], drop) + if s[|s| - 1] in drop then [] else [s[|s| - 1]]
  }

  /** What is kept is every element that is not dropped, in the old order. */
  lemma {:induction false} KeptExactly<V>(s: seq<Elem<V>>, drop: set<Elem<V>>)
    ensures forall x :: x in Kept(s, drop) ==> x in s && x !in drop
    ensures forall x :: x in s && x !in drop ==> x in Kept(s, drop)
    ensures forall i, j :: 0 <= i < j < |s| && s[i] !in drop && s[j] !in drop ==> Follows(Kept(s, drop), s[i], s[j])
    ensures |Kept(s, drop)| <= |s| && (NoDup(s) ==> NoDup(Kept(s, drop)))
  {
    if s != [] {
      var before, x := s[..|s| - 1], s[|s| - 1];
      assert s == before + [x];
      var kept, kept' := Kept(before, drop), Kept(s, drop);
      KeptExactly(before, drop);
      forall i, j | 0 <= i < j < |s| && s[i] !in drop && s[j] !in drop
        ensures Follows(kept', s[i], s[j])
      {
        assert s[i] == before[i];
        if j < |before| {
          FollowsOn(kept, x, s[i], s[j], kept');
        } else {
          LastFollows(kept, s[i], x);
        }
      }
    }
  }

  /** x stands somewhere before y. */
  ghost predicate Follows<T>(s: seq<T>, x: T, y: T) {
    exists a, b :: 0 <= a < b < |s| && s[a] == x && s[b] == y
  }

  lemma FollowsOn<T>(s: seq<T>, z: T, x: T, y: T, s': seq<T>)
    requires Follows(s, x, y) && (s' == s || s' == s + [z])
    ensures Follows(s', x, y)
  {
    var a, b :| 0 <= a < b < |s| && s[a] == x && s[b] == y;
    assert s'[a] == x && s'[b] == y;
  }

  lemma LastFollows<T>(s: seq<T>, x: T, y: T)
    requires x in s
    ensures Follows(s + [y], x, y)
  {
    var a :| 0 <= a < |s| && s[a] == x;
    assert (s + [y])[a] == x && (s + [y])[|s|] == y;
  }

  /** Before turn i: el is the i-th original element, and the ring holds what was
      kept of the elements before it, and all that follow. */
  ghost predicate AtTurn<V>(s: seq<Elem<V>>, drop: set<Elem<V>>, i: nat, el: Elem?<V>, head: Elem?<V>)
    reads Objs(s)`next, Objs(s)`prev
  {
    && i <= |s| && NoDup(s) && el == At(s, i)
    && Objs(Kept(s[..i], drop) + s[i..]) <= Objs(s)
    && IsRing(head, Kept(s[..i], drop) + s[i..])
  }

  /** CDL_FOREACH_SAFE2 around a body that visits the current element and may
      delete it: every original element is visited once, in order, and the ring
      that is left holds the others. */
  method ForeachSafe<V>(head: Elem?<V>, drop: set<Elem<V>>, ghost s: seq<Elem<V>>)
    returns (head': Elem?<V>, visited: seq<Elem<V>>)
    requires IsRing(head, s)
    modifies Objs(s)`next, Objs(s)`prev
    ensures visited == s
    ensures IsRing(head', Kept(s, drop))
  {
    hide *;
    head', visited := head, [];
    FirstTurn(head, s, drop);
    var el := head;
    var tmp1: Elem?<V> := null;
    if head != null {
      tmp1 := head.prev;
    }
    ghost var i: nat := 0;
    while el != null
      invariant AtTurn(s, drop, i, el, head') && i <= |s| && (el == null <==> i == |s|)
      invariant s != [] ==> tmp1 == s[|s| - 1]
      invariant visited == s[..i]
      decreases |s| - i
    {
      head', el, visited := Turn(head', el, tmp1, visited, drop, s, i);
      i := i + 1;
    }
    LastTurn(head', s, drop);
  }

  /** One turn: tmp2 is read before the body may delete the element. */
  method Turn<V>(head: Elem?<V>, el: Elem<V>, tmp1: Elem?<V>, visited: seq<Elem<V>>, drop: set<Elem<V>>,
                 ghost s: seq<Elem<V>>, ghost i: nat)
    returns (head': Elem?<V>, el': Elem?<V>, visited': seq<Elem<V>>)
    requires AtTurn(s, drop, i, el, head) && i < |s| && visited == s[..i] && s != [] && tmp1 == s[|s| - 1]
    modifies Objs(s)`next, Objs(s)`prev
    ensures visited' == s[..i + 1]
    ensures AtTurn(s, drop, i + 1, el', head') && (el' == null <==> i + 1 == |s|)
  {
    hide *;
    ghost var kept := Kept(s[..i], drop);
    ghost var ring := kept + s[i..];
    HereInRing(head, s, i, drop, el);
    KeptStep(s, i, drop);
    var tmp2 := el.next;
    visited' := visited + [el];
    head' := head;
    if el in drop {
      head' := Delete(head, el, ring, |kept|);
    }
    el' := if el == tmp1 then null else tmp2;
    NextTurn(head', s, i, drop, el');
  }

  lemma NextTurn<V>(head: Elem?<V>, s: seq<Elem<V>>, i: nat, drop: set<Elem<V>>, el: Elem?<V>)
    requires i < |s| && NoDup(s) && el == if i + 1 < |s| then s[i + 1] else null
    requires Objs(Kept(s[..i + 1], drop) + s[i + 1..]) <= Objs(s)
    requires IsRing(head, Kept(s[..i + 1], drop) + s[i + 1..])
    ensures AtTurn(s, drop, i + 1, el, head)
  {
  }

  lemma FirstTurn<V>(head: Elem?<V>, s: seq<Elem<V>>, drop: set<Elem<V>>)
    requires IsRing(head, s)
    ensures AtTurn(s, drop, 0, head, head) && s[..0] == [] && (head == null <==> s == [])
    ensures s != [] ==> head != null && head.prev == s[|s| - 1]
  {
    assert Kept(s[..0], drop) + s[0..] == s;
  }

  lemma LastTurn<V>(head: Elem?<V>, s: seq<Elem<V>>, drop: set<Elem<V>>)
    requires AtTurn(s, drop, |s|, null, head)
    ensures s[..|s|] == s && IsRing(head, Kept(s, drop))
  {
    assert s[..|s|] == s && Kept(s[..|s|], drop) + s[|s|..] == Kept(s, drop);
  }

  lemma KeptStep<V>(s: seq<Elem<V>>, i: nat, drop: set<Elem<V>>)
    requires i < |s|
    ensures s[..i + 1] == s[..i] + [s[i]]
    ensures var kept := Kept(s[..i], drop);
            var ring := kept + s[i..];
            Kept(s[..i + 1], drop) + s[i + 1..] == if s[i] in drop then ring[..|kept|] + ring[|kept| + 1..] else ring
    ensures Objs(Kept(s[..i + 1], drop) + s[i + 1..]) <= Objs(s)
  {
    assert s[..i + 1][..i] == s[..i];
    KeptAmong(s, i + 1, drop);
  }

  lemma KeptAmong<V>(s: seq<Elem<V>>, i: nat, drop: set<Elem<V>>)
    requires i <= |s|
    ensures Objs(Kept(s[..i], drop) + s[i..]) <= Objs(s)
  {
    hide *;
    KeptExactly(s[..i], drop);
    AmongParts(s, i, Kept(s[..i], drop));
  }

  lemma AmongParts<V>(s: seq<Elem<V>>, i: nat, t: seq<Elem<V>>)
    requires i <= |s| && forall x :: x in t ==> x in s[..i]
    ensures Objs(t + s[i..]) <= Objs(s)
  {
  }

  /** The current element of the traversal, seen in the ring as it stands. */
  lemma HereInRing<V>(head: Elem?<V>, s: seq<Elem<V>>, i: nat, drop: set<Elem<V>>, el: Elem<V>)
    requires i < |s| && AtTurn(s, drop, i, el, head)
    ensures el == s[i] && NoDup(s)
    ensures var kept := Kept(s[..i], drop);
            && head != null && IsRing(head, kept + s[i..]) && Objs(kept + s[i..]) <= Objs(s)
            && (kept + s[i..])[|kept|] == s[i]
            && (i + 1 < |s| ==> s[i].next == s[i + 1] && s[i] != s[|s| - 1])
  {
    var kept := Kept(s[..i], drop);
    var ring := kept + s[i..];
    KeptExactly(s[..i], drop);
    assert ring[|kept|] == s[i];
    if i + 1 < |s| {
      assert ring[|kept| + 1] == s[i + 1];
      assert ring[|kept|].next == RingNext(ring, |kept|);
    }
  }
}
