/** The insertion-order list of uthash.h: append, insertion before an element, and
    removal, on the links alone. */
module HashList {
  import opened Elements
  import opened ListSort
  import opened UtHash
  import MergeSort

  /** The list without its k-th element, given the links after the removal. */
  lemma AppUnlinked<V>(head: Elem?<V>, tail: Elem?<V>, s: seq<Elem<V>>, k: nat)
    requires NoDup(s) && k < |s| && |s| > 1
    requires head == if k == 0 then s[1] else s[0]
    requires tail == if k == |s| - 1 then s[|s| - 2] else s[|s| - 1]
    requires forall i {:trigger s[i].next} :: 0 <= i < |s| ==>
               s[i].next == if i + 1 == k then After(s, k, null) else After(s, i, null)
    requires forall i {:trigger s[i].prev} :: 0 <= i < |s| ==>
               s[i].prev == if i == k + 1 then Before(s, k) else Before(s, i)
    ensures IsApp(head, tail, RemoveAt(s, k))
  {
    var r := RemoveAt(s, k);
    forall i | 0 <= i < |r|
      ensures r[i].next == After(r, i, null) && r[i].prev == Before(r, i)
    {
      var j := if i < k then i else i + 1;
      assert r[i] == s[j];
    }
  }

  lemma AppLinks<V>(head: Elem?<V>, tail: Elem?<V>, s: seq<Elem<V>>)
    requires IsApp(head, tail, s)
    ensures forall i {:trigger s[i].next} :: 0 <= i < |s| ==> s[i].next == After(s, i, null)
    ensures forall i {:trigger s[i].prev} :: 0 <= i < |s| ==> s[i].prev == Before(s, i)
    ensures NoDup(s) && Ends(head, tail, s)
  {
  }

  lemma LinksApp<V>(head: Elem?<V>, tail: Elem?<V>, s: seq<Elem<V>>)
    requires forall i {:trigger s[i].next} :: 0 <= i < |s| ==> s[i].next == After(s, i, null)
    requires forall i {:trigger s[i].prev} :: 0 <= i < |s| ==> s[i].prev == Before(s, i)
    requires NoDup(s) && Ends(head, tail, s)
    ensures IsApp(head, tail, s)
  {
  }

  /** HASH_APPEND_LIST. */
  method Append<V>(head: Elem<V>, tail: Elem<V>, add: Elem<V>, ghost s: seq<Elem<V>>)
    requires IsApp(head, tail, s) && add !in s
    modifies tail`next, add`next, add`prev
    ensures IsApp(head, add, s + [add])
  {
    hide IsApp, NoDup;
    AppLinks(head, tail, s);
    Neighbours(s, |s| - 1);
    add.next := null;
    add.prev := tail;
    tail.next := add;
    AppAppended(head, add, s);
  }

  lemma AppAppended<V>(head: Elem<V>, add: Elem<V>, s: seq<Elem<V>>)
    requires NoDup(s) && add !in s && s != [] && head == s[0]
    requires add.next == null && add.prev == s[|s| - 1]
    requires forall i {:trigger s[i].next} :: 0 <= i < |s| ==> s[i].next == After(s, i, add)
    requires forall i {:trigger s[i].prev} :: 0 <= i < |s| ==> s[i].prev == Before(s, i)
    ensures IsApp(head, add, s + [add])
  {
    var r := s + [add];
    forall i | 0 <= i < |r|
      ensures r[i].next == After(r, i, null) && r[i].prev == Before(r, i)
    {
      if i < |s| {
        assert r[i] == s[i];
      }
    }
    assert NoDup(r);
    LinksApp(head, add, r);
  }

  /** The list part of HASH_DELETE_HH for a list of several elements. */
  method Unlink<V>(head0: Elem?<V>, tail0: Elem?<V>, del: Elem<V>, ghost s: seq<Elem<V>>, ghost k: nat)
    returns (head: Elem?<V>, tail: Elem?<V>)
    requires IsApp(head0, tail0, s) && k < |s| && del == s[k] && |s| > 1
    modifies Objs(s)`next, Objs(s)`prev
    ensures IsApp(head, tail, RemoveAt(s, k))
  {
    hide IsApp, NoDup;
    AppLinks(head0, tail0, s);
    Neighbours(s, k);
    ghost var p, n := del.prev, del.next;
    head, tail := head0, tail0;
    if del == tail {
      tail := del.prev;
    }
    if del.prev != null {
      del.prev.next := del.next;
    } else {
      head := del.next;
    }
    if del.next != null {
      del.next.prev := del.prev;
    }
    assert forall i {:trigger s[i].next} :: 0 <= i < |s| ==> s[i].next == if i + 1 == k then n else After(s, i, null);
    assert forall i {:trigger s[i].prev} :: 0 <= i < |s| ==> s[i].prev == if i == k + 1 then p else Before(s, i);
    AppUnlinked(head, tail, s, k);
  }

  lemma Neighbours<V>(s: seq<Elem<V>>, k: nat)
    requires NoDup(s) && k < |s|
    ensures forall i :: 0 <= i < |s| && i != k ==> s[i] != s[k]
    ensures 0 < k ==> forall i :: 0 <= i < |s| && i != k - 1 ==> s[i] != s[k - 1]
    ensures k + 1 < |s| ==> forall i :: 0 <= i < |s| && i != k + 1 ==> s[i] != s[k + 1]
  {
  }

  /** The linking of HASH_ADD_KEYPTR_BYHASHVALUE_INORDER in front of element k. */
  method InsertBefore<V>(head0: Elem?<V>, tail: Elem?<V>, it: Elem<V>, add: Elem<V>, ghost s: seq<Elem<V>>,
                         ghost k: nat)
    returns (head: Elem?<V>)
    requires IsApp(head0, tail, s) && add !in s && k < |s| && it == s[k]
    modifies Objs(s)`next, Objs(s)`prev, add`next, add`prev
    ensures IsApp(head, tail, InsertAt(s, k, add))
  {
    hide IsApp, NoDup;
    AppLinks(head0, tail, s);
    Neighbours(s, k);
    ghost var p := it.prev;
    head := head0;
    add.next := it;
    add.prev := it.prev;
    if add.prev != null {
      assert add.prev == s[k - 1];
      add.prev.next := add;
    } else {
      head := add;
    }
    it.prev := add;
    assert forall i {:trigger s[i].next} :: 0 <= i < |s| ==> s[i].next == if i + 1 == k then add else After(s, i, null);
    assert forall i {:trigger s[i].prev} :: 0 <= i < |s| ==> s[i].prev == if i == k then add else Before(s, i);
    AppInserted(head, tail, add, s, k);
  }

  lemma AppInserted<V>(head: Elem?<V>, tail: Elem?<V>, add: Elem<V>, s: seq<Elem<V>>, k: nat)
    requires NoDup(s) && add !in s && k < |s|
    requires head == (if k == 0 then add else s[0]) && tail == s[|s| - 1]
    requires add.next == s[k] && add.prev == Before(s, k)
    requires forall i {:trigger s[i].next} :: 0 <= i < |s| ==>
               s[i].next == if i + 1 == k then add else After(s, i, null)
    requires forall i {:trigger s[i].prev} :: 0 <= i < |s| ==> s[i].prev == if i == k then add else Before(s, i)
    ensures IsApp(head, tail, InsertAt(s, k, add))
  {
    var r := InsertAt(s, k, add);
    forall i | 0 <= i < |r|
      ensures r[i].next == After(r, i, null) && r[i].prev == Before(r, i)
    {
      if i < k {
        assert r[i] == s[i];
      } else if i > k {
        assert r[i] == s[i - 1];
      }
    }
    assert NoDup(r);
    LinksApp(head, tail, r);
  }

  /** HASH_SRT on the links: passes over the list until one needs a single merge. */
  method SortList<V>(head0: Elem<V>, tail0: Elem?<V>, cmp: (User<V>, User<V>) -> int,
                     ghost ord: (Elem<V>, Elem<V>) -> int,
                      ghost s: seq<Elem<V>>)
    returns (list: Elem<V>, tail: Elem?<V>)
    requires IsApp(head0, tail0, s) && Reflects(ord, cmp, s)
    modifies Objs(s)`next, Objs(s)`prev
    ensures IsApp(list, tail, MergeSort.Sort(s, ord))
  {
    hide *;
    list, tail := head0, tail0;
    var insize, looping := 1, true;
    ghost var cur := s;
    SortBegins(s, ord);
    ObjsAllocated(s);
    while looping
      invariant 0 < insize && IsApp(list, tail, cur) && Objs(cur) <= Objs(s)
      invariant MergeSort.Sort(s, ord) == if looping then MergeSort.SortFrom(cur, insize, ord) else cur
      decreases looping, |cur| - insize
    {
      PassBegins(list, tail, cur, insize, ord);
      ObjsAllocated(cur);
      ReflectsWithin(ord, cmp, s, cur);
      var first, nmerges;
      ghost var out;
      first, tail, nmerges, out := Pass(list, insize, null, cmp, ord, cur);
      PassEnds(first, tail, cur, out);
      CloseList(first, tail, out);
      list := first;
      if nmerges <= 1 {
        looping := false;
      }
      insize, cur := insize * 2, out;
    }
  }

  lemma SortBegins<V>(s: seq<Elem<V>>, cmp: (Elem<V>, Elem<V>) -> int)
    ensures MergeSort.Sort(s, cmp) == MergeSort.SortFrom(s, 1, cmp)
  {
  }

  lemma PassBegins<V>(list: Elem<V>, tail: Elem?<V>, s: seq<Elem<V>>, insize: nat, cmp: (Elem<V>, Elem<V>) -> int)
    requires IsApp(list, tail, s) && 0 < insize
    ensures s != [] && list == s[0] && NoDup(s) && ValidStop<V>(s, null) && Ahead(s, 0, |s|, null)
    ensures var out := MergeSort.MergePass(s, insize, cmp);
            MergeSort.SortFrom(s, insize, cmp)
              == if |s| <= insize + insize then out else MergeSort.SortFrom(out, insize + insize, cmp)
  {
  }

  lemma PassEnds<V>(list: Elem?<V>, tail: Elem?<V>, s: seq<Elem<V>>, out: seq<Elem<V>>)
    requires Ends(list, tail, out) && |out| == |s| > 0 && Linked(out) && NoDup(out)
    requires forall x :: x in out ==> x in s
    ensures list != null && tail != null && tail in Objs(s) && Objs(out) <= Objs(s)
    ensures list == out[0] && tail == out[|out| - 1]
  {
  }

  method CloseList<V>(list: Elem<V>, tail: Elem<V>, ghost out: seq<Elem<V>>)
    requires out != [] && Ends(list, tail, out) && Linked(out) && NoDup(out)
    modifies tail`next
    ensures IsApp(list, tail, out)
  {
    tail.next := null;
  }
}
