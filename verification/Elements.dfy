/** The list element that both headers link: utlist.h through prev and next,
    uthash.h through the whole hash handle. */
module Elements {

  newtype byte = x: int | 0 <= x < 0x100

  /** A key is the run of keylen bytes that the handle points to. */
  type Key = seq<byte>

  /** The part of an element that belongs to the user: its key and the user's own fields. */
  datatype User<V> = User(key: Key, val: V)

  class Elem<V> {
    var prev: Elem?<V>
    var next: Elem?<V>
    // bucket links, key and hash value: used by uthash.h only
    var hhPrev: Elem?<V>
    var hhNext: Elem?<V>
    var key: Key
    var hashv: nat
    // the user's own fields
    var val: V

    constructor (key: Key, val: V)
      ensures this.key == key && this.val == val
    {
      prev, next, hhPrev, hhNext := null, null, null, null;
      this.key, hashv, this.val := key, 0, val;
    }

    function Mine(): User<V>
      reads `key, `val
    {
      User(key, val)
    }
  }

  ghost predicate NoDup<T>(s: seq<T>) {
    forall i, j :: 0 <= i < j < |s| ==> s[i] != s[j]
  }

  /** The elements of a list as a frame. */
  ghost function Objs<V>(s: seq<Elem<V>>): set<Elem<V>> {
    set x | x in s
  }

  /** A list only names elements that exist, so what is not touched keeps its value. */
  lemma ObjsAllocated<V>(s: seq<Elem<V>>)
    ensures allocated(Objs(s))
  {
  }

  /** The pointer to element i of a list, null past its end. */
  ghost function At<V>(s: seq<Elem<V>>, i: nat): Elem?<V> {
    if i < |s| then s[i] else null
  }

  // ---------- Comparison functions ----------

  /** ord orders the elements of s as cmp does when it is given their user parts. */
  ghost predicate Reflects<V>(ord: (Elem<V>, Elem<V>) -> int, cmp: (User<V>, User<V>) -> int, s: seq<Elem<V>>)
    reads Objs(s)`key, Objs(s)`val
  {
    forall x, y :: x in s && y in s ==> ord(x, y) == cmp(x.Mine(), y.Mine())
  }

  ghost function Lifted<V>(cmp: (User<V>, User<V>) -> int, m: map<Elem<V>, User<V>>): (Elem<V>, Elem<V>) -> int {
    (x, y) => if x in m && y in m then cmp(m[x], m[y]) else 0
  }

  /** The order that cmp puts on the elements of s as they stand. */
  ghost function ByUser<V>(cmp: (User<V>, User<V>) -> int, s: seq<Elem<V>>): (Elem<V>, Elem<V>) -> int
    reads Objs(s)`key, Objs(s)`val
  {
    Lifted(cmp, map x | x in Objs(s) :: x.Mine())
  }

  lemma ByUserReflects<V>(cmp: (User<V>, User<V>) -> int, s: seq<Elem<V>>)
    ensures Reflects(ByUser(cmp, s), cmp, s)
  {
  }

  lemma Compared<V>(ord: (Elem<V>, Elem<V>) -> int, cmp: (User<V>, User<V>) -> int, s: seq<Elem<V>>, x: Elem<V>,
                    y: Elem<V>)
    requires Reflects(ord, cmp, s) && x in s && y in s
    ensures ord(x, y) == cmp(x.Mine(), y.Mine())
  {
  }

  lemma ReflectsWithin<V>(ord: (Elem<V>, Elem<V>) -> int, cmp: (User<V>, User<V>) -> int, s: seq<Elem<V>>,
                          r: seq<Elem<V>>)
    requires Reflects(ord, cmp, s) && Objs(r) <= Objs(s)
    ensures Reflects(ord, cmp, r)
  {
    forall x | x in r
      ensures x in s
    {
      assert x in Objs(r);
    }
  }
}
