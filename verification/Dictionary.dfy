/** The way the bridge uses uthash.h: find before add, one value a key. The table
    refines a sequence of key-value pairs in insertion order. */
module Dictionary {
  import opened Elements
  import opened UtHash
  import opened HashTable

  /** memcmp: keys of equal length compare equal exactly when they are equal. */
  ghost predicate Lawful(keycmp: (Key, Key) -> bool) {
    forall a: Key, b: Key :: |a| == |b| ==> (keycmp(a, b) <==> a == b)
  }

  // ---------- The reference: pairs in insertion order ----------

  ghost predicate HasKey<V>(ps: seq<(Key, V)>, key: Key) {
    exists i :: 0 <= i < |ps| && ps[i].0 == key
  }

  /** Where a key stands. */
  ghost function Place<V>(ps: seq<(Key, V)>, key: Key): (i: nat)
    requires HasKey(ps, key)
    ensures i < |ps| && ps[i].0 == key
  {
    var i :| 0 <= i < |ps| && ps[i].0 == key; i
  }

  ghost predicate Distinct<V>(ps: seq<(Key, V)>) {
    forall i, j :: 0 <= i < j < |ps| ==> ps[i].0 != ps[j].0
  }

  ghost function KeysOf<V>(ps: seq<(Key, V)>): set<Key> {
    set i | 0 <= i < |ps| :: ps[i].0
  }

  /** The pairs as a map. */
  ghost function MapOf<V>(ps: seq<(Key, V)>): (m: map<Key, V>)
    ensures forall key :: key in m <==> HasKey(ps, key)
    ensures forall key :: key in m ==> m[key] == ps[Place(ps, key)].1
  {
    map key | key in KeysOf(ps) :: ps[Place(ps, key)].1
  }

  lemma OnePlace<V>(ps: seq<(Key, V)>, i: nat, j: nat)
    requires Distinct(ps) && i < |ps| && j < |ps| && ps[i].0 == ps[j].0
    ensures i == j
  {
  }

  lemma MapAdded<V>(ps: seq<(Key, V)>, key: Key, val: V)
    requires Distinct(ps) && !HasKey(ps, key)
    ensures MapOf(ps + [(key, val)]) == MapOf(ps)[key := val]
  {
    var ps' := ps + [(key, val)];
    assert ps'[|ps|].0 == key;
    forall k
      ensures HasKey(ps', k) <==> HasKey(ps, k) || k == key
      ensures HasKey(ps', k) ==> ps'[Place(ps', k)] == if k == key then (key, val) else ps[Place(ps, k)]
    {
      if HasKey(ps, k) {
        assert ps'[Place(ps, k)].0 == k;
        OnePlace(ps', Place(ps', k), Place(ps, k));
      }
    }
  }

  lemma MapUpdated<V>(ps: seq<(Key, V)>, key: Key, val: V)
    requires Distinct(ps) && HasKey(ps, key)
    ensures MapOf(ps[Place(ps, key) := (key, val)]) == MapOf(ps)[key := val]
  {
    var ps' := ps[Place(ps, key) := (key, val)];
    forall k
      ensures HasKey(ps', k) <==> HasKey(ps, k)
      ensures HasKey(ps', k) ==> ps'[Place(ps', k)] == if k == key then (key, val) else ps[Place(ps, k)]
    {
      AfterUpdate(ps, Place(ps, key), val, k);
    }
    hide Distinct, HasKey;
    SameMap(ps, ps', key, val);
  }

  lemma SameMap<V>(ps: seq<(Key, V)>, ps': seq<(Key, V)>, key: Key, val: V)
    requires HasKey(ps, key) && forall k :: HasKey(ps', k) <==> HasKey(ps, k)
    requires forall k :: HasKey(ps', k) ==> ps'[Place(ps', k)] == if k == key then (key, val) else ps[Place(ps, k)]
    ensures MapOf(ps') == MapOf(ps)[key := val]
  {
    hide HasKey;
  }

  lemma AfterUpdate<V>(ps: seq<(Key, V)>, i: nat, val: V, k: Key)
    requires Distinct(ps) && i < |ps|
    ensures var ps' := ps[i := (ps[i].0, val)];
            && (HasKey(ps', k) <==> HasKey(ps, k))
            && (HasKey(ps', k) ==> ps'[Place(ps', k)] == if k == ps[i].0 then (k, val) else ps[Place(ps, k)])
  {
    var ps' := ps[i := (ps[i].0, val)];
    if HasKey(ps, k) {
      assert ps'[Place(ps, k)].0 == k;
    }
    if HasKey(ps', k) {
      OnePlace(ps, Place(ps', k), if k == ps[i].0 then i else Place(ps', k));
      assert ps[Place(ps', k)].0 == k;
      OnePlace(ps, Place(ps', k), Place(ps, k));
      if k == ps[i].0 {
        OnePlace(ps, Place(ps, k), i);
      }
    }
  }

  lemma MapRemoved<V>(ps: seq<(Key, V)>, key: Key)
    requires Distinct(ps) && HasKey(ps, key)
    ensures MapOf(RemoveAt(ps, Place(ps, key))) == MapOf(ps) - {key}
  {
    var k := Place(ps, key);
    var ps' := RemoveAt(ps, k);
    forall k'
      ensures HasKey(ps', k') <==> HasKey(ps, k') && k' != key
      ensures HasKey(ps', k') ==> ps'[Place(ps', k')] == ps[Place(ps, k')]
    {
      AfterRemoval(ps, k, k');
    }
  }

  lemma AfterRemoval<V>(ps: seq<(Key, V)>, k: nat, key: Key)
    requires Distinct(ps) && k < |ps|
    ensures var ps' := RemoveAt(ps, k);
            && (HasKey(ps', key) <==> HasKey(ps, key) && key != ps[k].0)
            && (HasKey(ps', key) ==> ps'[Place(ps', key)] == ps[Place(ps, key)])
  {
    var ps' := RemoveAt(ps, k);
    assert forall i :: 0 <= i < |ps'| ==> ps'[i] == ps[if i < k then i else i + 1];
    if HasKey(ps, key) && key != ps[k].0 {
      var i := Place(ps, key);
      assert ps'[if i < k then i else i - 1].0 == key;
    }
    if HasKey(ps', key) {
      var i := Place(ps', key);
      OnePlace(ps, if i < k then i else i + 1, Place(ps, key));
    }
  }

  // ---------- The table as pairs ----------

  ghost function PairsOf<V>(s: seq<Elem<V>>): (ps: seq<(Key, V)>)
    reads Objs(s)`key, Objs(s)`val
    ensures |ps| == |s| && forall i :: 0 <= i < |s| ==> ps[i] == (s[i].key, s[i].val)
  {
    if s == [] then []
    else
      assert Objs(s[..|s| - 1]) <= Objs(s);
      PairsOf(s[..|s| - 1]) + [(s[|s| - 1].key, s[|s| - 1].val)]
  }

  /** Every item stands under the hash value of its key. */
  ghost predicate Hashed<V>(s: seq<Elem<V>>, hash: Key -> nat)
    reads Objs(s)`key, Objs(s)`hashv
  {
    forall i :: 0 <= i < |s| ==> s[i].hashv == hash(s[i].key)
  }

  // ---------- Operations and their answers ----------

  datatype Op<V> = Put(key: Key, val: V, mayMake: bool, mayAlloc: bool) | Get(key: Key) | Del(key: Key)

  datatype Out<V> = Added | Present | OutOfMemory | Found(val: V) | Missing | Deleted

  /** What an operation may answer. Only a failing allocation can refuse a new key, and
      the first key needs the table itself and nothing else. */
  ghost predicate Answers<V>(ps: seq<(Key, V)>, op: Op<V>, out: Out<V>) {
    match op
    case Put(key, _, mayMake, mayAlloc) =>
      if HasKey(ps, key) then out == Present
      else if ps == [] then out == if mayMake then Added else OutOfMemory
      else out == Added || (out == OutOfMemory && !mayAlloc)
    case Get(key) =>
      out == if HasKey(ps, key) then Found(ps[Place(ps, key)].1) else Missing
    case Del(key) =>
      out == if HasKey(ps, key) then Deleted else Missing
  }

  /** The pairs after an operation with that answer. */
  ghost function Next<V>(ps: seq<(Key, V)>, op: Op<V>, out: Out<V>): seq<(Key, V)> {
    match op
    case Put(key, val, _, _) => if out == Added then ps + [(key, val)] else ps
    case Get(_) => ps
    case Del(key) => if out == Deleted && HasKey(ps, key) then RemoveAt(ps, Place(ps, key)) else ps
  }

  /** The pairs after a whole run with these answers. */
  ghost function NextAll<V>(ps: seq<(Key, V)>, ops: seq<Op<V>>, outs: seq<Out<V>>): seq<(Key, V)>
    requires |ops| == |outs|
  {
    if ops == [] then ps
    else
      var k := |ops| - 1;
      Next(NextAll(ps, ops[..k], outs[..k]), ops[k], outs[k])
  }

  /** The reference run: every answer is one its operation may give, and the pairs
      lead from ps0 to ps. */
  ghost predicate Reaches<V>(ps0: seq<(Key, V)>, ops: seq<Op<V>>, outs: seq<Out<V>>, ps: seq<(Key, V)>) {
    && |ops| == |outs| && ps == NextAll(ps0, ops, outs)
    && forall i :: 0 <= i < |ops| ==> Answers(NextAll(ps0, ops[..i], outs[..i]), ops[i], outs[i])
  }

  // ---------- The same on maps ----------

  ghost predicate MapAnswers<V>(m: map<Key, V>, op: Op<V>, out: Out<V>) {
    match op
    case Put(key, _, mayMake, mayAlloc) =>
      if key in m then out == Present
      else if m == map[] then out == if mayMake then Added else OutOfMemory
      else out == Added || (out == OutOfMemory && !mayAlloc)
    case Get(key) =>
      out == if key in m then Found(m[key]) else Missing
    case Del(key) =>
      out == if key in m then Deleted else Missing
  }

  ghost function MapNext<V>(m: map<Key, V>, op: Op<V>, out: Out<V>): map<Key, V> {
    match op
    case Put(key, val, _, _) => if out == Added then m[key := val] else m
    case Get(_) => m
    case Del(key) => if out == Deleted then m - {key} else m
  }

  ghost function MapNextAll<V>(m: map<Key, V>, ops: seq<Op<V>>, outs: seq<Out<V>>): map<Key, V>
    requires |ops| == |outs|
  {
    if ops == [] then m
    else
      var k := |ops| - 1;
      MapNext(MapNextAll(m, ops[..k], outs[..k]), ops[k], outs[k])
  }

  /** The reference run on a map. */
  ghost predicate MapReaches<V>(m0: map<Key, V>, ops: seq<Op<V>>, outs: seq<Out<V>>, m: map<Key, V>) {
    && |ops| == |outs| && m == MapNextAll(m0, ops, outs)
    && forall i :: 0 <= i < |ops| ==> MapAnswers(MapNextAll(m0, ops[..i], outs[..i]), ops[i], outs[i])
  }

  lemma NoPairs<V>(ps: seq<(Key, V)>)
    ensures MapOf(ps) == map[] <==> ps == []
  {
    if ps != [] {
      assert HasKey(ps, ps[0].0);
    }
  }

  /** One operation on pairs is the operation on their map. */
  lemma StepOnMap<V>(ps: seq<(Key, V)>, op: Op<V>, out: Out<V>)
    requires Distinct(ps) && Answers(ps, op, out)
    ensures MapAnswers(MapOf(ps), op, out) && MapOf(Next(ps, op, out)) == MapNext(MapOf(ps), op, out)
    ensures Distinct(Next(ps, op, out))
  {
    NoPairs(ps);
    if op.Put? && !HasKey(ps, op.key) {
      MapAdded(ps, op.key, op.val);
      StaysDistinct(ps, op.key, op.val);
    } else if op.Del? && HasKey(ps, op.key) {
      MapRemoved(ps, op.key);
      RemovalDistinct(ps, Place(ps, op.key));
    }
    hide MapOf, Distinct, HasKey, RemoveAt;
  }

  lemma StaysDistinct<V>(ps: seq<(Key, V)>, key: Key, val: V)
    requires Distinct(ps) && !HasKey(ps, key)
    ensures Distinct(ps + [(key, val)])
  {
  }

  lemma RemovalDistinct<V>(ps: seq<(Key, V)>, k: nat)
    requires Distinct(ps) && k < |ps|
    ensures Distinct(RemoveAt(ps, k))
  {
  }

  /** So a run that the pairs allow is one that their map allows. */
  lemma {:induction false} RunOnMap<V>(ps0: seq<(Key, V)>, ops: seq<Op<V>>, outs: seq<Out<V>>, ps: seq<(Key, V)>)
    requires Distinct(ps0) && Reaches(ps0, ops, outs, ps)
    ensures MapReaches(MapOf(ps0), ops, outs, MapOf(ps)) && Distinct(ps)
  {
    hide *;
    SameLength(ps0, ops, outs, ps);
    if ops == [] {
      NothingRun(ps0, outs, ps);
    } else {
      var k := |ops| - 1;
      var mid := NextAll(ps0, ops[..k], outs[..k]);
      LastStep(ps0, ops, outs, ps);
      RunOnMap(ps0, ops[..k], outs[..k], mid);
      StepOnMap(mid, ops[k], outs[k]);
      MapStep(MapOf(ps0), ops, outs, MapOf(mid));
    }
  }

  lemma SameLength<V>(ps0: seq<(Key, V)>, ops: seq<Op<V>>, outs: seq<Out<V>>, ps: seq<(Key, V)>)
    requires Reaches(ps0, ops, outs, ps)
    ensures |ops| == |outs|
  {
  }

  lemma NothingRun<V>(ps0: seq<(Key, V)>, outs: seq<Out<V>>, ps: seq<(Key, V)>)
    requires Reaches(ps0, [], outs, ps)
    ensures ps == ps0 && MapReaches(MapOf(ps0), [], outs, MapOf(ps))
  {
  }

  lemma LastStep<V>(ps0: seq<(Key, V)>, ops: seq<Op<V>>, outs: seq<Out<V>>, ps: seq<(Key, V)>)
    requires ops != [] && |ops| == |outs| && Reaches(ps0, ops, outs, ps)
    ensures var k := |ops| - 1;
            var mid := NextAll(ps0, ops[..k], outs[..k]);
            && Reaches(ps0, ops[..k], outs[..k], mid)
            && Answers(mid, ops[k], outs[k]) && ps == Next(mid, ops[k], outs[k])
  {
    hide Answers, Next;
    var k := |ops| - 1;
    assert forall i :: 0 <= i < k ==> ops[..k][..i] == ops[..i] && outs[..k][..i] == outs[..i];
  }

  lemma MapStep<V>(m0: map<Key, V>, ops: seq<Op<V>>, outs: seq<Out<V>>, mid: map<Key, V>)
    requires ops != [] && |ops| == |outs| && MapReaches(m0, ops[..|ops| - 1], outs[..|ops| - 1], mid)
    requires MapAnswers(mid, ops[|ops| - 1], outs[|ops| - 1])
    ensures MapReaches(m0, ops, outs, MapNext(mid, ops[|ops| - 1], outs[|ops| - 1]))
  {
    hide MapAnswers, MapNext;
    var k := |ops| - 1;
    assert forall i :: 0 <= i < k ==> ops[..k][..i] == ops[..i] && outs[..k][..i] == outs[..i];
  }

  /** The last operation of a run that changed a key, or -1. */
  lemma {:induction false} LastChange<V>(m0: map<Key, V>, ops: seq<Op<V>>, outs: seq<Out<V>>, key: Key) returns (j: int)
    requires |ops| == |outs|
    ensures -1 <= j < |ops|
    ensures forall l :: j < l < |ops| && ops[l].key == key ==>
                          !(ops[l].Put? && outs[l] == Added) && !(ops[l].Del? && outs[l] == Deleted)
    ensures var m := MapNextAll(m0, ops, outs);
            if j == -1 then (key in m <==> key in m0) && (key in m ==> m[key] == m0[key])
            else
              && ops[j].key == key
              && if ops[j].Put? then outs[j] == Added && key in m && m[key] == ops[j].val
                 else ops[j].Del? && outs[j] == Deleted && key !in m
  {
    if ops == [] {
      j := -1;
    } else {
      var k := |ops| - 1;
      j := LastChange(m0, ops[..k], outs[..k], key);
      if ops[k].key == key && ((ops[k].Put? && outs[k] == Added) || (ops[k].Del? && outs[k] == Deleted)) {
        j := k;
      }
    }
  }

  /** In every run a lookup answers by the last change of its key before it: the value of
      an add, nothing after a delete, and what was there at the start when there is none. */
  lemma ReadsLastWrite<V>(m0: map<Key, V>, ops: seq<Op<V>>, outs: seq<Out<V>>, m: map<Key, V>, i: nat) returns (j: int)
    requires MapReaches(m0, ops, outs, m) && i < |ops| && ops[i].Get?
    ensures |outs| == |ops| && -1 <= j < i
    ensures var key := ops[i].key;
            && (forall l :: j < l < i && ops[l].key == key ==>
                              !(ops[l].Put? && outs[l] == Added) && !(ops[l].Del? && outs[l] == Deleted))
            && if j == -1 then outs[i] == if key in m0 then Found(m0[key]) else Missing
               else
                 && ops[j].key == key
                 && if ops[j].Put? then outs[j] == Added && outs[i] == Found(ops[j].val)
                    else ops[j].Del? && outs[j] == Deleted && outs[i] == Missing
  {
    hide *;
    GetAnswered(m0, ops, outs, m, i);
    j := LastChange(m0, ops[..i], outs[..i], ops[i].key);
    assert forall l :: 0 <= l < i ==> ops[..i][l] == ops[l] && outs[..i][l] == outs[l];
  }

  lemma GetAnswered<V>(m0: map<Key, V>, ops: seq<Op<V>>, outs: seq<Out<V>>, m: map<Key, V>, i: nat)
    requires MapReaches(m0, ops, outs, m) && i < |ops| && ops[i].Get?
    ensures |outs| == |ops|
    ensures var now, key := MapNextAll(m0, ops[..i], outs[..i]), ops[i].key;
            outs[i] == if key in now then Found(now[key]) else Missing
  {
    hide MapNextAll;
    assert MapAnswers(MapNextAll(m0, ops[..i], outs[..i]), ops[i], outs[i]);
  }

  lemma NoSteps<V>(ps0: seq<(Key, V)>, ops: seq<Op<V>>)
    ensures Reaches(ps0, ops[..0], [], ps0)
  {
  }

  lemma OneMore<V>(ps0: seq<(Key, V)>, ops: seq<Op<V>>, i: nat, outs: seq<Out<V>>, mid: seq<(Key, V)>, out: Out<V>)
    requires i < |ops| && Reaches(ps0, ops[..i], outs, mid) && Answers(mid, ops[i], out)
    ensures Reaches(ps0, ops[..i + 1], outs + [out], Next(mid, ops[i], out))
  {
    hide Answers, Next;
    var ops', outs' := ops[..i + 1], outs + [out];
    assert ops'[..i] == ops[..i] && outs'[..i] == outs;
    forall j | 0 <= j < i
      ensures ops'[..j] == ops[..i][..j] && outs'[..j] == outs[..j]
    {
    }
  }

  class Dict<V> {
    const t: Table<V>
    ghost var Repr: set<object>

    ghost predicate Valid()
      reads this, Repr
      ensures Valid() ==> this in Repr && t in Repr
    {
      && this in Repr && t in Repr && t.buckets in Repr
      && Objs(t.items) <= Repr
      && t.Valid() && Lawful(t.keycmp) && Hashed(t.items, t.hash) && Distinct(PairsOf(t.items))
    }

    ghost function Pairs(): seq<(Key, V)>
      requires Valid()
      reads this, Repr
    {
      PairsOf(t.items)
    }

    constructor (hash: Key -> nat, keycmp: (Key, Key) -> bool)
      requires Lawful(keycmp)
      ensures Valid() && fresh(Repr) && Pairs() == []
    {
      t := new Table(hash, keycmp);
      new;
      Repr := {this, t, t.buckets};
    }

    /** HASH_FIND. */
    method Find(key: Key) returns (e: Elem?<V>)
      requires Valid()
      ensures e == null <==> !HasKey(Pairs(), key)
      ensures e != null ==> e in t.items && e in Repr && e == t.items[Place(Pairs(), key)]
    {
      hide Table.Valid, Distinct;
      ghost var ps := PairsOf(t.items);
      e := t.Find(key);
      if e == null {
        forall i | 0 <= i < |ps|
          ensures ps[i].0 != key
        {
          assert !Match(t.items[i], key, t.hash(key), t.keycmp);
        }
      } else {
        ghost var i :| 0 <= i < |t.items| && t.items[i] == e;
        assert ps[i].0 == key;
        OnePlace(ps, i, Place(ps, key));
      }
    }

    /** The find-before-add of the bridge: a key that is present keeps its value. */
    method Put(key: Key, val: V, mayMake: bool, mayAlloc: bool) returns (out: Out<V>)
      requires Valid()
      modifies Repr
      ensures Valid() && fresh(Repr - old(Repr))
      ensures Answers(old(Pairs()), Op.Put(key, val, mayMake, mayAlloc), out)
      ensures Pairs() == Next(old(Pairs()), Op.Put(key, val, mayMake, mayAlloc), out)
      ensures out == OutOfMemory <==> old(!HasKey(Pairs(), key)) && old(Refused(key, mayMake, mayAlloc))
      ensures out == Present <==> old(HasKey(Pairs(), key))
      ensures Pairs() == if out == Added then old(Pairs()) + [(key, val)] else old(Pairs())
    {
      hide *;
      RefusedIf(key, mayMake, mayAlloc);
      var e := Find(key);
      if e != null {
        out := Present;
      } else {
        var add := new Elem(key, val);
        Unfolded();
        var oomed := Insert(add, key, mayMake, mayAlloc);
        out := if oomed then OutOfMemory else Added;
      }
      PutAnswered(old(Pairs()), key, val, mayMake, mayAlloc, out);
    }

    /** An add of a new key is refused exactly when the allocation it needs fails: that of
        the table for the first key, later that of an expansion that falls due. */
    ghost predicate Refused(key: Key, mayMake: bool, mayAlloc: bool)
      requires Valid()
      reads this, Repr
    {
      if t.head == null then !mayMake else !mayAlloc && t.AddExpands(t.hash(key))
    }

    lemma RefusedIf(key: Key, mayMake: bool, mayAlloc: bool)
      requires Valid()
      ensures Refused(key, mayMake, mayAlloc)
              == if t.head == null then !mayMake else !mayAlloc && t.AddExpands(t.hash(key))
      ensures t.head == null <==> Pairs() == []
    {
      hide Table.AddExpands;
    }

    lemma PutAnswered(ps: seq<(Key, V)>, key: Key, val: V, mayMake: bool, mayAlloc: bool, out: Out<V>)
      requires if HasKey(ps, key) then out == Present
               else if ps == [] then out == if mayMake then Added else OutOfMemory
               else out == Added || (out == OutOfMemory && !mayAlloc)
      ensures Answers(ps, Op.Put(key, val, mayMake, mayAlloc), out)
      ensures Next(ps, Op.Put(key, val, mayMake, mayAlloc), out) == if out == Added then ps + [(key, val)] else ps
    {
    }

    /** HASH_ADD of a fresh element under a key that is absent. */
    method Insert(add: Elem<V>, key: Key, mayMake: bool, mayAlloc: bool) returns (oomed: bool)
      requires Valid() && !HasKey(Pairs(), key) && add !in Repr
      modifies Repr, add`key, add`hashv, add`next, add`prev, add`hhNext, add`hhPrev
      ensures Valid() && fresh(Repr - old(Repr) - {add})
      ensures Pairs() == if oomed then old(Pairs()) else old(Pairs()) + [(key, add.val)]
      ensures oomed == old(Refused(key, mayMake, mayAlloc))
      ensures mayMake && mayAlloc ==> !oomed
      ensures !oomed ==> HasKey(Pairs(), key) && add == t.items[Place(Pairs(), key)] && add in Repr
      ensures add.val == old(add.val)
    {
      hide *;
      Unfolded();
      RefusedIf(key, mayMake, mayAlloc);
      ghost var s := t.items;
      ghost var ps := PairsOf(s);
      oomed := t.Add(add, key, mayMake, mayAlloc);
      Repr := Repr + {t.buckets} + if oomed then {} else {add};
      Grown(s, add, ps, oomed);
      if !oomed {
        LastPlace(s, add);
      }
    }

    lemma LastPlace(s: seq<Elem<V>>, add: Elem<V>)
      requires Valid() && t.items == s + [add]
      ensures HasKey(Pairs(), add.key) && add == t.items[Place(Pairs(), add.key)]
    {
      hide Table.Valid, PairsOf, Distinct;
      assert Pairs()[|s|].0 == add.key;
      OnePlace(Pairs(), |s|, Place(Pairs(), add.key));
    }

    /** The table as a map. */
    ghost function Map(): map<Key, V>
      requires Valid()
      reads this, Repr
    {
      MapOf(Pairs())
    }

    /** An item found under a key holds the key's value. */
    lemma ItemOf(key: Key)
      requires Valid()
      ensures Map() == MapOf(Pairs()) && (key in Map() <==> HasKey(Pairs(), key))
      ensures HasKey(Pairs(), key) ==> t.items[Place(Pairs(), key)].val == Map()[key]
      ensures Distinct(Pairs())
    {
      hide Table.Valid;
    }

    lemma Unfolded()
      requires Valid()
      ensures this in Repr && t in Repr && t.buckets in Repr && Objs(t.items) <= Repr
      ensures t.Valid() && Lawful(t.keycmp) && Hashed(t.items, t.hash) && Distinct(PairsOf(t.items))
      ensures Pairs() == PairsOf(t.items) && allocated(Objs(t.items))
      ensures forall x: Elem<V> :: x !in Repr ==> x !in t.items
    {
    }

    lemma Grown(s: seq<Elem<V>>, add: Elem<V>, ps: seq<(Key, V)>, oomed: bool)
      requires this in Repr && t in Repr && t.buckets in Repr && Objs(s) <= Repr && (!oomed ==> add in Repr)
      requires t.Valid() && Lawful(t.keycmp) && Hashed(s, t.hash) && ps == PairsOf(s) && Distinct(ps)
      requires t.items == if oomed then s else s + [add]
      requires !HasKey(ps, add.key) && add.hashv == t.hash(add.key)
      ensures Valid() && Pairs() == if oomed then ps else ps + [(add.key, add.val)]
    {
      hide *;
      if !oomed {
        AddedPairs(s, add, t.hash);
      }
      Folded();
    }

    lemma AddedPairs(s: seq<Elem<V>>, add: Elem<V>, hash: Key -> nat)
      requires Hashed(s, hash) && Distinct(PairsOf(s)) && !HasKey(PairsOf(s), add.key) && add.hashv == hash(add.key)
      ensures PairsOf(s + [add]) == PairsOf(s) + [(add.key, add.val)]
      ensures Hashed(s + [add], hash) && Distinct(PairsOf(s + [add])) && Objs(s + [add]) == Objs(s) + {add}
    {
      var ps := PairsOf(s);
      hide PairsOf;
      assert PairsOf(s + [add]) == ps + [(add.key, add.val)];
    }

    /** HASH_DELETE of the item a find has returned. */
    method Remove(key: Key) returns (out: Out<V>)
      requires Valid()
      modifies Repr
      ensures Valid() && Repr == old(Repr)
      ensures Answers(old(Pairs()), Op.Del(key), out) && Pairs() == Next(old(Pairs()), Op.Del(key), out)
    {
      hide *;
      ghost var s, ps := t.items, Pairs();
      var e := Find(key);
      if e == null {
        out := Missing;
      } else {
        Unfolded();
        UniqueIndex(s, Place(ps, key), IndexOf(s, e));
        t.Delete(e);
        out := Deleted;
        Shrunk(s, ps, Place(ps, key));
      }
      DelAnswered(ps, key, out);
    }

    lemma DelAnswered(ps: seq<(Key, V)>, key: Key, out: Out<V>)
      requires out == if HasKey(ps, key) then Deleted else Missing
      ensures Answers(ps, Op.Del(key), out)
      ensures Next(ps, Op.Del(key), out) == if out == Deleted then RemoveAt(ps, Place(ps, key)) else ps
    {
    }

    /** No two items of the list are the same element. */
    lemma UniqueIndex(s: seq<Elem<V>>, i: nat, j: nat)
      requires Distinct(PairsOf(s)) && i < |s| && j < |s| && s[i] == s[j]
      ensures i == j
    {
      hide PairsOf, Distinct;
      OnePlace(PairsOf(s), i, j);
    }

    lemma Shrunk(s: seq<Elem<V>>, ps: seq<(Key, V)>, k: nat)
      requires this in Repr && t in Repr && t.buckets in Repr && Objs(s) <= Repr && k < |s|
      requires t.Valid() && Lawful(t.keycmp) && Hashed(s, t.hash) && ps == PairsOf(s) && Distinct(ps)
      requires t.items == RemoveAt(s, k)
      ensures Valid() && Pairs() == RemoveAt(ps, k)
    {
      hide *;
      RemovePairs(s, k, t.hash);
      Folded();
    }

    lemma RemovePairs(s: seq<Elem<V>>, k: nat, hash: Key -> nat)
      requires k < |s| && Hashed(s, hash) && Distinct(PairsOf(s))
      ensures var r := RemoveAt(s, k);
              && PairsOf(r) == RemoveAt(PairsOf(s), k) && Hashed(r, hash) && Distinct(PairsOf(r)) && Objs(r) <= Objs(s)
    {
      hide *;
      PairsWithout(s, k);
      HashedWithout(s, k, hash);
      RemovalDistinct(PairsOf(s), k);
    }

    lemma PairsWithout(s: seq<Elem<V>>, k: nat)
      requires k < |s|
      ensures PairsOf(RemoveAt(s, k)) == RemoveAt(PairsOf(s), k)
    {
      hide *;
      var r, ps := RemoveAt(s, k), PairsOf(s);
      forall i | 0 <= i < |r|
        ensures PairsOf(r)[i] == RemoveAt(ps, k)[i]
      {
        var j := if i < k then i else i + 1;
        RemoveAtIndex(s, k, i);
        RemoveAtIndex(ps, k, i);
        assert r[i] == s[j] && PairsOf(r)[i] == (s[j].key, s[j].val) && ps[j] == (s[j].key, s[j].val);
      }
      SameItems(PairsOf(r), RemoveAt(ps, k));
    }

    lemma SameItems(ps: seq<(Key, V)>, qs: seq<(Key, V)>)
      requires |ps| == |qs| && forall i :: 0 <= i < |ps| ==> ps[i] == qs[i]
      ensures ps == qs
    {
    }

    lemma HashedWithout(s: seq<Elem<V>>, k: nat, hash: Key -> nat)
      requires k < |s| && Hashed(s, hash)
      ensures Hashed(RemoveAt(s, k), hash) && Objs(RemoveAt(s, k)) <= Objs(s)
    {
      var r := RemoveAt(s, k);
      assert forall i :: 0 <= i < |r| ==> r[i] == s[if i < k then i else i + 1];
    }

    lemma Folded()
      requires this in Repr && t in Repr && t.buckets in Repr && Objs(t.items) <= Repr
      requires t.Valid() && Lawful(t.keycmp) && Hashed(t.items, t.hash) && Distinct(PairsOf(t.items))
      ensures Valid() && Pairs() == PairsOf(t.items)
    {
    }

    /** The value of a key, read through the find. */
    method Get(key: Key) returns (out: Out<V>)
      requires Valid()
      ensures Answers(Pairs(), Op.Get(key), out)
    {
      var e := Find(key);
      out := if e == null then Missing else Found(e.val);
    }

    /** A write to the user's own field of an item found before. */
    method SetVal(e: Elem<V>, v: V, ghost key: Key)
      requires Valid() && HasKey(Pairs(), key) && e == t.items[Place(Pairs(), key)]
      modifies e`val
      ensures Valid() && Pairs() == old(Pairs())[Place(old(Pairs()), key) := (key, v)]
    {
      hide *;
      ghost var s, ps, k := t.items, Pairs(), Place(Pairs(), key);
      Unfolded();
      e.val := v;
      Changed(s, ps, k, v);
    }

    lemma Changed(s: seq<Elem<V>>, ps: seq<(Key, V)>, k: nat, v: V)
      requires this in Repr && t in Repr && t.buckets in Repr && Objs(s) <= Repr && k < |s| == |ps|
      requires t.Valid() && Lawful(t.keycmp) && Hashed(s, t.hash) && Distinct(ps) && t.items == s
      requires s[k].val == v && forall i :: 0 <= i < |s| ==> ps[i].0 == s[i].key && (i != k ==> ps[i].1 == s[i].val)
      ensures Valid() && Pairs() == ps[k := (ps[k].0, v)]
    {
      hide PairsOf;
      assert PairsOf(s) == ps[k := (ps[k].0, v)];
    }

    /** Any run of find-before-add inserts, finds and deletes answers as the reference
        does and ends with the reference's pairs; Valid says the table is sound. */
    method Run(ops: seq<Op<V>>) returns (outs: seq<Out<V>>)
      requires Valid()
      modifies Repr
      ensures Valid() && fresh(Repr - old(Repr))
      ensures Reaches(old(Pairs()), ops, outs, Pairs())
      ensures MapReaches(old(Map()), ops, outs, Map())
    {
      hide *;
      ItemOf([]);
      outs := [];
      var i := 0;
      ghost var ps0 := Pairs();
      NoSteps(ps0, ops);
      while i < |ops|
        invariant 0 <= i <= |ops| && Valid() && fresh(Repr - old(Repr))
        invariant Reaches(ps0, ops[..i], outs, Pairs())
      {
        ghost var ps := Pairs();
        var out;
        match ops[i] {
          case Put(key, val, mayMake, mayAlloc) =>
            out := Put(key, val, mayMake, mayAlloc);
          case Get(key) =>
            out := Get(key);
            GetKeeps(ps, key, out);
          case Del(key) =>
            out := Remove(key);
        }
        OneMore(ps0, ops, i, outs, ps, out);
        outs := outs + [out];
        i := i + 1;
      }
      assert ops[..i] == ops;
      ItemOf([]);
      RunOnMap(ps0, ops, outs, Pairs());
    }

    lemma GetKeeps(ps: seq<(Key, V)>, key: Key, out: Out<V>)
      ensures Next(ps, Op.Get(key), out) == ps
    {
    }
  }
}
