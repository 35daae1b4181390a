/** The hash table of uthash.h: buckets with chains through hh_prev and hh_next,
    and the insertion-order list through prev and next. */
module UtHash {
  import opened Collections
  import opened Elements
  import opened Bits
  import opened LoadBound
  import opened ListSort

  /** UT_hash_bucket. */
  datatype Bucket<V> = Bucket(hhHead: Elem?<V>, count: nat, expandMult: nat)

  const INITIAL_LOG2: nat := 5

  // ---------- The insertion-order list ----------

  /** head and tail name the ends of the null-ended list s. */
  ghost predicate IsApp<V>(head: Elem?<V>, tail: Elem?<V>, s: seq<Elem<V>>)
    reads Objs(s)`next, Objs(s)`prev
  {
    && Ends(head, tail, s) && NoDup(s) && Linked(s)
    && (s != [] ==> s[|s| - 1].next == null)
  }

  ghost function RemoveAt<T>(s: seq<T>, k: nat): (r: seq<T>)
    requires k < |s|
    ensures |r| == |s| - 1
  {
    s[..k] + s[k + 1..]
  }

  lemma RemoveAtIndex<T>(s: seq<T>, k: nat, i: nat)
    requires k < |s| && i + 1 < |s|
    ensures RemoveAt(s, k)[i] == s[if i < k then i else i + 1]
  {
  }

  ghost function InsertAt<T>(s: seq<T>, k: nat, x: T): seq<T>
    requires k <= |s|
  {
    s[..k] + [x] + s[k..]
  }

  // ---------- The chains ----------

  ghost predicate IsChain<V>(hd: Elem?<V>, c: seq<Elem<V>>)
    reads Objs(c)`hhNext, Objs(c)`hhPrev
  {
    && hd == At(c, 0) && NoDup(c)
    && (forall i {:trigger c[i].hhNext} :: 0 <= i < |c| ==> c[i].hhNext == After(c, i, null))
    && (forall i {:trigger c[i].hhPrev} :: 0 <= i < |c| ==> c[i].hhPrev == Before(c, i))
  }

  ghost function AllOf<V>(chains: seq<seq<Elem<V>>>): set<Elem<V>> {
    set b, x | 0 <= b < |chains| && x in chains[b] :: x
  }

  lemma AllOfAllocated<V>(chains: seq<seq<Elem<V>>>)
    ensures allocated(AllOf(chains))
  {
  }

  /** Bucket b counts and links exactly the chain chains[b]. */
  ghost predicate Filled<V>(bs: seq<Bucket<V>>, chains: seq<seq<Elem<V>>>)
    reads AllOf(chains)`hhNext, AllOf(chains)`hhPrev
  {
    && |bs| == |chains|
    && forall b :: 0 <= b < |bs| ==> bs[b].count == |chains[b]| && IsChain(bs[b].hhHead, chains[b])
  }

  /** Every item of s is in the chain that its hash value selects, and nothing else is. */
  ghost predicate Placed<V>(s: set<Elem<V>>, chains: seq<seq<Elem<V>>>)
    reads s`hashv
  {
    && 0 < |chains|
    && (forall b, x {:trigger x in chains[b]} :: 0 <= b < |chains| && x in chains[b]
          ==> x in s && ToBkt(x.hashv, |chains|) == b)
    && (forall x :: x in s ==> ToBkt(x.hashv, |chains|) < |chains| && x in chains[ToBkt(x.hashv, |chains|)])
  }

  /** The test of HASH_FIND_IN_BKT. */
  ghost predicate Match<V>(x: Elem<V>, key: Key, hashv: nat, keycmp: (Key, Key) -> bool)
    reads x`hashv, x`key
  {
    x.hashv == hashv && |x.key| == |key| && keycmp(x.key, key)
  }

  /** HASH_FIND_IN_BKT. */
  method FindInBkt<V>(hhHead: Elem?<V>, key: Key, hashv: nat, keycmp: (Key, Key) -> bool, ghost c: seq<Elem<V>>)
    returns (out: Elem?<V>)
    requires IsChain(hhHead, c)
    ensures out == null ==> forall x :: x in c ==> !Match(x, key, hashv, keycmp)
    ensures out != null ==> out in c && Match(out, key, hashv, keycmp)
  {
    out := hhHead;
    ghost var i: nat := 0;
    while out != null
      invariant i <= |c| && out == At(c, i)
      invariant forall k :: 0 <= k < i ==> !Match(c[k], key, hashv, keycmp)
      decreases |c| - i
    {
      if out.hashv == hashv && |out.key| == |key| {
        if keycmp(out.key, key) {
          break;
        }
      }
      assert out.hhNext == c[i].hhNext;
      out := out.hhNext;
      i := i + 1;
    }
  }

  /** The linking that HASH_ADD_TO_BKT and HASH_EXPAND_BUCKETS share: the item
      becomes the first of its chain. */
  method LinkFirst<V>(buckets: array<Bucket<V>>, b: nat, x: Elem<V>, ghost c: seq<Elem<V>>)
    requires b < buckets.Length && IsChain(buckets[b].hhHead, c) && x !in c
    modifies buckets, x`hhNext, x`hhPrev, Objs(c)`hhPrev
    ensures IsChain(x, [x] + c)
    ensures buckets[..] == old(buckets[..])[b := old(buckets[b]).(hhHead := x)]
  {
    x.hhNext := buckets[b].hhHead;
    x.hhPrev := null;
    if buckets[b].hhHead != null {
      assert buckets[b].hhHead in c;
      buckets[b].hhHead.hhPrev := x;
    }
    buckets[b] := buckets[b].(hhHead := x);
  }

  /** HASH_DEL_IN_BKT. In the rollback of a failed add it is called for an item
      that has left its chain already, but is still counted. */
  method DelInBkt<V>(buckets: array<Bucket<V>>, b: nat, x: Elem<V>, ghost c: seq<Elem<V>>, ghost present: bool,
                     ghost k: nat)
    requires b < buckets.Length && IsChain(buckets[b].hhHead, c) && 0 < buckets[b].count
    requires if present then k < |c| && c[k] == x else x !in c && x.hhNext == null && x.hhPrev == null
    modifies buckets, Objs(c)`hhNext, Objs(c)`hhPrev
    ensures IsChain(buckets[b].hhHead, if present then RemoveAt(c, k) else c)
    ensures buckets[..] == old(buckets[..])[b := buckets[b]]
    ensures buckets[b].count == old(buckets[b].count) - 1 && buckets[b].expandMult == old(buckets[b].expandMult)
    ensures x.hhNext == old(x.hhNext) && x.hhPrev == old(x.hhPrev)
    ensures !present ==> buckets[b].hhHead == old(buckets[b].hhHead)
  {
    buckets[b] := buckets[b].(count := buckets[b].count - 1);
    if buckets[b].hhHead == x {
      buckets[b] := buckets[b].(hhHead := x.hhNext);
    }
    ghost var p, n := x.hhPrev, x.hhNext;
    if present {
      ChainNeighbours(c, k);
    }
    if x.hhPrev != null {
      x.hhPrev.hhNext := x.hhNext;
    }
    if x.hhNext != null {
      x.hhNext.hhPrev := x.hhPrev;
    }
    if present {
      assert forall i {:trigger c[i].hhNext} :: 0 <= i < |c| ==>
               c[i].hhNext == if i + 1 == k then n else After(c, i, null);
      assert forall i {:trigger c[i].hhPrev} :: 0 <= i < |c| ==> c[i].hhPrev == if i == k + 1 then p else Before(c, i);
      ChainUnlinked(buckets[b].hhHead, c, k);
    }
  }

  lemma ChainNeighbours<V>(c: seq<Elem<V>>, k: nat)
    requires k < |c| && IsChain(c[0], c)
    ensures c[k].hhNext == After(c, k, null) && c[k].hhNext != c[k] && (k + 1 < |c| ==> c[k].hhNext == c[k + 1])
    ensures c[k].hhPrev == Before(c, k) && c[k].hhPrev != c[k] && (0 < k ==> c[k].hhPrev == c[k - 1])
  {
    assert k + 1 < |c| ==> c[k] != c[k + 1];
    assert 0 < k ==> c[k - 1] != c[k];
  }

  lemma ChainUnlinked<V>(hd: Elem?<V>, c: seq<Elem<V>>, k: nat)
    requires NoDup(c) && k < |c| && hd == if k == 0 then After(c, 0, null) else c[0]
    requires forall i {:trigger c[i].hhNext} :: 0 <= i < |c| ==>
               c[i].hhNext == if i + 1 == k then After(c, k, null) else After(c, i, null)
    requires forall i {:trigger c[i].hhPrev} :: 0 <= i < |c| ==>
               c[i].hhPrev == if i == k + 1 then Before(c, k) else Before(c, i)
    ensures IsChain(hd, RemoveAt(c, k))
  {
    var r := RemoveAt(c, k);
    forall i | 0 <= i < |r|
      ensures r[i].hhNext == After(r, i, null) && r[i].hhPrev == Before(r, i)
    {
      var j := if i < k then i else i + 1;
      assert r[i] == c[j];
    }
  }

  // ---------- Redistribution ----------

  /** The chain that bucket b of n gets when the items xs are prepended one by one. */
  ghost function Bin<V>(xs: seq<Elem<V>>, n: nat, b: nat): seq<Elem<V>>
    requires 0 < n
    reads Objs(xs)`hashv
  {
    if xs == [] then []
    else
      var x := xs[|xs| - 1];
      assert Objs(xs[..|xs| - 1]) <= Objs(xs);
      (if ToBkt(x.hashv, n) == b then [x] else []) + Bin(xs[..|xs| - 1], n, b)
  }

  ghost function BinsTo<V>(xs: seq<Elem<V>>, n: nat, m: nat): (bins: seq<seq<Elem<V>>>)
    requires 0 < n
    reads Objs(xs)`hashv
    ensures |bins| == m && forall b :: 0 <= b < m ==> bins[b] == Bin(xs, n, b)
  {
    if m == 0 then [] else BinsTo(xs, n, m - 1) + [Bin(xs, n, m - 1)]
  }

  ghost function Bins<V>(xs: seq<Elem<V>>, n: nat): (bins: seq<seq<Elem<V>>>)
    requires 0 < n
    reads Objs(xs)`hashv
    ensures |bins| == n && forall b :: 0 <= b < n ==> bins[b] == Bin(xs, n, b)
  {
    BinsTo(xs, n, n)
  }

  lemma {:induction false} BinMember<V>(xs: seq<Elem<V>>, n: nat, b: nat, x: Elem<V>)
    requires 0 < n
    ensures x in Bin(xs, n, b) <==> x in xs && ToBkt(x.hashv, n) == b
  {
    if xs != [] {
      BinMember(xs[..|xs| - 1], n, b, x);
    }
  }

  lemma BinsApart<V>(xs: seq<Elem<V>>, n: nat, b: nat, b': nat)
    requires 0 < n && b != b'
    ensures Objs(Bin(xs, n, b)) !! Objs(Bin(xs, n, b')) && Objs(Bin(xs, n, b)) <= Objs(xs)
  {
    forall x | x in Bin(xs, n, b)
      ensures x !in Bin(xs, n, b') && x in xs
    {
      BinMember(xs, n, b, x);
      BinMember(xs, n, b', x);
    }
  }

  lemma BinStep<V>(xs: seq<Elem<V>>, x: Elem<V>, n: nat, b: nat)
    requires 0 < n
    ensures Bin(xs + [x], n, b) == if ToBkt(x.hashv, n) == b then [x] + Bin(xs, n, b) else Bin(xs, n, b)
  {
    assert (xs + [x])[..|xs|] == xs;
  }

  /** The counts exceed ideal by this much in all. */
  function Over(counts: seq<nat>, ideal: nat): nat {
    if counts == [] then 0
    else Over(counts[..|counts| - 1], ideal)
         + (if counts[|counts| - 1] > ideal then counts[|counts| - 1] - ideal else 0)
  }

  lemma {:induction false} OverStep(counts: seq<nat>, b: nat, ideal: nat)
    requires b < |counts|
    ensures Over(counts[b := counts[b] + 1], ideal) == Over(counts, ideal) + if counts[b] + 1 > ideal then 1 else 0
  {
    var k := |counts| - 1;
    var next := counts[b := counts[b] + 1];
    if b < k {
      OverStep(counts[..k], b, ideal);
      assert next[..k] == counts[..k][b := counts[b] + 1];
    } else {
      assert next[..k] == counts[..k];
    }
  }

  function Counts<V>(bs: seq<Bucket<V>>): (r: seq<nat>)
    ensures |r| == |bs| && forall b :: 0 <= b < |bs| ==> r[b] == bs[b].count
  {
    seq(|bs|, b requires 0 <= b < |bs| => bs[b].count)
  }

  function Mults<V>(bs: seq<Bucket<V>>): (r: seq<nat>)
    ensures |r| == |bs| && forall b :: 0 <= b < |bs| ==> r[b] == bs[b].expandMult
  {
    seq(|bs|, b requires 0 <= b < |bs| => bs[b].expandMult)
  }

  ghost predicate Banded<V>(bs: seq<Bucket<V>>, ideal: nat) {
    forall b :: 0 <= b < |bs| ==>
      InBand(bs[b].count, bs[b].expandMult, ideal) && IsMult(bs[b].count, bs[b].expandMult, ideal)
  }

  /** The multipliers and the number of items beyond the ideal length are up to date. */
  ghost predicate Numbered<V>(bs: seq<Bucket<V>>, ideal: nat, nonideal: nat) {
    Banded(bs, ideal) && nonideal == Over(Counts(bs), ideal)
  }

  /** The new buckets link and count exactly the items of done. */
  ghost predicate Spread<V>(bs: seq<Bucket<V>>, done: seq<Elem<V>>, n: nat)
    requires 0 < n
    reads Objs(done)`hhNext, Objs(done)`hhPrev, Objs(done)`hashv
  {
    && |bs| == n && NoDup(done)
    && forall b :: 0 <= b < n ==>
         && Objs(Bin(done, n, b)) <= Objs(done)
         && bs[b].count == |Bin(done, n, b)| && IsChain(bs[b].hhHead, Bin(done, n, b))
  }

  /** The counting part of the inner loop of HASH_EXPAND_BUCKETS. */
  method CountItem<V>(bs: array<Bucket<V>>, b: nat, ideal: nat, nonideal: nat) returns (nonideal': nat)
    requires b < bs.Length && 0 < ideal && Numbered(bs[..], ideal, nonideal)
    modifies bs
    ensures Numbered(bs[..], ideal, nonideal')
    ensures bs[..] == old(bs[..])[b := bs[b]]
    ensures bs[b].count == old(bs[b].count) + 1 && bs[b].hhHead == old(bs[b].hhHead)
    ensures bs[b].expandMult == old(bs[b].expandMult)
                                + if bs[b].count > ideal && bs[b].count > old(bs[b].expandMult) * ideal then 1 else 0
  {
    hide InBand, IsMult, Over;
    nonideal' := nonideal;
    ghost var bs0 := bs[..];
    bs[b] := bs[b].(count := bs[b].count + 1);
    if bs[b].count > ideal {
      nonideal' := nonideal' + 1;
      if bs[b].count > bs[b].expandMult * ideal {
        bs[b] := bs[b].(expandMult := bs[b].expandMult + 1);
      }
    }
    NextInBand(bs0[b].count, bs0[b].expandMult, ideal);
    assert Counts(bs[..]) == Counts(bs0)[b := bs0[b].count + 1];
    OverStep(Counts(bs0), b, ideal);
  }

  /** The body of the inner loop of HASH_EXPAND_BUCKETS: one item goes to its new bucket. */
  method MoveItem<V>(bs: array<Bucket<V>>, x: Elem<V>, n: nat, ideal: nat, nonideal: nat, ghost done: seq<Elem<V>>)
    returns (nonideal': nat)
    requires 0 < n && bs.Length == n && 0 < ideal && ToBkt(x.hashv, n) < n
    requires Spread(bs[..], done, n) && Numbered(bs[..], ideal, nonideal) && x !in done
    modifies bs, x`hhNext, x`hhPrev, Objs(done)`hhPrev
    ensures Spread(bs[..], done + [x], n) && Numbered(bs[..], ideal, nonideal')
  {
    hide IsChain, Numbered, Bin, ToBkt, NoDup;
    var b := ToBkt(x.hashv, n);
    ghost var bs0, c := bs[..], Bin(done, n, b);
    assert IsChain(bs0[b].hhHead, c) && Objs(c) <= Objs(done);
    assert x !in c by {
      BinMember(done, n, b, x);
    }
    forall b' | 0 <= b' < n && b' != b
      ensures Objs(Bin(done, n, b')) !! Objs(c) && x !in Bin(done, n, b')
    {
      BinsApart(done, n, b', b);
      BinMember(done, n, b', x);
    }
    nonideal' := CountItem(bs, b, ideal, nonideal);
    ghost var bs1 := bs[..];
    LinkFirst(bs, b, x, c);
    NumberedSame(bs1, bs[..], ideal, nonideal');
    forall b' | 0 <= b' < n
      ensures Objs(Bin(done + [x], n, b')) <= Objs(done + [x])
      ensures bs[b'].count == |Bin(done + [x], n, b')| && IsChain(bs[b'].hhHead, Bin(done + [x], n, b'))
    {
      BinStep(done, x, n, b');
      assert Objs(Bin(done, n, b')) <= Objs(done) <= Objs(done + [x]);
    }
    NoDupAppend(done, x);
  }

  lemma NoDupAppend<T>(s: seq<T>, x: T)
    requires NoDup(s) && x !in s
    ensures NoDup(s + [x])
  {
  }

  lemma NumberedSame<V>(bs: seq<Bucket<V>>, bs': seq<Bucket<V>>, ideal: nat, nonideal: nat)
    requires Numbered(bs, ideal, nonideal) && |bs| == |bs'|
    requires forall b :: 0 <= b < |bs| ==> bs'[b].count == bs[b].count && bs'[b].expandMult == bs[b].expandMult
    ensures Numbered(bs', ideal, nonideal)
  {
    assert Counts(bs) == Counts(bs');
  }

  ghost predicate InRange<V>(s: set<Elem<V>>, n: nat)
    requires 0 < n
    reads s`hashv
  {
    forall x :: x in s ==> ToBkt(x.hashv, n) < n
  }

  /** The inner loop of HASH_EXPAND_BUCKETS: the items of one old chain are moved
      from first to last; each next pointer is read before the item is relinked. */
  method MoveChain<V>(bs: array<Bucket<V>>, hd: Elem?<V>, n: nat, ideal: nat, nonideal: nat,
                      ghost c: seq<Elem<V>>, ghost done: seq<Elem<V>>)
    returns (nonideal': nat)
    requires 0 < n && bs.Length == n && 0 < ideal && InRange(Objs(c), n) && IsChain(hd, c)
    requires Spread(bs[..], done, n) && Numbered(bs[..], ideal, nonideal) && Objs(c) !! Objs(done)
    modifies bs, Objs(c)`hhNext, Objs(c)`hhPrev, Objs(done)`hhPrev
    ensures Spread(bs[..], done + c, n) && Numbered(bs[..], ideal, nonideal')
  {
    hide Spread, Numbered, ToBkt, Bin;
    nonideal' := nonideal;
    var thh := hd;
    ghost var i: nat := 0;
    assert done + c[..0] == done;
    while thh != null
      invariant i <= |c| && thh == At(c, i)
      invariant Spread(bs[..], done + c[..i], n) && Numbered(bs[..], ideal, nonideal')
      invariant forall k {:trigger c[k].hhNext} :: i <= k < |c| ==> c[k].hhNext == After(c, k, null)
      decreases |c| - i
    {
      var nxt := thh.hhNext;
      assert nxt == c[i].hhNext;
      ghost var done' := done + c[..i];
      MovedApart(done, c, i);
      nonideal' := MoveItem(bs, thh, n, ideal, nonideal', done');
      thh := nxt;
      i := i + 1;
    }
    assert c[..i] == c;
  }

  lemma MovedApart<V>(done: seq<Elem<V>>, c: seq<Elem<V>>, i: nat)
    requires i < |c| && NoDup(c) && Objs(c) !! Objs(done)
    ensures c[i] !in done + c[..i] && c[i] in Objs(c)
    ensures Objs(done + c[..i]) <= Objs(done) + Objs(c)
    ensures done + c[..i + 1] == done + c[..i] + [c[i]]
  {
    assert c[i] !in Objs(done);
  }

  /** Different chains share no item. */
  ghost predicate Disjoint<V>(chains: seq<seq<Elem<V>>>) {
    forall b1, b2 :: 0 <= b1 < b2 < |chains| ==> Objs(chains[b1]) !! Objs(chains[b2])
  }

  /** The outer loop of HASH_EXPAND_BUCKETS. */
  method Redistribute<V>(old_: array<Bucket<V>>, bs: array<Bucket<V>>, n: nat, ideal: nat,
                         ghost chains: seq<seq<Elem<V>>>)
    returns (nonideal: nat)
    requires 0 < n == bs.Length && old_ != bs && 0 < ideal
    requires Filled(old_[..], chains) && Disjoint(chains) && InRange(AllOf(chains), n)
    requires Spread(bs[..], [], n) && Numbered(bs[..], ideal, 0)
    modifies bs, AllOf(chains)`hhNext, AllOf(chains)`hhPrev
    ensures Spread(bs[..], Flat(chains), n) && Numbered(bs[..], ideal, nonideal)
  {
    hide Spread, Numbered, ToBkt, Bin, IsChain;
    nonideal := 0;
    var b := 0;
    ghost var done: seq<Elem<V>> := [];
    while b < old_.Length
      invariant 0 <= b <= old_.Length && done == Flat(chains[..b])
      invariant Spread(bs[..], done, n) && Numbered(bs[..], ideal, nonideal)
      invariant forall b' :: b <= b' < old_.Length ==> IsChain(old_[b'].hhHead, chains[b'])
      invariant old_[..] == old(old_[..])
    {
      ChainsApart(chains, b);
      assert IsChain(old_[b].hhHead, chains[b]);
      nonideal := MoveChain(bs, old_[b].hhHead, n, ideal, nonideal, chains[b], done);
      b, done := b + 1, done + chains[b];
    }
    assert chains[..b] == chains;
  }

  lemma ChainsApart<V>(chains: seq<seq<Elem<V>>>, b: nat)
    requires b < |chains| && Disjoint(chains)
    ensures Objs(chains[b]) !! Objs(Flat(chains[..b]))
    ensures Objs(chains[b]) <= AllOf(chains) && Objs(Flat(chains[..b])) <= AllOf(chains)
    ensures forall b' :: b < b' < |chains| ==>
              Objs(chains[b']) !! Objs(chains[b]) && Objs(chains[b']) !! Objs(Flat(chains[..b]))
    ensures Flat(chains[..b + 1]) == Flat(chains[..b]) + chains[b]
  {
    assert chains[..b + 1][..b] == chains[..b];
    forall b', x | b <= b' < |chains| && x in Flat(chains[..b])
      ensures x !in chains[b'] && x in AllOf(chains)
    {
      var b0 := FlatIndex(chains[..b], x);
      assert x in Objs(chains[b0]);
    }
  }

  // ---------- Facts about chains as a whole ----------

  lemma PlacedMembers<V>(mem: set<Elem<V>>, chains: seq<seq<Elem<V>>>)
    requires Placed(mem, chains)
    ensures AllOf(chains) == mem && Disjoint(chains)
  {
    forall b1, b2, x | 0 <= b1 < b2 < |chains| && x in chains[b1]
      ensures x !in chains[b2]
    {
    }
  }

  lemma {:induction false} OverNothing(counts: seq<nat>, ideal: nat)
    requires forall b :: 0 <= b < |counts| ==> counts[b] == 0
    ensures Over(counts, ideal) == 0 && Sum(counts) == 0
  {
    if counts != [] {
      OverNothing(counts[..|counts| - 1], ideal);
    }
  }

  /** Zeroed buckets are what the redistribution starts from. */
  lemma SpreadNothing<V>(bs: seq<Bucket<V>>, n: nat, ideal: nat)
    requires 0 < n == |bs| && forall b :: 0 <= b < n ==> bs[b] == Bucket(null, 0, 0)
    ensures Spread(bs, [], n) && Numbered(bs, ideal, 0)
  {
    OverNothing(Counts(bs), ideal);
  }

  /** After the redistribution every item is where the doubled mask puts it. */
  lemma SpreadPlaces<V>(bs: seq<Bucket<V>>, chains: seq<seq<Elem<V>>>, mem: set<Elem<V>>, n: nat)
    requires 0 < n && Placed(mem, chains) && Spread(bs, Flat(chains), n) && InRange(mem, n)
    ensures Filled(bs, Bins(Flat(chains), n)) && Placed(mem, Bins(Flat(chains), n))
  {
    hide IsChain, Bin, ToBkt, Flat;
    var xs, bins := Flat(chains), Bins(Flat(chains), n);
    forall b, x | 0 <= b < n && x in bins[b]
      ensures x in mem && ToBkt(x.hashv, n) == b
    {
      assert bins[b] == Bin(xs, n, b);
      BinMember(xs, n, b, x);
      var b0 := FlatIndex(chains, x);
    }
    forall x | x in mem
      ensures ToBkt(x.hashv, n) < n && x in bins[ToBkt(x.hashv, n)]
    {
      FlatHas(chains, ToBkt(x.hashv, |chains|), x);
      BinMember(xs, n, ToBkt(x.hashv, n), x);
    }
  }

  /** An item of new bucket b comes from old bucket b or from b minus the old number of buckets. */
  lemma MovesToPair<V>(mem: set<Elem<V>>, chains: seq<seq<Elem<V>>>, k: nat, b: nat, x: Elem<V>)
    requires |chains| == Pow2(k) && Placed(mem, chains)
    requires x in Bin(Flat(chains), Pow2(k + 1), b)
    ensures exists b0 :: 0 <= b0 < |chains| && x in chains[b0] && (b == b0 || b == b0 + |chains|)
  {
    BinMember(Flat(chains), Pow2(k + 1), b, x);
    var b0 := FlatIndex(chains, x);
    DoublingMoves(x.hashv, k);
  }

  lemma {:induction false} CardOfNoDup<T>(s: seq<T>, m: set<T>)
    requires NoDup(s) && forall x :: x in s <==> x in m
    ensures |m| == |s|
  {
    if s != [] {
      var k := |s| - 1;
      CardOfNoDup(s[..k], m - {s[k]});
    }
  }

  lemma LastChain<V>(chains: seq<seq<Elem<V>>>)
    requires chains != [] && Disjoint(chains)
    ensures var k := |chains| - 1;
            && AllOf(chains) == AllOf(chains[..k]) + Objs(chains[k])
            && AllOf(chains[..k]) !! Objs(chains[k]) && Disjoint(chains[..k])
  {
    var k := |chains| - 1;
    forall x
      ensures x in AllOf(chains) <==> x in AllOf(chains[..k]) || x in Objs(chains[k])
    {
      if x in AllOf(chains) {
        var b :| 0 <= b < |chains| && x in chains[b];
        assert b < k ==> x in chains[..k][b];
      }
      if x in AllOf(chains[..k]) {
        var b :| 0 <= b < k && x in chains[..k][b];
        assert x in chains[b];
      }
    }
    forall x | x in AllOf(chains[..k])
      ensures x !in Objs(chains[k])
    {
      var b :| 0 <= b < k && x in chains[..k][b];
      assert x in Objs(chains[b]);
    }
  }

  /** Each item is counted in exactly one bucket. */
  lemma {:induction false} CountsAddUp<V>(bs: seq<Bucket<V>>, chains: seq<seq<Elem<V>>>)
    requires |bs| == |chains| && Disjoint(chains)
    requires forall b :: 0 <= b < |bs| ==> bs[b].count == |chains[b]| && NoDup(chains[b])
    ensures Sum(Counts(bs)) == |AllOf(chains)|
  {
    hide AllOf, Disjoint, Objs;
    if bs == [] {
      NoChains(chains);
    } else {
      var k := |bs| - 1;
      LastChain(chains);
      CountsAddUp(bs[..k], chains[..k]);
      assert Counts(bs)[..k] == Counts(bs[..k]);
      ObjsCount(chains[k]);
    }
  }

  lemma NoChains<V>(chains: seq<seq<Elem<V>>>)
    requires chains == []
    ensures AllOf(chains) == {}
  {
  }

  lemma ObjsCount<V>(c: seq<Elem<V>>)
    requires NoDup(c)
    ensures |Objs(c)| == |c|
  {
    CardOfNoDup(c, Objs(c));
  }

  lemma CeilPositive(r: nat, a: nat, n: nat)
    requires IsCeil(r, a, n) && 0 < a
    ensures 0 < r
  {
  }

  lemma AllInRange<V>(mem: set<Elem<V>>, k: nat)
    ensures InRange(mem, Pow2(k))
  {
    forall x | x in mem
      ensures ToBkt(x.hashv, Pow2(k)) < Pow2(k)
    {
      ToBktInRange(x.hashv, k);
    }
  }

  /** The part of HASH_EXPAND_BUCKETS that builds twice as many buckets. */
  method Rebuild<V>(buckets: array<Bucket<V>>, numBuckets: nat, log2: nat, numItems: nat,
                    ghost mem: set<Elem<V>>, ghost chains: seq<seq<Elem<V>>>)
    returns (bs: array<Bucket<V>>, ideal: nat, nonideal: nat, ghost bins: seq<seq<Elem<V>>>)
    requires buckets.Length == numBuckets == Pow2(log2) && 0 < numItems
    requires Filled(buckets[..], chains) && Placed(mem, chains) && AllOf(chains) == mem
    modifies mem`hhNext, mem`hhPrev
    ensures fresh(bs) && bs.Length == numBuckets * 2 == Pow2(log2 + 1)
    ensures bins == Bins(Flat(chains), numBuckets * 2)
    ensures Filled(bs[..], bins) && Placed(mem, bins) && AllOf(bins) == mem
    ensures IsCeil(ideal, numItems, numBuckets * 2) && Numbered(bs[..], ideal, nonideal)
  {
    hide *;
    var n := numBuckets * 2;
    bs := new Bucket<V>[n](_ => Bucket(null, 0, 0));
    Pow2Step(log2 + 1);
    ideal := ShiftRight(numItems, log2 + 1) + (if BitAnd(numItems, numBuckets * 2 - 1) != 0 then 1 else 0);
    IdealIsCeil(numItems, log2 + 1, ideal);
    CeilPositive(ideal, numItems, n);
    SpreadNothing(bs[..], n, ideal);
    PlacedMembers(mem, chains);
    AllInRange(mem, log2 + 1);
    nonideal := Redistribute(buckets, bs, n, ideal, chains);
    SpreadPlaces(bs[..], chains, mem, n);
    bins := Bins(Flat(chains), n);
    PlacedMembers(mem, bins);
  }

  lemma IdealIsCeil(a: nat, k: nat, ideal: nat)
    requires ideal == ShiftRight(a, k) + (if BitAnd(a, Pow2(k) - 1) != 0 then 1 else 0)
    ensures IsCeil(ideal, a, Pow2(k))
  {
    ShiftMaskCeilCorrect(a, k);
  }

  lemma RemoveAtMember<T>(s: seq<T>, k: nat, y: T)
    requires NoDup(s) && k < |s|
    ensures y in RemoveAt(s, k) <==> y in s && y != s[k]
  {
    if y in s && y != s[k] {
      var i :| 0 <= i < |s| && s[i] == y;
      assert RemoveAt(s, k)[if i < k then i else i - 1] == y;
    }
  }

  lemma PlacedWithout<V>(mem: set<Elem<V>>, chains: seq<seq<Elem<V>>>, b: nat, k: nat)
    requires Placed(mem, chains) && b < |chains| && k < |chains[b]| && NoDup(chains[b])
    ensures var chains' := chains[b := RemoveAt(chains[b], k)];
            Placed(mem - {chains[b][k]}, chains') && AllOf(chains') == mem - {chains[b][k]}
  {
    hide ToBkt, RemoveAt;
    var x0, n := chains[b][k], |chains|;
    var mem', chains' := mem - {x0}, chains[b := RemoveAt(chains[b], k)];
    assert x0 in chains[b];
    forall b', x {:trigger x in chains'[b']} | 0 <= b' < n && x in chains'[b']
      ensures x in mem' && ToBkt(x.hashv, n) == b'
    {
      RemoveAtMember(chains[b], k, x);
      assert x in chains[b'];
    }
    forall x | x in mem'
      ensures ToBkt(x.hashv, n) < n && x in chains'[ToBkt(x.hashv, n)]
    {
      RemoveAtMember(chains[b], k, x);
      assert x in chains[ToBkt(x.hashv, n)];
    }
    PlacedMembers(mem', chains');
  }

  lemma PlacedWith<V>(mem: set<Elem<V>>, chains: seq<seq<Elem<V>>>, b: nat, x0: Elem<V>)
    requires Placed(mem, chains) && b < |chains| && x0 !in mem && ToBkt(x0.hashv, |chains|) == b
    ensures var chains' := chains[b := [x0] + chains[b]];
            Placed(mem + {x0}, chains') && AllOf(chains') == mem + {x0}
  {
    hide ToBkt;
    var n := |chains|;
    var mem', chains' := mem + {x0}, chains[b := [x0] + chains[b]];
    forall b', x {:trigger x in chains'[b']} | 0 <= b' < n && x in chains'[b']
      ensures x in mem' && ToBkt(x.hashv, n) == b'
    {
      assert x in chains[b'] || x == x0;
    }
    forall x | x in mem'
      ensures ToBkt(x.hashv, n) < n && x in chains'[ToBkt(x.hashv, n)]
    {
      assert x == x0 || x in chains[ToBkt(x.hashv, n)];
    }
    PlacedMembers(mem', chains');
  }

  /** Another chain in bucket b leaves the other buckets as they are. */
  lemma FilledUpdate<V>(bs: seq<Bucket<V>>, chains: seq<seq<Elem<V>>>, b: nat, bkt: Bucket<V>, c: seq<Elem<V>>)
    requires b < |bs| == |chains| && IsChain(bkt.hhHead, c) && bkt.count == |c|
    requires forall b' :: 0 <= b' < |bs| && b' != b ==>
               bs[b'].count == |chains[b']| && IsChain(bs[b'].hhHead, chains[b'])
    ensures Filled(bs[b := bkt], chains[b := c])
  {
  }
}
