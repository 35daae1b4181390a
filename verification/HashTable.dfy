/** The operations of uthash.h on a whole table: find, add, add in order, delete,
    expansion, rollback and sort. */
module HashTable {
  import opened Collections
  import opened Elements
  import opened Bits
  import opened LoadBound
  import opened ListSort
  import opened UtHash
  import HashList
  import MergeSort

  /** Every bucket is below the cap that the last expansion left it. */
  ghost predicate LoadOk<V>(bs: seq<Bucket<V>>, starts: seq<nat>, ideal: nat, n0: nat) {
    && |bs| == |starts|
    && JustExpanded(starts, Mults(bs), ideal, n0)
    && n0 <= 20 * |bs| + 1
    && forall b :: 0 <= b < |bs| ==> bs[b].count <= Cap(starts[b], bs[b].expandMult)
  }

  /** A bucket may change its count below its cap. */
  lemma StillLoadOk<V>(bs: seq<Bucket<V>>, b: nat, bkt: Bucket<V>, starts: seq<nat>, ideal: nat, n0: nat)
    requires LoadOk(bs, starts, ideal, n0) && b < |bs| && bkt.expandMult == bs[b].expandMult
    requires bkt.count <= bs[b].count || bkt.count < (bkt.expandMult + 1) * THRESH
    ensures LoadOk(bs[b := bkt], starts, ideal, n0)
  {
    assert Mults(bs[b := bkt]) == Mults(bs);
  }

  /** The state just after an expansion is within the caps. */
  lemma JustLoaded<V>(bs: seq<Bucket<V>>, chains: seq<seq<Elem<V>>>, ideal: nat, nonideal: nat, mem: set<Elem<V>>)
    requires Filled(bs, chains) && Placed(mem, chains) && AllOf(chains) == mem && |mem| <= 20 * |bs| + 1
    requires IsCeil(ideal, |mem|, |bs|) && Numbered(bs, ideal, nonideal)
    ensures LoadOk(bs, Counts(bs), ideal, |mem|)
  {
    PlacedMembers(mem, chains);
    CountsAddUp(bs, chains);
  }

  /** The numbers a table keeps about its buckets. */
  datatype Numbers = Numbers(numBuckets: nat, log2: nat, ideal: nat, nonideal: nat, ineff: nat, noexpand: bool,
                             counts: seq<nat>, mults: seq<nat>)

  /** What an add does to them. One that is not due to expand only counts the item in its
      bucket; one that is doubles the table and computes everything anew. */
  ghost predicate Stepped(was: Numbers, now: Numbers, items: nat, slot: nat, due: bool) {
    if due then
      && now.numBuckets == 2 * was.numBuckets == |now.counts| == |now.mults| && now.log2 == was.log2 + 1
      && (now.ideal - 1) * now.numBuckets < items <= now.ideal * now.numBuckets
      && now.nonideal == Over(now.counts, now.ideal)
      && now.ineff == (if now.nonideal > items / 2 then was.ineff + 1 else 0)
      && now.noexpand == (was.noexpand || now.ineff > 1)
      && forall b :: 0 <= b < now.numBuckets ==>
           var count, mult := now.counts[b], now.mults[b];
           if count <= now.ideal then mult == 0
           else if now.ideal == 1 then mult == count - 1
           else if count == now.ideal + 1 then mult == 1
           else (mult - 1) * now.ideal < count <= mult * now.ideal
    else
      slot < |was.counts| && now == was.(counts := was.counts[slot := was.counts[slot] + 1])
  }

  /** The user's head pointer together with the UT_hash_table it leads to. The table
      is allocated by the first add and freed with the last item, so its fields
      mean nothing while head is null. */
  class Table<V> {
    const hash: Key -> nat                // HASH_FUNCTION
    const keycmp: (Key, Key) -> bool      // HASH_KEYCMP(a, b, n) == 0

    var head: Elem?<V>
    var tail: Elem?<V>
    var buckets: array<Bucket<V>>
    var numBuckets: nat
    var log2NumBuckets: nat
    var numItems: nat
    var idealChainMaxlen: nat
    var nonidealItems: nat
    var ineffExpands: nat
    var noexpand: bool

    ghost var items: seq<Elem<V>>         // in insertion order
    ghost var chains: seq<seq<Elem<V>>>   // bucket by bucket
    ghost var starts: seq<nat>            // the bucket counts just after the last expansion
    ghost var n0: nat                     // the number of items then

    constructor (hash: Key -> nat, keycmp: (Key, Key) -> bool)
      ensures this.hash == hash && this.keycmp == keycmp
      ensures Valid() && items == [] && fresh(buckets) && chains == []
    {
      this.hash, this.keycmp := hash, keycmp;
      head, tail, items := null, null, [];
      numBuckets, log2NumBuckets, numItems, idealChainMaxlen, nonidealItems, ineffExpands, noexpand
        := 0, 0, 0, 0, 0, 0, false;
      buckets := new Bucket<V>[0];
      chains, starts, n0 := [], [], 0;
    }

    ghost function Now(): Numbers
      reads `buckets, `numBuckets, `log2NumBuckets, `idealChainMaxlen, `nonidealItems, `ineffExpands, `noexpand, buckets
    {
      Numbers(numBuckets, log2NumBuckets, idealChainMaxlen, nonidealItems, ineffExpands, noexpand,
              Counts(buckets[..]), Mults(buckets[..]))
    }

    lemma NowIs()
      ensures Now() == Numbers(numBuckets, log2NumBuckets, idealChainMaxlen, nonidealItems, ineffExpands, noexpand,
                               Counts(buckets[..]), Mults(buckets[..]))
    {
    }

    /** The buckets hold exactly the items of mem, each where its hash value belongs. */
    ghost predicate Stored(mem: set<Elem<V>>)
      reads `buckets, `numBuckets, `log2NumBuckets, `chains, buckets
      reads mem`hashv, AllOf(chains)`hhNext, AllOf(chains)`hhPrev
    {
      && buckets.Length == numBuckets == Pow2(log2NumBuckets)
      && Filled(buckets[..], chains) && Placed(mem, chains) && AllOf(chains) == mem
    }

    /** Unless expansion has been inhibited, every bucket is below its cap. */
    ghost predicate Loaded()
      reads `buckets, `noexpand, `starts, `idealChainMaxlen, `n0, buckets
    {
      !noexpand ==> LoadOk(buckets[..], starts, idealChainMaxlen, n0)
    }

    /** What HASH_FSCK checks, and more: both views hold the same items. */
    ghost predicate Valid()
      reads this, buckets, Objs(items)`next, Objs(items)`prev, Objs(items)`hashv
      reads Objs(items)`hhNext, Objs(items)`hhPrev
    {
      && (head == null <==> items == [])
      && (items != [] ==>
            && AllOf(chains) == Objs(items)
            && IsApp(head, tail, items) && Stored(Objs(items)) && numItems == |items| && Loaded())
    }

    // ---------- Lookup ----------

    /** HASH_FIND_BYHASHVALUE. */
    method FindByHashValue(key: Key, hashv: nat) returns (out: Elem?<V>)
      requires Valid()
      ensures out == null ==>
                forall x :: x in items ==> !(x.hashv == hashv && |x.key| == |key| && keycmp(x.key, key))
      ensures out != null ==> out in items && out.hashv == hashv && |out.key| == |key| && keycmp(out.key, key)
    {
      out := null;
      if head != null {
        var b := ToBkt(hashv, numBuckets);
        ToBktInRange(hashv, log2NumBuckets);
        out := FindInBkt(buckets[b].hhHead, key, hashv, keycmp, chains[b]);
        assert out != null ==> out in Objs(items);
      }
    }

    /** HASH_FIND. */
    method Find(key: Key) returns (out: Elem?<V>)
      requires Valid()
      ensures out == null ==>
                forall x :: x in items ==> !(x.hashv == hash(key) && |x.key| == |key| && keycmp(x.key, key))
      ensures out != null ==> out in items && out.hashv == hash(key) && |out.key| == |key| && keycmp(out.key, key)
    {
      out := null;
      if head != null {
        out := FindByHashValue(key, hash(key));
      }
    }

    // ---------- Expansion ----------

    /** HASH_EXPAND_BUCKETS. mayAlloc says whether the allocation succeeds. */
    method ExpandBuckets(mayAlloc: bool, ghost mem: set<Elem<V>>) returns (oomed: bool)
      requires Stored(mem) && numItems == |mem| && 0 < numItems <= 40 * numBuckets + 1
      modifies this, mem`hhNext, mem`hhPrev
      ensures oomed == !mayAlloc
      ensures oomed ==> unchanged(this) && unchanged(mem) && Stored(mem)
      ensures head == old(head) && tail == old(tail) && items == old(items) && numItems == old(numItems)
      ensures !oomed ==>
                && fresh(buckets) && Stored(mem) && Loaded()
                && numBuckets == 2 * old(numBuckets) && log2NumBuckets == old(log2NumBuckets) + 1
                && chains == Bins(Flat(old(chains)), numBuckets)
      ensures !oomed ==>
                && (idealChainMaxlen - 1) * numBuckets < numItems <= idealChainMaxlen * numBuckets
                && nonidealItems == Over(Counts(buckets[..]), idealChainMaxlen)
                && ineffExpands == (if nonidealItems > numItems / 2 then old(ineffExpands) + 1 else 0)
                && noexpand == (old(noexpand) || ineffExpands > 1)
      ensures !oomed ==> forall b :: 0 <= b < numBuckets ==>
                var count, mult, ideal := buckets[b].count, buckets[b].expandMult, idealChainMaxlen;
                if count <= ideal then mult == 0
                else if ideal == 1 then mult == count - 1
                else if count == ideal + 1 then mult == 1
                else (mult - 1) * ideal < count <= mult * ideal
      ensures !oomed ==> Stepped(old(Now()), Now(), numItems, 0, true)
    {
      hide *;
      if !mayAlloc {
        oomed := true;
        return;
      }
      oomed := false;
      StoredParts(mem);
      NowIs();
      ghost var was := Now();
      var newBuckets, ideal, nonideal;
      ghost var bins;
      newBuckets, ideal, nonideal, bins := Rebuild(buckets, numBuckets, log2NumBuckets, numItems, mem, chains);
      ObjsAllocated(Flat(chains));
      Install(newBuckets, ideal, nonideal, bins, mem);
      JudgeExpansion(mem);
      Expanded(was, mem);
    }

    /** What the new buckets mean in numbers. */
    lemma Expanded(was: Numbers, mem: set<Elem<V>>)
      requires Stored(mem) && 0 < numItems && IsCeil(idealChainMaxlen, numItems, numBuckets)
      requires Numbered(buckets[..], idealChainMaxlen, nonidealItems)
      requires numBuckets == 2 * was.numBuckets && log2NumBuckets == was.log2 + 1
      requires ineffExpands == (if nonidealItems > numItems / 2 then was.ineff + 1 else 0)
      requires noexpand == (was.noexpand || ineffExpands > 1)
      ensures (idealChainMaxlen - 1) * numBuckets < numItems <= idealChainMaxlen * numBuckets
      ensures nonidealItems == Over(Counts(buckets[..]), idealChainMaxlen)
      ensures buckets.Length == numBuckets
      ensures forall b :: 0 <= b < numBuckets ==>
                var count, mult, ideal := buckets[b].count, buckets[b].expandMult, idealChainMaxlen;
                if count <= ideal then mult == 0
                else if ideal == 1 then mult == count - 1
                else if count == ideal + 1 then mult == 1
                else (mult - 1) * ideal < count <= mult * ideal
      ensures Stepped(was, Now(), numItems, 0, true)
    {
      hide Over, InBand, Pow2, Filled, Placed, AllOf, Counts, Mults;
      CeilPositive(idealChainMaxlen, numItems, numBuckets);
      assert Counts(buckets[..]) == Now().counts && Mults(buckets[..]) == Now().mults;
      forall b | 0 <= b < numBuckets
        ensures IsMult(buckets[b].count, buckets[b].expandMult, idealChainMaxlen)
        ensures Now().counts[b] == buckets[b].count && Now().mults[b] == buckets[b].expandMult
      {
        assert buckets[..][b] == buckets[b];
      }
    }

    /** The end of HASH_EXPAND_BUCKETS: the new buckets replace the old ones. */
    method Install(newBuckets: array<Bucket<V>>, ideal: nat, nonideal: nat, ghost bins: seq<seq<Elem<V>>>,
                   ghost mem: set<Elem<V>>)
      requires newBuckets.Length == numBuckets * 2 == Pow2(log2NumBuckets + 1)
      requires Filled(newBuckets[..], bins) && Placed(mem, bins) && AllOf(bins) == mem
      requires numItems == |mem| <= 40 * numBuckets + 1
      requires IsCeil(ideal, numItems, numBuckets * 2) && Numbered(newBuckets[..], ideal, nonideal)
      modifies `numBuckets, `log2NumBuckets, `buckets, `chains, `idealChainMaxlen, `nonidealItems, `starts, `n0
      ensures buckets == newBuckets && chains == bins && idealChainMaxlen == ideal && nonidealItems == nonideal
      ensures numBuckets == 2 * old(numBuckets) && log2NumBuckets == old(log2NumBuckets) + 1
      ensures Stored(mem) && LoadOk(buckets[..], starts, idealChainMaxlen, n0)
    {
      hide *;
      JustLoaded(newBuckets[..], bins, ideal, nonideal, mem);
      numBuckets := numBuckets * 2;
      log2NumBuckets := log2NumBuckets + 1;
      buckets, chains := newBuckets, bins;
      idealChainMaxlen, nonidealItems := ideal, nonideal;
      starts, n0 := Counts(newBuckets[..]), numItems;
      PartsStored(mem);
    }

    /** An expansion that left more than half of the items surplus counts as ineffective,
        and two of them in a row inhibit further ones. */
    method JudgeExpansion(ghost mem: set<Elem<V>>)
      requires Stored(mem) && LoadOk(buckets[..], starts, idealChainMaxlen, n0)
      modifies `ineffExpands, `noexpand
      ensures Stored(mem) && Loaded()
      ensures ineffExpands == (if nonidealItems > numItems / 2 then old(ineffExpands) + 1 else 0)
      ensures noexpand == (old(noexpand) || ineffExpands > 1)
    {
      HalfIs(numItems);
      hide *;
      AllOfAllocated(chains);
      ineffExpands := if nonidealItems > ShiftRight(numItems, 1) then ineffExpands + 1 else 0;
      if ineffExpands > 1 {
        noexpand := true;
      }
      LoadedIf();
    }

    lemma HalfIs(a: nat)
      ensures ShiftRight(a, 1) == a / 2
    {
      MaskIsRemainder(a, 1);
    }

    lemma LoadedIf()
      requires !noexpand ==> LoadOk(buckets[..], starts, idealChainMaxlen, n0)
      ensures Loaded()
    {
    }

    lemma StoredParts(mem: set<Elem<V>>)
      requires Stored(mem)
      ensures buckets.Length == numBuckets == Pow2(log2NumBuckets)
      ensures Filled(buckets[..], chains) && Placed(mem, chains) && AllOf(chains) == mem
    {
    }

    lemma PartsStored(mem: set<Elem<V>>)
      requires buckets.Length == numBuckets == Pow2(log2NumBuckets)
      requires Filled(buckets[..], chains) && Placed(mem, chains) && AllOf(chains) == mem
      ensures Stored(mem)
    {
    }

    /** While expansion is not inhibited a table holds at most forty items a bucket. */
    lemma LoadFactor(mem: set<Elem<V>>)
      requires Stored(mem) && Loaded() && !noexpand
      ensures |mem| <= 40 * numBuckets
    {
      PlacedMembers(mem, chains);
      CountsAddUp(buckets[..], chains);
      LoadBounded(Counts(buckets[..]), starts, Mults(buckets[..]), idealChainMaxlen, n0);
    }

    // ---------- Linking and unlinking in a bucket ----------

    /** The first half of HASH_ADD_TO_BKT. */
    method LinkItem(b: nat, add: Elem<V>, ghost mem: set<Elem<V>>)
      requires Stored(mem) && add !in mem && b == ToBkt(add.hashv, numBuckets)
      modifies `chains, buckets, add`hhNext, add`hhPrev, mem`hhPrev
      ensures Stored(mem + {add}) && chains == old(chains)[b := [add] + old(chains[b])]
      ensures b < numBuckets
      ensures buckets[..] == old(buckets[..])[b := Bucket(add, old(buckets[b].count) + 1, old(buckets[b].expandMult))]
    {
      hide IsChain, ToBkt, Pow2, Placed, AllOf;
      ToBktInRange(add.hashv, log2NumBuckets);
      ghost var bs, c := buckets[..], chains[b];
      OneChain(mem, chains, b);
      PlacedWith(mem, chains, b, add);
      buckets[b] := buckets[b].(count := buckets[b].count + 1);
      LinkFirst(buckets, b, add, c);
      FilledUpdate(bs, chains, b, buckets[b], [add] + c);
      chains := chains[b := [add] + c];
      assert buckets[..] == bs[b := buckets[b]];
    }

    /** Bucket b counts one item more than it links: the state in which a failed add
        is rolled back. */
    ghost predicate Overcounted(mem: set<Elem<V>>, b: nat)
      reads `buckets, `numBuckets, `log2NumBuckets, `chains, buckets
      reads mem`hashv, AllOf(chains)`hhNext, AllOf(chains)`hhPrev
    {
      && buckets.Length == numBuckets == Pow2(log2NumBuckets) && b < numBuckets && 0 < buckets[b].count
      && Filled(buckets[..][b := buckets[b].(count := buckets[b].count - 1)], chains)
      && Placed(mem, chains) && AllOf(chains) == mem
    }

    /** HASH_DEL_IN_BKT, either on an item of the table or, in a rollback, on an
        item that has left its chain but is still counted. */
    method UnlinkItem(b: nat, x: Elem<V>, ghost mem: set<Elem<V>>, ghost present: bool, ghost k: nat)
      requires if present then Stored(mem) && b < numBuckets && k < |chains[b]| && x == chains[b][k]
               else Overcounted(mem, b) && x !in mem && x.hhNext == null && x.hhPrev == null
      modifies `chains, buckets, mem`hhNext, mem`hhPrev
      ensures Stored(mem - {x})
      ensures chains == if present then old(chains)[b := RemoveAt(old(chains[b]), k)] else old(chains)
      ensures b < numBuckets == buckets.Length && buckets[..] == old(buckets[..])[b := buckets[b]]
      ensures buckets[b].count == old(buckets[b].count) - 1 && buckets[b].expandMult == old(buckets[b].expandMult)
      ensures !present ==> buckets[b].hhHead == old(buckets[b].hhHead)
    {
      hide IsChain, ToBkt, Pow2, Placed, AllOf, RemoveAt;
      ghost var bs, c := buckets[..], chains[b];
      OneChain(mem, chains, b);
      OneBucket(mem, b, present);
      if present {
        PlacedWithout(mem, chains, b, k);
      } else {
        assert mem - {x} == mem && chains[b := c] == chains;
      }
      DelInBkt(buckets, b, x, c, present, k);
      FilledUpdate(bs, chains, b, buckets[b], if present then RemoveAt(c, k) else c);
      chains := chains[b := if present then RemoveAt(c, k) else c];
      assert buckets[..] == bs[b := buckets[b]];
    }

    lemma OneBucket(mem: set<Elem<V>>, b: nat, present: bool)
      requires if present then Stored(mem) && b < numBuckets && chains[b] != [] else Overcounted(mem, b)
      ensures NoDup(chains[b]) && IsChain(buckets[b].hhHead, chains[b])
      ensures buckets[b].count == |chains[b]| + if present then 0 else 1
      ensures forall b' :: 0 <= b' < numBuckets && b' != b ==>
                buckets[b'].count == |chains[b']| && IsChain(buckets[b'].hhHead, chains[b'])
    {
      ghost var bs := buckets[..][b := buckets[b].(count := buckets[b].count - 1)];
      if !present {
        forall b' | 0 <= b' < numBuckets
          ensures bs[b'].count == |chains[b']| && IsChain(bs[b'].hhHead, chains[b'])
        {
        }
        assert bs[b].count == |chains[b]|;
        assert forall b' :: 0 <= b' < numBuckets && b' != b ==> bs[b'] == buckets[b'];
      }
    }

    lemma OneChain(mem: set<Elem<V>>, chains: seq<seq<Elem<V>>>, b: nat)
      requires Placed(mem, chains) && b < |chains|
      ensures Objs(chains[b]) <= mem
      ensures forall b' :: 0 <= b' < |chains| && b' != b ==>
                Objs(chains[b']) !! Objs(chains[b]) && Objs(chains[b']) <= mem
    {
      PlacedMembers(mem, chains);
    }

    // ---------- Adding to a bucket ----------

    /** The test that makes HASH_ADD_TO_BKT expand, on the bucket as it was before the add. */
    ghost predicate AddExpands(hashv: nat)
      reads `buckets, `numBuckets, `noexpand, buckets
    {
      && 0 < numBuckets == buckets.Length
      && var bkt := buckets[hashv % numBuckets];
         bkt.count + 1 >= 10 * (bkt.expandMult + 1) && !noexpand
    }

    /** HASH_ADD_TO_BKT. */
    method AddToBkt(add: Elem<V>, mayAlloc: bool, ghost mem: set<Elem<V>>) returns (oomed: bool)
      requires Stored(mem) && Loaded() && add !in mem && numItems == |mem| + 1
      modifies this, buckets, add`hhNext, add`hhPrev, mem`hhNext, mem`hhPrev
      ensures head == old(head) && tail == old(tail) && items == old(items) && numItems == old(numItems)
      ensures oomed <==> old(AddExpands(add.hashv)) && !mayAlloc
      ensures !oomed ==> Stored(mem + {add}) && Loaded() && (buckets == old(buckets) || fresh(buckets))
      ensures oomed ==> Stored(mem) && Loaded() && mem != {} && unchanged(this) && buckets[..] == old(buckets[..])
      ensures numBuckets == if old(AddExpands(add.hashv)) && mayAlloc then 2 * old(numBuckets) else old(numBuckets)
      ensures !oomed ==>
                && 0 < old(numBuckets)
                && Stepped(old(Now()), Now(), numItems, add.hashv % old(numBuckets), old(AddExpands(add.hashv)))
    {
      hide *;
      oomed := false;
      BeforeAdd(mem, add);
      var b := ToBkt(add.hashv, numBuckets);
      ghost var bs, c, all := buckets[..], chains[b], chains;
      NowIs();
      ghost var was := Now();
      LinkItem(b, add, mem);
      NowIs();
      ghost var was1 := Now();
      if buckets[b].count >= (buckets[b].expandMult + 1) * THRESH && !noexpand {
        oomed := ExpandBuckets(mayAlloc, mem + {add});
        if oomed {
          UnlinkItem(b, add, mem + {add}, true, 0);
          Restored(add, mem, bs, b, c);
          assert chains == all;
          KeepLoaded(bs, b);
        } else {
          SteppedFrom(was, was1, Now(), numItems, b);
        }
      } else {
        KeepLoaded(bs, b);
        CountStepped(was, was1, bs, buckets[..], numItems, b, add);
      }
    }

    lemma SteppedFrom(was: Numbers, was1: Numbers, now: Numbers, items: nat, slot: nat)
      requires Stepped(was1, now, items, 0, true)
      requires was.numBuckets == was1.numBuckets && was.log2 == was1.log2
      requires was.ineff == was1.ineff && was.noexpand == was1.noexpand
      ensures Stepped(was, now, items, slot, true)
    {
    }

    lemma CountStepped(was: Numbers, now: Numbers, bs: seq<Bucket<V>>, bs': seq<Bucket<V>>, items: nat, slot: nat,
                       hd: Elem<V>)
      requires slot < |bs| && |bs'| == |bs| && was.counts == Counts(bs) && was.mults == Mults(bs)
      requires bs' == bs[slot := Bucket(hd, bs[slot].count + 1, bs[slot].expandMult)]
      requires now == was.(counts := Counts(bs'), mults := Mults(bs'))
      ensures Stepped(was, now, items, slot, false)
    {
      assert Mults(bs') == Mults(bs);
      assert Counts(bs') == Counts(bs)[slot := bs[slot].count + 1];
    }

    /** Taking the new item out of its chain again restores the bucket. */
    lemma Restored(add: Elem<V>, mem: set<Elem<V>>, bs: seq<Bucket<V>>, b: nat, c: seq<Elem<V>>)
      requires b < numBuckets && Stored(mem + {add} - {add}) && add !in mem && chains[b] == RemoveAt([add] + c, 0)
      requires b < |bs| == numBuckets && bs[b].hhHead == At(c, 0) && bs[b].count == |c|
      requires buckets[..][b := bs[b]] == bs && buckets[b].expandMult == bs[b].expandMult
      ensures Stored(mem) && buckets[..] == bs && chains[b] == c
    {
      assert mem + {add} - {add} == mem;
      assert chains[b] == c;
    }

    lemma BeforeAdd(mem: set<Elem<V>>, add: Elem<V>)
      requires Stored(mem) && Loaded()
      ensures 0 < numBuckets == buckets.Length == |chains| && ToBkt(add.hashv, numBuckets) < numBuckets
      ensures noexpand || (|mem| <= 40 * numBuckets && LoadOk(buckets[..], starts, idealChainMaxlen, n0))
      ensures var b := ToBkt(add.hashv, numBuckets);
              && buckets[b].hhHead == At(chains[b], 0) && buckets[b].count == |chains[b]|
              && (buckets[b].count > 0 ==> mem != {})
              && b == add.hashv % numBuckets
              && (AddExpands(add.hashv) <==> buckets[b].count + 1 >= 10 * (buckets[b].expandMult + 1) && !noexpand)
              && (AddExpands(add.hashv) <==> buckets[b].count + 1 >= (buckets[b].expandMult + 1) * THRESH && !noexpand)
              && (AddExpands(add.hashv) ==> mem != {})
    {
      ToBktInRange(add.hashv, log2NumBuckets);
      ToBktIs(add.hashv, log2NumBuckets);
      if !noexpand {
        LoadFactor(mem);
      }
      var b := ToBkt(add.hashv, numBuckets);
      if chains[b] != [] {
        assert chains[b][0] in chains[b];
      }
    }

    lemma KeepLoaded(bs: seq<Bucket<V>>, b: nat)
      requires b < |bs| == buckets.Length && buckets[..] == bs[b := buckets[b]]
               && buckets[b].expandMult == bs[b].expandMult
      requires !noexpand ==> LoadOk(bs, starts, idealChainMaxlen, n0)
      requires noexpand || buckets[b].count <= bs[b].count || buckets[b].count < (buckets[b].expandMult + 1) * THRESH
      ensures Loaded()
    {
      if !noexpand {
        StillLoadOk(bs, b, buckets[b], starts, idealChainMaxlen, n0);
      }
    }

    // ---------- Deletion ----------

    /** HASH_DELETE_HH, for an item of the table or, in a rollback, for an item that
        is in the list and counted, but in no chain. */
    method DeleteHH(del: Elem<V>, ghost s: seq<Elem<V>>, ghost k: nat, ghost present: bool) returns (ghost b: nat)
      requires IsApp(head, tail, s) && k < |s| && del == s[k] && numItems == |s|
      requires 0 < numBuckets && (!present ==> |s| > 1 && del.hhNext == null && del.hhPrev == null)
      requires present ==> Stored(Objs(s))
      requires !present ==> Overcounted(Objs(RemoveAt(s, k)), ToBkt(del.hashv, numBuckets))
      modifies `head, `tail, `numItems, `chains, buckets
      modifies Objs(s)`next, Objs(s)`prev, Objs(s)`hhNext, Objs(s)`hhPrev
      ensures |s| == 1 ==> head == null
      ensures |s| > 1 ==> IsApp(head, tail, RemoveAt(s, k)) && numItems == |s| - 1 && Stored(Objs(RemoveAt(s, k)))
      ensures |s| > 1 ==>
                && b == ToBkt(del.hashv, numBuckets) && b < buckets.Length
                && buckets[..] == old(buckets[..])[b := buckets[b]]
                && buckets[b].count == old(buckets[..])[b].count - 1
                   && buckets[b].expandMult == old(buckets[..])[b].expandMult
                && (!present ==> buckets[b].hhHead == old(buckets[..])[b].hhHead && chains == old(chains))
    {
      hide *;
      b := 0;
      Alone(s, k, del);
      if del.prev == null && del.next == null {
        head := null;
      } else {
        ObjsAllocated(s);
        ObjsAllocated(RemoveAt(s, k));
        AllOfAllocated(chains);
        ghost var mem, rest := Objs(s), RemoveAt(s, k);
        WithoutOne(s, k);
        DeletedBucket(del, s, k, present);
        head, tail := HashList.Unlink(head, tail, del, s, k);
        var bkt := ToBkt(del.hashv, numBuckets);
        b := bkt;
        ghost var j := if present then IndexOf(chains[bkt], del) else 0;
        UnlinkItem(bkt, del, if present then mem else Objs(rest), present, j);
        numItems := numItems - 1;
      }
    }

    lemma Alone(s: seq<Elem<V>>, k: nat, del: Elem<V>)
      requires IsApp(head, tail, s) && k < |s| && del == s[k]
      ensures del.prev == null && del.next == null <==> |s| == 1
    {
    }

    lemma WithoutOne(s: seq<Elem<V>>, k: nat)
      requires IsApp(head, tail, s) && k < |s|
      ensures Objs(RemoveAt(s, k)) == Objs(s) - {s[k]} && s[k] in Objs(s)
      ensures Objs(RemoveAt(s, k)) - {s[k]} == Objs(RemoveAt(s, k))
    {
      forall x
        ensures x in RemoveAt(s, k) <==> x in s && x != s[k]
      {
        RemoveAtMember(s, k, x);
      }
    }

    /** Where HASH_DELETE_HH finds the item. */
    lemma DeletedBucket(del: Elem<V>, s: seq<Elem<V>>, k: nat, present: bool)
      requires k < |s| && del == s[k]
      requires present ==> Stored(Objs(s))
      ensures present ==>
                && 0 < numBuckets == |chains| && ToBkt(del.hashv, numBuckets) < numBuckets
                && del in chains[ToBkt(del.hashv, numBuckets)]
    {
    }

    // ---------- Adding ----------

    /** HASH_ROLLBACK_BKT. */
    method RollbackBkt(item: Elem<V>, ghost mem: set<Elem<V>>)
      requires Stored(mem) && item !in mem
      modifies buckets, item`hhNext, item`hhPrev
      ensures 0 < numBuckets && ToBkt(item.hashv, numBuckets) < numBuckets == buckets.Length
      ensures var b := ToBkt(item.hashv, numBuckets);
              && buckets[..] == old(buckets[..])[b := old(buckets[b].(count := buckets[b].count + 1))]
              && Overcounted(mem, b)
      ensures item.hhNext == null && item.hhPrev == null
    {
      hide ToBkt, IsChain, Pow2;
      ToBktInRange(item.hashv, log2NumBuckets);
      var b := ToBkt(item.hashv, numBuckets);
      ghost var bs := buckets[..];
      buckets[b] := buckets[b].(count := buckets[b].count + 1);
      item.hhNext := null;
      item.hhPrev := null;
      assert buckets[..][b := buckets[b].(count := buckets[b].count - 1)] == bs;
    }

    /** What HASH_ADD_TO_TABLE does when the expansion could not allocate. */
    method UndoAdd(add: Elem<V>, ghost s: seq<Elem<V>>, ghost k: nat)
      requires k <= |s| && s != [] && add !in s && IsApp(head, tail, InsertAt(s, k, add))
      requires Stored(Objs(s)) && Loaded() && numItems == |s| + 1
      modifies `head, `tail, `numItems, `chains, buckets, add`next, add`prev, add`hhNext, add`hhPrev
      modifies Objs(s)`next, Objs(s)`prev, Objs(s)`hhNext, Objs(s)`hhPrev
      ensures IsApp(head, tail, s) && Stored(Objs(s)) && Loaded() && numItems == |s|
      ensures buckets[..] == old(buckets[..]) && chains == old(chains)
    {
      hide *;
      ghost var mem, s', bs := Objs(s), InsertAt(s, k, add), buckets[..];
      AfterInsert(s, k, add);
      LoadedMeans();
      RollbackBkt(add, mem);
      ghost var bs1 := buckets[..];
      ghost var b := DeleteHH(add, s', k, false);
      CountedBack(bs, bs1, buckets[..], b);
      Undone(bs);
    }

    /** HASH_ADD_TO_TABLE with HASH_NONFATAL_OOM: the item is already in the list at k. */
    method AddToTable(add: Elem<V>, mayAlloc: bool, ghost s: seq<Elem<V>>, ghost k: nat) returns (oomed: bool)
      requires k <= |s| && add !in s && IsApp(head, tail, InsertAt(s, k, add))
      requires Stored(Objs(s)) && Loaded() && numItems == |s|
      modifies this, buckets, add`next, add`prev, add`hhNext, add`hhPrev
      modifies Objs(s)`next, Objs(s)`prev, Objs(s)`hhNext, Objs(s)`hhPrev
      ensures items == old(items)
      ensures oomed <==> old(AddExpands(add.hashv)) && !mayAlloc
      ensures !oomed ==>
                && IsApp(head, tail, InsertAt(s, k, add)) && Stored(Objs(s) + {add}) && Loaded() && numItems == |s| + 1
                && (buckets == old(buckets) || fresh(buckets))
                && numBuckets == (if old(AddExpands(add.hashv)) then 2 * old(numBuckets) else old(numBuckets))
                && 0 < old(numBuckets)
                && Stepped(old(Now()), Now(), numItems, add.hashv % old(numBuckets), old(AddExpands(add.hashv)))
      ensures oomed ==>
                && s != [] && IsApp(head, tail, s) && Stored(Objs(s)) && Loaded() && numItems == |s|
                && buckets[..] == old(buckets[..])
                && unchanged(`buckets, `numBuckets, `log2NumBuckets, `chains, `idealChainMaxlen, `nonidealItems)
                && unchanged(`ineffExpands, `noexpand, `starts, `n0)
    {
      hide *;
      ghost var mem := Objs(s);
      AfterInsert(s, k, add);
      numItems := numItems + 1;
      oomed := AddToBkt(add, mayAlloc, mem);
      if oomed {
        UndoAdd(add, s, k);
      }
    }

    /** The list with the new item is the old one and that item. */
    lemma AfterInsert(s: seq<Elem<V>>, k: nat, add: Elem<V>)
      requires k <= |s| && add !in s && IsApp(head, tail, InsertAt(s, k, add))
      ensures var s' := InsertAt(s, k, add);
              && |s'| == |s| + 1 && s'[k] == add && RemoveAt(s', k) == s
              && Objs(s') == Objs(s) + {add} && add !in Objs(s) && |Objs(s)| == |s|
              && (Objs(s) != {} <==> s != [])
      ensures allocated(Objs(s)) && allocated(Objs(InsertAt(s, k, add)))
    {
      hide *;
      var s' := InsertAt(s, k, add);
      InsertThenRemove(s, k, add);
      InsertAtMembers(s, k, add);
      NoDupOfApp(s');
      NoDupWithin(s, k, add);
      ObjsCount(s);
      ObjsEmpty(s);
      ObjsHas(s, add);
      ObjsAllocated(s);
      ObjsAllocated(s');
    }

    lemma NoDupOfApp(s: seq<Elem<V>>)
      requires IsApp(head, tail, s)
      ensures NoDup(s)
    {
    }

    lemma LoadedMeans()
      requires Loaded()
      ensures !noexpand ==> LoadOk(buckets[..], starts, idealChainMaxlen, n0)
    {
    }

    lemma Undone(bs: seq<Bucket<V>>)
      requires buckets[..] == bs && (!noexpand ==> LoadOk(bs, starts, idealChainMaxlen, n0))
      ensures Loaded()
    {
    }

    lemma CountedBack(bs: seq<Bucket<V>>, bs1: seq<Bucket<V>>, bs2: seq<Bucket<V>>, b: nat)
      requires b < |bs| && bs1 == bs[b := bs[b].(count := bs[b].count + 1)] && |bs2| == |bs1| && bs2 == bs1[b := bs2[b]]
      requires bs2[b].count == bs1[b].count - 1 && bs2[b].expandMult == bs1[b].expandMult
               && bs2[b].hhHead == bs1[b].hhHead
      ensures bs2 == bs
    {
    }

    /** HASH_MAKE_TABLE. mayMake says whether both allocations succeed. */
    method MakeTable(add: Elem<V>, mayMake: bool) returns (oomed: bool)
      modifies this
      ensures head == old(head) && items == old(items) && oomed == !mayMake
      ensures oomed ==> unchanged(this)
      ensures !oomed ==> tail == add && numItems == 0 && fresh(buckets) && Stored({}) && Loaded()
      ensures !oomed ==> numBuckets == 32 && log2NumBuckets == 5 && idealChainMaxlen == 0 && nonidealItems == 0
      ensures !oomed ==> ineffExpands == 0 && !noexpand
                         && forall b :: 0 <= b < numBuckets ==> buckets[b] == Bucket(null, 0, 0)
    {
      hide *;
      oomed := !mayMake;
      if mayMake {
        tail := add;
        numItems, idealChainMaxlen, nonidealItems, ineffExpands, noexpand := 0, 0, 0, 0, false;
        InitialSize();
        numBuckets, log2NumBuckets := 32, INITIAL_LOG2;
        buckets := new Bucket<V>[32](_ => Bucket(null, 0, 0));
        chains, starts, n0 := seq(32, _ => []), seq(32, _ => 0), 0;
        ZeroLoad(buckets[..], starts);
        LoadedIf();
        NothingStored();
      }
    }

    lemma NothingStored()
      requires buckets.Length == numBuckets == Pow2(log2NumBuckets) && |chains| == numBuckets
      requires forall b :: 0 <= b < numBuckets ==> buckets[b] == Bucket(null, 0, 0) && chains[b] == []
      ensures Stored({})
    {
      hide Pow2;
    }

    /** How much a failed add may leave behind: nothing. The user's element is the
        only thing it has written to. */
    twostate predicate Undisturbed()
      reads this, buckets, Objs(items)
    {
      && head == old(head) && items == old(items)
      && (items != [] ==>
            && tail == old(tail) && numItems == old(numItems)
            && buckets == old(buckets) && buckets[..] == old(buckets[..])
            && unchanged(`numBuckets, `log2NumBuckets, `chains, `idealChainMaxlen, `nonidealItems)
            && unchanged(`ineffExpands, `noexpand, `starts, `n0))
      && forall x :: x in items ==>
           x.next == old(x.next) && x.prev == old(x.prev) && x.hhNext == old(x.hhNext) && x.hhPrev == old(x.hhPrev)
    }

    /** The branch of an add that finds no table. */
    method AddFirst(add: Elem<V>, mayMake: bool, mayAlloc: bool) returns (oomed: bool)
      requires head == null
      modifies this, buckets, add`next, add`prev, add`hhNext, add`hhPrev
      ensures items == old(items) && oomed == !mayMake
      ensures oomed ==> unchanged(this)
      ensures !oomed ==> IsApp(head, tail, [add]) && Stored(Objs([add])) && Loaded() && numItems == 1 && fresh(buckets)
      ensures !oomed ==>
                && numBuckets == 32 && log2NumBuckets == 5 && idealChainMaxlen == 0 && nonidealItems == 0
                && ineffExpands == 0 && !noexpand
    {
      hide *;
      add.next := null;
      add.prev := null;
      oomed := MakeTable(add, mayMake);
      if !oomed {
        head := add;
        FirstItem(add);
        FirstNotDue(add.hashv);
        NowIs();
        ghost var was := Now();
        oomed := AddToTable(add, mayAlloc, [], 0);
        NowIs();
        NotDueMeans(was, Now(), 1, add.hashv % 32);
      }
    }

    lemma FirstNotDue(hashv: nat)
      requires buckets.Length == numBuckets
      requires forall b :: 0 <= b < numBuckets ==> buckets[b] == Bucket(null, 0, 0)
      ensures !AddExpands(hashv)
    {
    }

    /** Without an expansion only the count of one bucket changes. */
    lemma NotDueMeans(was: Numbers, now: Numbers, items: nat, slot: nat)
      requires Stepped(was, now, items, slot, false)
      ensures slot < |was.counts| && now == was.(counts := was.counts[slot := was.counts[slot] + 1])
    {
    }

    /** The branch of an add that finds a table. */
    method AddLast(add: Elem<V>, mayAlloc: bool, ghost s: seq<Elem<V>>) returns (oomed: bool)
      requires s != [] && add !in s && IsApp(head, tail, s) && Stored(Objs(s)) && Loaded() && numItems == |s|
      requires head != null && tail != null && tail in Objs(s)
      modifies this, buckets, add`next, add`prev, add`hhNext, add`hhPrev
      modifies Objs(s)`next, Objs(s)`prev, Objs(s)`hhNext, Objs(s)`hhPrev
      ensures items == old(items)
      ensures oomed <==> old(AddExpands(add.hashv)) && !mayAlloc
      ensures !oomed ==>
                && IsApp(head, tail, s + [add]) && Stored(Objs(s + [add])) && Loaded() && numItems == |s| + 1
                && (buckets == old(buckets) || fresh(buckets))
                && 0 < old(numBuckets)
                && Stepped(old(Now()), Now(), numItems, add.hashv % old(numBuckets), old(AddExpands(add.hashv)))
      ensures oomed ==>
                && IsApp(head, tail, s) && Stored(Objs(s)) && Loaded() && numItems == |s|
                && buckets[..] == old(buckets[..])
                && unchanged(`buckets, `numBuckets, `log2NumBuckets, `chains, `idealChainMaxlen, `nonidealItems)
                && unchanged(`ineffExpands, `noexpand, `starts, `n0)
    {
      hide *;
      ObjsAllocated(s);
      AllOfAllocated(chains);
      HashList.Append(head, tail, add, s);
      tail := add;
      AsInsert(s, add);
      oomed := AddToTable(add, mayAlloc, s, |s|);
    }

    /** HASH_ADD_KEYPTR_BYHASHVALUE. */
    method AddByHashValue(add: Elem<V>, key: Key, hashv: nat, mayMake: bool, mayAlloc: bool) returns (oomed: bool)
      requires Valid() && add !in items
      modifies this, buckets, add`key, add`hashv, add`next, add`prev, add`hhNext, add`hhPrev
      modifies Objs(items)`next, Objs(items)`prev, Objs(items)`hhNext, Objs(items)`hhPrev
      ensures Valid() && add.key == key && add.hashv == hashv
      ensures items == if oomed then old(items) else old(items) + [add]
      ensures buckets == old(buckets) || fresh(buckets)
      ensures oomed ==> Undisturbed()
      ensures var due := old(head != null && !noexpand
                             && buckets[hashv % numBuckets].count + 1
                                >= 10 * (buckets[hashv % numBuckets].expandMult + 1));
              && oomed == (if old(head) == null then !mayMake else !mayAlloc && due)
              && (old(head) != null && !oomed ==>
                    numBuckets == if due then 2 * old(numBuckets) else old(numBuckets))
      ensures oomed == if old(head) == null then !mayMake else !mayAlloc && old(AddExpands(hashv))
      ensures !oomed && old(head) != null ==>
                && 0 < old(numBuckets)
                && Stepped(old(Now()), Now(), |items|, hashv % old(numBuckets), old(AddExpands(hashv)))
      ensures !oomed && old(head) == null ==>
                && numBuckets == 32 && log2NumBuckets == 5 && idealChainMaxlen == 0 && nonidealItems == 0
                && ineffExpands == 0 && !noexpand
      ensures var due := old(head != null && AddExpands(hashv));
              !oomed && old(head) != null ==>
                && ineffExpands == (if !due then old(ineffExpands)
                                    else if nonidealItems > |items| / 2 then old(ineffExpands) + 1 else 0)
                && noexpand == (old(noexpand) || (due && ineffExpands > 1))
                && (!due ==> idealChainMaxlen == old(idealChainMaxlen) && nonidealItems == old(nonidealItems))
    {
      hide *;
      ghost var s := items;
      Parts();
      if head != null {
        DueIs(hashv);
      }
      ObjsHas(s, add);
      add.hashv := hashv;
      add.key := key;
      if head == null {
        oomed := AddFirst(add, mayMake, mayAlloc);
      } else {
        NowIs();
        ghost var was, due := Now(), AddExpands(hashv);
        oomed := AddLast(add, mayAlloc, s);
        if !oomed {
          NowIs();
          SteppedMeans(was, Now(), |s| + 1, hashv % was.numBuckets, due);
        }
      }
      if !oomed {
        OnlyItem(add);
        items := s + [add];
      }
      Whole();
      if oomed {
        NotDisturbed();
      }
    }

    /** What Stepped says of the counters of ineffective expansions. */
    lemma SteppedMeans(was: Numbers, now: Numbers, items: nat, slot: nat, due: bool)
      requires Stepped(was, now, items, slot, due)
      ensures now.numBuckets == if due then 2 * was.numBuckets else was.numBuckets
      ensures now.ineff == if !due then was.ineff else if now.nonideal > items / 2 then was.ineff + 1 else 0
      ensures now.noexpand == (was.noexpand || (due && now.ineff > 1))
      ensures !due ==> now.ideal == was.ideal && now.nonideal == was.nonideal
    {
    }

    /** When an add is due to expand. */
    lemma DueIs(hashv: nat)
      requires Valid() && head != null
      ensures 0 < numBuckets == buckets.Length && 0 <= hashv % numBuckets < buckets.Length
      ensures AddExpands(hashv) <==>
              && !noexpand
              && buckets[hashv % numBuckets].count + 1 >= 10 * (buckets[hashv % numBuckets].expandMult + 1)
    {
    }

    lemma Parts()
      requires Valid()
      ensures head == null <==> items == []
      ensures items != [] ==>
                && IsApp(head, tail, items) && Stored(Objs(items)) && numItems == |items| && Loaded()
                && tail != null && tail in Objs(items) && 0 < numBuckets
      ensures allocated(Objs(items)) && allocated(AllOf(chains))
    {
    }

    lemma Whole()
      requires items == [] ==> head == null
      requires items != [] ==> IsApp(head, tail, items) && Stored(Objs(items)) && numItems == |items| && Loaded()
      ensures Valid()
    {
    }

    lemma FirstItem(add: Elem<V>)
      requires add.next == null && add.prev == null && Stored({})
      ensures IsApp(add, add, InsertAt([], 0, add)) && Stored(Objs<V>([])) && InsertAt([], 0, add) == [add]
      ensures [] + [add] == [add] && Objs<V>([]) == {} && Objs<V>([]) + {add} == Objs([add])
    {
      assert Objs<V>([]) == {};
      assert [] + [add] == [add];
    }

    lemma OnlyItem(add: Elem<V>)
      ensures [] + [add] == [add] && InsertAt([], 0, add) == [add]
    {
    }

    lemma AsInsert(s: seq<Elem<V>>, add: Elem<V>)
      ensures InsertAt(s, |s|, add) == s + [add]
      ensures Objs(s) + {add} == Objs(s + [add])
    {
      InsertAtMembers(s, |s|, add);
    }

    /** The same list and chains in both states mean the same links. */
    twostate lemma NotDisturbed()
      requires old(Valid()) && Valid() && items == old(items)
      requires items != [] ==>
                 && buckets[..] == old(buckets[..])
                 && unchanged(`buckets, `numBuckets, `log2NumBuckets, `chains, `idealChainMaxlen, `nonidealItems)
                 && unchanged(`ineffExpands, `noexpand, `starts, `n0)
      ensures Undisturbed()
    {
      forall x | x in items
        ensures x.next == old(x.next) && x.prev == old(x.prev)
      {
        var i :| 0 <= i < |items| && items[i] == x;
        assert old(items[i].next) == After(items, i, null) && items[i].next == After(items, i, null);
        assert old(items[i].prev) == Before(items, i) && items[i].prev == Before(items, i);
      }
      forall x | x in items
        ensures x.hhNext == old(x.hhNext) && x.hhPrev == old(x.hhPrev)
      {
        assert x in Objs(items);
        var c := chains[ToBkt(x.hashv, numBuckets)];
        var i :| 0 <= i < |c| && c[i] == x;
        assert old(c[i].hhNext) == After(c, i, null) && c[i].hhNext == After(c, i, null);
        assert old(c[i].hhPrev) == Before(c, i) && c[i].hhPrev == Before(c, i);
      }
    }

    /** HASH_ADD_KEYPTR: the hash value is that of the key. */
    method Add(add: Elem<V>, key: Key, mayMake: bool, mayAlloc: bool) returns (oomed: bool)
      requires Valid() && add !in items
      modifies this, buckets, add`key, add`hashv, add`next, add`prev, add`hhNext, add`hhPrev
      modifies Objs(items)`next, Objs(items)`prev, Objs(items)`hhNext, Objs(items)`hhPrev
      ensures Valid() && add.key == key && add.hashv == hash(key)
      ensures items == if oomed then old(items) else old(items) + [add]
      ensures buckets == old(buckets) || fresh(buckets)
      ensures oomed == if old(head) == null then !mayMake else !mayAlloc && old(AddExpands(hash(key)))
      ensures oomed ==> Undisturbed()
      ensures !oomed && old(head) != null ==>
                && 0 < old(numBuckets)
                && Stepped(old(Now()), Now(), |items|, hash(key) % old(numBuckets), old(AddExpands(hash(key))))
      ensures !oomed && old(head) == null ==>
                && numBuckets == 32 && log2NumBuckets == 5 && idealChainMaxlen == 0 && nonidealItems == 0
                && ineffExpands == 0 && !noexpand
    {
      oomed := AddByHashValue(add, key, hash(key), mayMake, mayAlloc);
    }

    /** The branch of an ordered add that finds a table. */
    method AddSorted(add: Elem<V>, cmp: (User<V>, User<V>) -> int, mayAlloc: bool,
                     ghost ord: (Elem<V>, Elem<V>) -> int, ghost s: seq<Elem<V>>)
      returns (oomed: bool)
      requires s != [] && add !in s && IsApp(head, tail, s) && Stored(Objs(s)) && Loaded() && numItems == |s|
      requires Reflects(ord, cmp, s + [add])
      modifies this, buckets, add`next, add`prev, add`hhNext, add`hhPrev
      modifies Objs(s)`next, Objs(s)`prev, Objs(s)`hhNext, Objs(s)`hhPrev
      ensures items == old(items)
      ensures oomed <==> old(AddExpands(add.hashv)) && !mayAlloc
      ensures !oomed ==>
                && IsApp(head, tail, InsertAt(s, InsertPos(s, add, ord), add))
                && Stored(Objs(InsertAt(s, InsertPos(s, add, ord), add))) && Loaded() && numItems == |s| + 1
                && (buckets == old(buckets) || fresh(buckets))
                && numBuckets == (if old(AddExpands(add.hashv)) then 2 * old(numBuckets) else old(numBuckets))
                && 0 < old(numBuckets)
                && Stepped(old(Now()), Now(), numItems, add.hashv % old(numBuckets), old(AddExpands(add.hashv)))
      ensures oomed ==>
                && IsApp(head, tail, s) && Stored(Objs(s)) && Loaded() && numItems == |s|
                && buckets[..] == old(buckets[..])
                && unchanged(`buckets, `numBuckets, `log2NumBuckets, `chains, `idealChainMaxlen, `nonidealItems)
                && unchanged(`ineffExpands, `noexpand, `starts, `n0)
    {
      hide *;
      ObjsAllocated(s);
      ObjsAllocated(s + [add]);
      AllOfAllocated(chains);
      ghost var k := InsertPos(s, add, ord);
      InsertAtMembers(s, k, add);
      LinkInorder(add, cmp, ord, s);
      oomed := AddToTable(add, mayAlloc, s, k);
    }

    /** The ordered add itself, for any comparison function. */
    method InsertInorder(add: Elem<V>, key: Key, hashv: nat, cmp: (User<V>, User<V>) -> int, mayMake: bool,
                         mayAlloc: bool)
      returns (oomed: bool)
      requires Valid() && add !in items
      modifies this, buckets, add`key, add`hashv, add`next, add`prev, add`hhNext, add`hhPrev
      modifies Objs(items)`next, Objs(items)`prev, Objs(items)`hhNext, Objs(items)`hhPrev
      ensures Valid() && add.key == key && add.hashv == hashv
      ensures var ord := ByUser(cmp, old(items) + [add]);
              items == if oomed then old(items) else InsertAt(old(items), InsertPos(old(items), add, ord), add)
      ensures buckets == old(buckets) || fresh(buckets)
      ensures oomed == if old(head) == null then !mayMake else !mayAlloc && old(AddExpands(hashv))
      ensures oomed ==> Undisturbed()
      ensures old(head) != null && !oomed
              ==> numBuckets == if old(AddExpands(hashv)) then 2 * old(numBuckets) else old(numBuckets)
      ensures !oomed && old(head) != null ==>
                && 0 < old(numBuckets)
                && Stepped(old(Now()), Now(), |items|, hashv % old(numBuckets), old(AddExpands(hashv)))
      ensures !oomed && old(head) == null ==>
                && numBuckets == 32 && log2NumBuckets == 5 && idealChainMaxlen == 0 && nonidealItems == 0
                && ineffExpands == 0 && !noexpand
    {
      hide *;
      ghost var s := items;
      Parts();
      ObjsHas(s, add);
      add.hashv := hashv;
      add.key := key;
      ghost var ord := ByUser(cmp, s + [add]);
      ghost var k := InsertPos(s, add, ord);
      ByUserReflects(cmp, s + [add]);
      ObjsAllocated(s + [add]);
      if head == null {
        oomed := AddFirst(add, mayMake, mayAlloc);
      } else {
        oomed := AddSorted(add, cmp, mayAlloc, ord, s);
      }
      if !oomed {
        OnlyItem(add);
        InsertAtMembers(s, k, add);
        InsertThenRemove(s, k, add);
        items := InsertAt(s, k, add);
      }
      Whole();
      if oomed {
        NotDisturbed();
      }
    }

    /** HASH_ADD_KEYPTR_BYHASHVALUE_INORDER: a total preorder keeps a sorted table sorted. */
    method AddInorder(add: Elem<V>, key: Key, hashv: nat, cmp: (User<V>, User<V>) -> int, mayMake: bool, mayAlloc: bool)
      returns (oomed: bool)
      requires Valid() && add !in items
      modifies this, buckets, add`key, add`hashv, add`next, add`prev, add`hhNext, add`hhPrev
      modifies Objs(items)`next, Objs(items)`prev, Objs(items)`hhNext, Objs(items)`hhPrev
      ensures Valid() && add.key == key && add.hashv == hashv
      ensures var ord := ByUser(cmp, old(items) + [add]);
              items == if oomed then old(items) else InsertAt(old(items), InsertPos(old(items), add, ord), add)
      ensures !oomed && MergeSort.IsOrder(Users(old(items) + [add]), cmp) && InOrder(old(items), cmp)
              ==> InOrder(items, cmp)
      ensures buckets == old(buckets) || fresh(buckets)
      ensures oomed == if old(head) == null then !mayMake else !mayAlloc && old(AddExpands(hashv))
      ensures oomed ==> Undisturbed()
      ensures old(head) != null && !oomed
              ==> numBuckets == if old(AddExpands(hashv)) then 2 * old(numBuckets) else old(numBuckets)
      ensures !oomed && old(head) != null ==>
                && 0 < old(numBuckets)
                && Stepped(old(Now()), Now(), |items|, hashv % old(numBuckets), old(AddExpands(hashv)))
      ensures !oomed && old(head) == null ==>
                && numBuckets == 32 && log2NumBuckets == 5 && idealChainMaxlen == 0 && nonidealItems == 0
                && ineffExpands == 0 && !noexpand
    {
      hide *;
      ghost var s := items;
      Parts();
      ObjsHas(s, add);
      oomed := InsertInorder(add, key, hashv, cmp, mayMake, mayAlloc);
      if !oomed && MergeSort.IsOrder(Users(s + [add]), cmp) && InOrder(s, cmp) {
        InorderByUser(s, add, cmp);
      }
    }

    /** The list part of the ordered insertion. */
    method LinkInorder(add: Elem<V>, cmp: (User<V>, User<V>) -> int, ghost ord: (Elem<V>, Elem<V>) -> int,
                       ghost s: seq<Elem<V>>)
      requires IsApp(head, tail, s) && s != [] && add !in s && Reflects(ord, cmp, s + [add])
      modifies `head, `tail, Objs(s)`next, Objs(s)`prev, add`next, add`prev
      ensures IsApp(head, tail, InsertAt(s, InsertPos(s, add, ord), add))
    {
      hide *;
      ghost var k := InsertPos(s, add, ord);
      ListEnds(s);
      ObjsAllocated(s);
      var iter := FindPlace(head, add, cmp, ord, s);
      AtIsNull(s, k);
      if iter != null {
        head := HashList.InsertBefore(head, tail, iter, add, s, k);
      } else {
        HashList.Append(head, tail, add, s);
        tail := add;
        AsInsert(s, add);
      }
    }

    lemma ListEnds(s: seq<Elem<V>>)
      requires IsApp(head, tail, s) && s != []
      ensures head != null && tail != null && tail in Objs(s)
    {
    }

    /** HASH_AKBI_INNER_LOOP. */
    method FindPlace(first: Elem<V>, add: Elem<V>, cmp: (User<V>, User<V>) -> int,
                     ghost ord: (Elem<V>, Elem<V>) -> int, ghost s: seq<Elem<V>>)
      returns (iter: Elem?<V>)
      requires IsApp(first, tail, s) && s != [] && Reflects(ord, cmp, s + [add])
      ensures iter == At(s, InsertPos(s, add, ord)) && (iter == null <==> InsertPos(s, add, ord) == |s|)
    {
      hide Reflects, IsApp, NoDup, At;
      HashList.AppLinks(first, tail, s);
      ObjsAllocated(s + [add]);
      iter := first;
      ghost var i: nat := 0;
      AtIsNull(s, 0);
      while true
        invariant i < |s| && iter == s[i]
        invariant InsertPos(s, add, ord) == i + InsertPos(s[i..], add, ord)
        decreases |s| - i
      {
        Compared(ord, cmp, s + [add], iter, add);
        if cmp(iter.Mine(), add.Mine()) > 0 {
          break;
        }
        assert iter.next == s[i].next;
        assert s[i..][1..] == s[i + 1..];
        AtIsNull(s, i + 1);
        i, iter := i + 1, iter.next;
        if iter == null {
          break;
        }
      }
      AtIsNull(s, i);
    }

    /** HASH_DELETE. */
    method Delete(del: Elem<V>)
      requires Valid() && del in items
      modifies this, buckets, Objs(items)`next, Objs(items)`prev, Objs(items)`hhNext, Objs(items)`hhPrev
      ensures Valid() && buckets == old(buckets)
      ensures items == RemoveAt(old(items), IndexOf(old(items), del))
      ensures |old(items)| > 1 ==>
                && 0 < numBuckets == old(numBuckets) && log2NumBuckets == old(log2NumBuckets)
                && idealChainMaxlen == old(idealChainMaxlen) && nonidealItems == old(nonidealItems)
                && ineffExpands == old(ineffExpands) && noexpand == old(noexpand)
                && forall b :: 0 <= b < numBuckets ==>
                     && buckets[b].expandMult == old(buckets[..])[b].expandMult
                     && old(buckets[..])[b].count == buckets[b].count + if b == del.hashv % numBuckets then 1 else 0
    {
      hide *;
      ghost var s, k, bs := items, IndexOf(items, del), buckets[..];
      Parts();
      LoadedMeans();
      ghost var b := DeleteHH(del, s, k, true);
      items := RemoveAt(s, k);
      if |s| > 1 {
        KeepLoaded(bs, b);
        DeletedFrom(del, bs, b);
      }
      Whole();
    }

    lemma DeletedFrom(del: Elem<V>, bs: seq<Bucket<V>>, b: nat)
      requires buckets.Length == numBuckets == Pow2(log2NumBuckets)
      requires b == ToBkt(del.hashv, numBuckets) && b < |bs| == numBuckets && buckets[..] == bs[b := buckets[b]]
      requires buckets[b].expandMult == bs[b].expandMult && bs[b].count == buckets[b].count + 1
      ensures b == del.hashv % numBuckets
      ensures forall b' :: 0 <= b' < numBuckets ==>
                && buckets[b'].expandMult == bs[b'].expandMult
                && bs[b'].count == buckets[b'].count + if b' == b then 1 else 0
    {
      ToBktIs(del.hashv, log2NumBuckets);
      hide ToBkt, Pow2;
      forall b' | 0 <= b' < numBuckets && b' != b
        ensures buckets[b'] == bs[b']
      {
        assert buckets[..][b'] == bs[b'];
      }
    }

    /** HASH_SRT. */
    method Sort(cmp: (User<V>, User<V>) -> int)
      requires Valid()
      modifies `head, `tail, `items, Objs(items)`next, Objs(items)`prev
      ensures Valid() && items == MergeSort.Sort(old(items), ByUser(cmp, old(items)))
      ensures StablySorted(old(items), items, cmp)
    {
      hide *;
      Parts();
      ghost var ord := ByUser(cmp, items);
      ByUserReflects(cmp, items);
      SortStablySorts(items, cmp);
      SortedObjs(items, ord);
      if head != null {
        head, tail := HashList.SortList(head, tail, cmp, ord, items);
        items := MergeSort.Sort(items, ord);
      }
      Whole();
    }

    lemma SortedObjs(s: seq<Elem<V>>, cmp: (Elem<V>, Elem<V>) -> int)
      ensures Objs(MergeSort.Sort(s, cmp)) == Objs(s) && |MergeSort.Sort(s, cmp)| == |s|
      ensures s == [] ==> MergeSort.Sort(s, cmp) == s
    {
      var r := MergeSort.Sort(s, cmp);
      MergeSort.SortFromPermutes(s, 1, cmp);
      ObjsAllocated(r);
      ObjsAllocated(s);
      SameObjs(s, r);
    }

    // ---------- What the invariant says ----------

    /** HASH_FSCK: both counts of the items agree with num_items, the table has a power
        of two buckets, and each of them links and counts exactly the items whose hash
        value leaves its number as the remainder. */
    lemma Fsck()
      requires Valid() && head != null
      ensures Sum(Counts(buckets[..])) == numItems == |items|
      ensures buckets.Length == numBuckets == Pow2(log2NumBuckets) == |chains|
      ensures forall x :: x in items ==> x in chains[x.hashv % numBuckets]
      ensures forall b, x {:trigger x in chains[b]} :: 0 <= b < numBuckets && x in chains[b] ==>
                x in items && x.hashv % numBuckets == b
      ensures forall b :: 0 <= b < numBuckets ==>
                buckets[b].count == |chains[b]| && IsChain(buckets[b].hhHead, chains[b])
    {
      PlacedMembers(Objs(items), chains);
      CountsAddUp(buckets[..], chains);
      ObjsCount(items);
      hide Pow2, ToBkt, IsChain;
      forall x | x in items
        ensures x in chains[x.hashv % numBuckets]
      {
        assert x in Objs(items);
        ToBktIs(x.hashv, log2NumBuckets);
      }
      forall b, x {:trigger x in chains[b]} | 0 <= b < numBuckets && x in chains[b]
        ensures x in items && x.hashv % numBuckets == b
      {
        assert x in Objs(items);
        ToBktIs(x.hashv, log2NumBuckets);
      }
    }

    /** In every valid state whose expansion is not inhibited, there are at most
        forty items to a bucket. */
    lemma AtMostFortyPerBucket()
      requires Valid() && head != null && !noexpand
      ensures numItems <= 40 * numBuckets
    {
      LoadFactor(Objs(items));
      ObjsCount(items);
    }
  }

  ghost function IndexOf<T>(s: seq<T>, x: T): (i: nat)
    requires x in s
    ensures i < |s| && s[i] == x
  {
    var i :| 0 <= i < |s| && s[i] == x; i
  }

  lemma NoDupWithin<T>(s: seq<T>, k: nat, x: T)
    requires k <= |s| && NoDup(InsertAt(s, k, x))
    ensures NoDup(s)
  {
    var s' := InsertAt(s, k, x);
    assert forall i :: 0 <= i < |s| ==> s[i] == s'[if i < k then i else i + 1];
  }

  lemma InsertAtMembers<V>(s: seq<Elem<V>>, k: nat, x: Elem<V>)
    requires k <= |s|
    ensures Objs(InsertAt(s, k, x)) == Objs(s) + {x}
  {
    var s' := InsertAt(s, k, x);
    assert s == s[..k] + s[k..];
  }

  lemma InsertThenRemove<T>(s: seq<T>, k: nat, x: T)
    requires k <= |s|
    ensures var s' := InsertAt(s, k, x); |s'| == |s| + 1 && s'[k] == x && RemoveAt(s', k) == s
  {
    assert RemoveAt(InsertAt(s, k, x), k) == s;
  }

  lemma ObjsEmpty<V>(s: seq<Elem<V>>)
    ensures Objs(s) == {} <==> s == []
  {
    if s != [] {
      assert s[0] in Objs(s);
    }
  }

  lemma ObjsHas<V>(s: seq<Elem<V>>, x: Elem<V>)
    ensures x in Objs(s) <==> x in s
  {
  }

  lemma InitialSize()
    ensures 32 == Pow2(INITIAL_LOG2) && INITIAL_LOG2 == 5
  {
  }

  /** A new table has no items and no history. */
  lemma ZeroLoad<V>(bs: seq<Bucket<V>>, starts: seq<nat>)
    requires |bs| == |starts| && forall b :: 0 <= b < |bs| ==> bs[b] == Bucket(null, 0, 0) && starts[b] == 0
    ensures LoadOk(bs, starts, 0, 0)
  {
    OverNothing(starts, 0);
  }

  /** The place before the first element that compares greater than add. */
  ghost function InsertPos<V>(s: seq<Elem<V>>, add: Elem<V>, cmp: (Elem<V>, Elem<V>) -> int): (k: nat)
    ensures k <= |s|
  {
    if s == [] || cmp(s[0], add) > 0 then 0 else 1 + InsertPos(s[1..], add, cmp)
  }

  lemma {:induction false} InsertPosRange<V>(s: seq<Elem<V>>, add: Elem<V>, cmp: (Elem<V>, Elem<V>) -> int)
    ensures var k := InsertPos(s, add, cmp);
            && (forall i :: 0 <= i < k ==> cmp(s[i], add) <= 0)
            && (k < |s| ==> cmp(s[k], add) > 0)
  {
    if s != [] && cmp(s[0], add) <= 0 {
      InsertPosRange(s[1..], add, cmp);
      var k := InsertPos(s, add, cmp);
      forall i | 0 <= i < k
        ensures cmp(s[i], add) <= 0
      {
        if 0 < i {
          assert s[i] == s[1..][i - 1];
        }
      }
    }
  }

  lemma SameObjs<V>(s: seq<Elem<V>>, r: seq<Elem<V>>)
    requires multiset(s) == multiset(r)
    ensures Objs(s) == Objs(r)
  {
    forall x | x in s
      ensures x in r
    {
      assert x in multiset(s);
    }
    forall x | x in r
      ensures x in s
    {
      assert x in multiset(r);
    }
  }

  /** Everything from the insertion place on compares greater than the new element. */
  lemma AfterPlace<V>(s: seq<Elem<V>>, add: Elem<V>, cmp: (Elem<V>, Elem<V>) -> int, dom: set<Elem<V>>, k: nat, i: nat)
    requires MergeSort.IsOrder(dom, cmp) && MergeSort.Within(s, dom) && add in dom && MergeSort.Sorted(s, cmp)
    requires k <= i < |s| && cmp(s[k], add) > 0
    ensures cmp(s[i], add) > 0 && cmp(add, s[i]) <= 0
  {
    var x, y := s[k], s[i];
    assert x in s && y in s;
    assert cmp(x, y) <= 0 || x == y;
  }

  lemma SortedInsert<T>(s: seq<T>, k: nat, x: T, cmp: (T, T) -> int)
    requires k <= |s| && MergeSort.Sorted(s, cmp)
    requires forall i :: 0 <= i < k ==> cmp(s[i], x) <= 0
    requires forall i :: k <= i < |s| ==> cmp(x, s[i]) <= 0
    ensures MergeSort.Sorted(InsertAt(s, k, x), cmp)
  {
    var r := InsertAt(s, k, x);
    forall i, j | 0 <= i < j < |r|
      ensures cmp(r[i], r[j]) <= 0
    {
      var i', j' := if i < k then i else i - 1, if j < k then j else j - 1;
      assert i != k ==> r[i] == s[i'];
      assert j != k ==> r[j] == s[j'];
    }
  }

  /** Ordered insertion keeps a sorted list sorted, and puts the new element after
      everything that compares equal to it. */
  lemma InorderKeepsSorted<V>(s: seq<Elem<V>>, add: Elem<V>, cmp: (Elem<V>, Elem<V>) -> int, dom: set<Elem<V>>)
    requires MergeSort.IsOrder(dom, cmp) && MergeSort.Within(s, dom) && add in dom && MergeSort.Sorted(s, cmp)
    ensures MergeSort.Sorted(InsertAt(s, InsertPos(s, add, cmp), add), cmp)
    ensures forall i :: InsertPos(s, add, cmp) <= i < |s| ==> !MergeSort.Ties(s[i], add, cmp)
  {
    hide MergeSort.IsOrder, MergeSort.Sorted;
    var k := InsertPos(s, add, cmp);
    InsertPosRange(s, add, cmp);
    forall i | k <= i < |s|
      ensures cmp(s[i], add) > 0 && cmp(add, s[i]) <= 0
    {
      AfterPlace(s, add, cmp, dom, k, i);
    }
    SortedInsert(s, k, add, cmp);
  }

  /** The same, said of the user parts that the comparison function is given. */
  lemma InorderByUser<V>(s: seq<Elem<V>>, add: Elem<V>, cmp: (User<V>, User<V>) -> int)
    requires MergeSort.IsOrder(Users(s + [add]), cmp) && InOrder(s, cmp)
    ensures var ord := ByUser(cmp, s + [add]);
            InOrder(InsertAt(s, InsertPos(s, add, ord), add), cmp)
  {
    hide MergeSort.IsOrder, ByUser, MergeSort.Within;
    var all, ord := s + [add], ByUser(cmp, s + [add]);
    var dom := set x | x in all;
    OrderLifts(all, cmp, dom);
    ByUserReflects(cmp, all);
    SortedFromUsers(s, all, ord, cmp);
    WithinAll(s, all, dom);
    InorderKeepsSorted(s, add, ord, dom);
    var r := InsertAt(s, InsertPos(s, add, ord), add);
    InsertPermutes(s, InsertPos(s, add, ord), add);
    SortedByUser(all, r, ord, cmp);
  }

  lemma SortedFromUsers<V>(s: seq<Elem<V>>, all: seq<Elem<V>>, ord: (Elem<V>, Elem<V>) -> int,
                           cmp: (User<V>, User<V>) -> int)
    requires Reflects(ord, cmp, all) && s <= all && InOrder(s, cmp)
    ensures MergeSort.Sorted(s, ord)
  {
    forall i, j | 0 <= i < j < |s|
      ensures ord(s[i], s[j]) <= 0
    {
      assert s[i] == all[i] && s[j] == all[j];
      Compared(ord, cmp, all, s[i], s[j]);
    }
  }

  lemma WithinAll<T>(s: seq<T>, all: seq<T>, dom: set<T>)
    requires s <= all && dom == set x | x in all
    ensures MergeSort.Within(s, dom)
  {
    assert forall i :: 0 <= i < |s| ==> s[i] == all[i];
  }

  lemma InsertPermutes<T>(s: seq<T>, k: nat, x: T)
    requires k <= |s|
    ensures multiset(InsertAt(s, k, x)) == multiset(s + [x])
  {
    assert s == s[..k] + s[k..];
  }
}
