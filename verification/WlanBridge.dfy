/** wlan_br_forward.c: the learning bridge over its forwarding database, its ring of
    entries with shared peer records, and the counters. */
module WlanBridge {
  import opened Collections
  import opened Elements
  import opened BridgeSpec
  import opened Ledger
  import opened Dictionary
  import opened UtList
  import ListSort
  import Fdb
  import Statistics

  /** peer_addr_info_t. */
  class Peer {
    const addr: Addr
    var count: u16
    var floodFlag: u16

    constructor (addr: Addr)
      ensures this.addr == addr && count == 1 && floodFlag == 0
    {
      this.addr, count, floodFlag := addr, 1, 0;
    }
  }

  // ---------- The ring's entries as pairs of MAC and peer record ----------

  type Entries = seq<(Key, Peer)>

  ghost function AddrPairs(ps: Entries): (r: seq<(Key, Addr)>)
    ensures |r| == |ps| && forall i :: 0 <= i < |r| ==> r[i] == (ps[i].0, ps[i].1.addr)
  {
    seq(|ps|, i requires 0 <= i < |ps| => (ps[i].0, ps[i].1.addr))
  }

  /** How many entries use a peer record. */
  ghost function Uses(ps: Entries, p: Peer): nat {
    if ps == [] then 0 else Uses(ps[1..], p) + if ps[0].1 == p then 1 else 0
  }

  /** One record a peer: every entry uses one of these records, every record is used,
      and no two records have the same address. */
  ghost predicate Shared(ps: Entries, peers: set<Peer>) {
    && (forall i :: 0 <= i < |ps| ==> ps[i].1 in peers)
    && (forall p, q :: p in peers && q in peers && p.addr == q.addr ==> p == q)
    && (forall p :: p in peers ==> exists i :: 0 <= i < |ps| && ps[i].1 == p)
  }

  ghost predicate Counted(ps: Entries, peers: set<Peer>)
    reads peers`count
  {
    forall p :: p in peers ==> p.count as nat == Uses(ps, p) % 0x1_0000
  }

  /** The peers flagged are exactly those already sent to. */
  ghost predicate Flagged(peers: set<Peer>, done: seq<Addr>)
    reads peers`floodFlag
  {
    forall p :: p in peers ==> p.floodFlag == if p.addr in done then 1 else 0
  }

  /** The peer records of a ring at rest. */
  ghost predicate Recorded(ps: Entries, peers: set<Peer>)
    reads peers`count, peers`floodFlag
  {
    Shared(ps, peers) && Counted(ps, peers) && Flagged(peers, [])
  }

  /** Two entries share a record exactly when their peers' addresses are equal. */
  lemma SharedExactly(ps: Entries, peers: set<Peer>, i: nat, j: nat)
    requires Shared(ps, peers) && i < |ps| && j < |ps|
    ensures ps[i].1 == ps[j].1 <==> AddrPairs(ps)[i].1 == AddrPairs(ps)[j].1
  {
  }

  lemma {:induction false} NoUses(ps: Entries, p: Peer)
    requires forall i :: 0 <= i < |ps| ==> ps[i].1 != p
    ensures Uses(ps, p) == 0
  {
    if ps != [] {
      NoUses(ps[1..], p);
    }
  }

  lemma NewHasNoUses(ps: Entries, peers: set<Peer>, p: Peer)
    requires Shared(ps, peers) && p !in peers
    ensures Uses(ps, p) == 0
  {
    NoUses(ps, p);
  }

  lemma OneMoreUse(ps: Entries, key: Key, pa: Peer, p: Peer)
    ensures Uses([(key, pa)] + ps, p) == Uses(ps, p) + if pa == p then 1 else 0
  {
    assert ([(key, pa)] + ps)[1..] == ps;
  }

  lemma Recount(ps: Entries, peers: set<Peer>, key: Key, pa: Peer)
    requires pa.count as nat == (Uses(ps, pa) % 0x1_0000 + 1) % 0x1_0000
    requires forall p :: p in peers && p != pa ==> p.count as nat == Uses(ps, p) % 0x1_0000
    ensures Counted([(key, pa)] + ps, peers)
  {
    hide Uses;
    forall p | p in peers
      ensures p.count as nat == Uses([(key, pa)] + ps, p) % 0x1_0000
    {
      RecountOne(ps, key, pa, p);
    }
  }

  lemma RecountOne(ps: Entries, key: Key, pa: Peer, p: Peer)
    requires p.count as nat == if p == pa then (Uses(ps, pa) % 0x1_0000 + 1) % 0x1_0000 else Uses(ps, p) % 0x1_0000
    ensures p.count as nat == Uses([(key, pa)] + ps, p) % 0x1_0000
  {
    hide *;
    CountOne(Uses(ps, pa));
    OneMoreUse(ps, key, pa, p);
  }

  lemma CountOne(n: nat)
    ensures (n % 0x1_0000 + 1) % 0x1_0000 == (n + 1) % 0x1_0000
  {
  }

  /** Another entry for a record that exists. */
  lemma SharedAgain(ps: Entries, peers: set<Peer>, key: Key, pa: Peer)
    requires Shared(ps, peers) && pa in peers
    ensures Shared([(key, pa)] + ps, peers)
  {
    var ps' := [(key, pa)] + ps;
    forall p | p in peers
      ensures exists i :: 0 <= i < |ps'| && ps'[i].1 == p
    {
      var i :| 0 <= i < |ps| && ps[i].1 == p;
      assert ps'[i + 1].1 == p;
    }
  }

  /** A first entry for a new record. */
  lemma SharedNew(ps: Entries, peers: set<Peer>, key: Key, pa: Peer)
    requires Shared(ps, peers) && forall i :: 0 <= i < |ps| ==> ps[i].1.addr != pa.addr
    ensures Shared([(key, pa)] + ps, peers + {pa}) && pa !in peers
  {
    var ps' := [(key, pa)] + ps;
    assert ps'[0].1 == pa;
    forall p | p in peers
      ensures p.addr != pa.addr
      ensures exists i :: 0 <= i < |ps'| && ps'[i].1 == p
    {
      var i :| 0 <= i < |ps| && ps[i].1 == p;
      assert ps'[i + 1].1 == p;
    }
  }

  lemma AllClear(ps: Entries, peers: set<Peer>)
    requires Shared(ps, peers) && forall i :: 0 <= i < |ps| ==> ps[i].1.floodFlag == 0
    ensures Flagged(peers, [])
  {
  }

  lemma FlagOne(peers: set<Peer>, ps: Entries, i: nat, from: Addr)
    requires Shared(ps, peers) && i < |ps|
    ensures var addrs := Addrs(AddrPairs(ps));
            var done, a := Targets(addrs[..i], from), ps[i].1.addr;
            Targets(addrs[..i + 1], from) == if a == from || a in done then done else done + [a]
  {
    var addrs := Addrs(AddrPairs(ps));
    assert addrs[..i + 1][..i] == addrs[..i];
  }

  lemma SentOne(m: Book, f: Frame, done: seq<Addr>, a: Addr, n: nat, sendOk: nat -> bool)
    ensures Flood(f, done + [a]) == Flood(f, done) + [Attempt(f, a, true)]
    ensures var m' := CountSent(m, Flood(f, done), n, sendOk);
            CountSent(m, Flood(f, done + [a]), n, sendOk)
            == if sendOk(n + |done|) then CountTx(m', a.ip, 1, f.len as nat) else m'
  {
    hide CountTx;
    var ts := Flood(f, done + [a]);
    assert ts[..|done|] == Flood(f, done);
  }

  lemma RingStep<V>(head: Elem?<V>, s: seq<Elem<V>>, i: nat)
    requires IsRing(head, s) && i < |s|
    ensures head != null && head.prev == s[|s| - 1]
    ensures s[i] == s[|s| - 1] <==> i == |s| - 1
    ensures i + 1 < |s| ==> s[i].next == s[i + 1]
    ensures At(s, i + 1) == if i + 1 < |s| then s[i + 1] else null
  {
    assert s[i].next == RingNext(s, i);
  }

  lemma RingStart<V>(head: Elem?<V>, s: seq<Elem<V>>)
    requires IsRing(head, s)
    ensures head == At(s, 0) && (head == null <==> s == []) && (head != null ==> head.prev == s[|s| - 1])
    ensures NoDup(s)
  {
  }

  /** Each MAC of the database stands in the ring once, with the same address; entries
      share a record exactly when their addresses are equal; a record counts its
      entries; no flood flag is set. */
  ghost predicate Agree(es: Entries, peers: set<Peer>, fdb: map<Key, Addr>)
    reads peers
  {
    && (forall i :: 0 <= i < |es| ==> es[i].1 in peers)
    && (forall i, j :: 0 <= i < j < |es| ==> es[i].0 != es[j].0)
    && (forall i :: 0 <= i < |es| ==> es[i].0 in fdb && fdb[es[i].0] == es[i].1.addr)
    && (forall mac :: mac in fdb ==> exists i :: 0 <= i < |es| && es[i].0 == mac)
    && (forall i, j :: 0 <= i < |es| && 0 <= j < |es| ==> (es[i].1 == es[j].1 <==> es[i].1.addr == es[j].1.addr))
    && (forall i :: 0 <= i < |es| ==> es[i].1.count as nat == Uses(es, es[i].1) % 0x1_0000)
    && (forall i :: 0 <= i < |es| ==> es[i].1.floodFlag == 0)
  }

  lemma EntriesAgree(es: Entries, peers: set<Peer>, fdb: map<Key, Addr>)
    requires Recorded(es, peers) && Consistent(Known(fdb, AddrPairs(es)))
    ensures Agree(es, peers, fdb)
  {
    hide Uses, Recorded, Consistent, AddrPairs;
    RecordsAgree(es, peers);
    KeysAgree(es, fdb);
  }

  lemma RecordsAgree(es: Entries, peers: set<Peer>)
    requires Recorded(es, peers)
    ensures forall i :: 0 <= i < |es| ==> es[i].1 in peers && es[i].1.floodFlag == 0
    ensures forall i :: 0 <= i < |es| ==> es[i].1.count as nat == Uses(es, es[i].1) % 0x1_0000
    ensures forall i, j :: 0 <= i < |es| && 0 <= j < |es| ==>
                             (es[i].1 == es[j].1 <==> es[i].1.addr == es[j].1.addr)
  {
    hide Uses;
  }

  lemma KeysAgree(es: Entries, fdb: map<Key, Addr>)
    requires Consistent(Known(fdb, AddrPairs(es)))
    ensures forall i, j :: 0 <= i < j < |es| ==> es[i].0 != es[j].0
    ensures forall i :: 0 <= i < |es| ==> es[i].0 in fdb && fdb[es[i].0] == es[i].1.addr
    ensures forall mac :: mac in fdb ==> exists i :: 0 <= i < |es| && es[i].0 == mac
  {
    hide Uses;
    var ring := AddrPairs(es);
    hide AddrPairs;
    forall i, j | 0 <= i < j < |es|
      ensures es[i].0 != es[j].0
    {
      assert ring[i].0 != ring[j].0;
    }
    forall mac | mac in fdb
      ensures exists i :: 0 <= i < |es| && es[i].0 == mac
    {
      var i :| 0 <= i < |ring| && ring[i].0 == mac;
      assert es[i].0 == mac;
    }
    forall i | 0 <= i < |es|
      ensures es[i].0 in fdb && fdb[es[i].0] == es[i].1.addr
    {
      assert ring[i].0 in fdb;
    }
  }

  class Bridge {
    // h_head, h_ip_stat_head and l_head
    const fdb: Dict<Addr>
    const stats: Dict<Counters>
    var lHead: Elem?<Peer>
    // how the network answers, and the attempts to send made so far
    const net: Network
    var sent: seq<Attempt>

    ghost var ring: seq<Elem<Peer>>
    ghost var peers: set<Peer>

    /** Everything the bridge may change. */
    ghost function Repr(): set<object>
      reads this, fdb, stats
    {
      {this} + fdb.Repr + stats.Repr + Objs(ring) + peers
    }

    ghost predicate Separate()
      reads this, fdb, stats
    {
      && this !in fdb.Repr && this !in stats.Repr
      && fdb in fdb.Repr && stats in stats.Repr
      && fdb.Repr !! stats.Repr
      && fdb.Repr !! Objs(ring) && fdb.Repr !! peers
      && stats.Repr !! Objs(ring) && stats.Repr !! peers
    }

    ghost function Entries(): Entries
      reads `ring, Objs(ring)`key, Objs(ring)`val
    {
      PairsOf(ring)
    }

    /** The ring and its peer records, every flood flag being 0. */
    ghost predicate Ringed()
      reads `ring, `lHead, `peers, Objs(ring)`next, Objs(ring)`prev, Objs(ring)`key, Objs(ring)`val
      reads peers`count, peers`floodFlag
    {
      IsRing(lHead, ring) && Recorded(Entries(), peers)
    }

    ghost predicate Valid()
      reads this, fdb, stats, Repr()
      ensures Valid() ==> fdb.Valid() && stats.Valid()
    {
      Separate() && fdb.Valid() && stats.Valid() && Ringed() && Consistent(Learned())
    }

    ghost function Learned(): Known
      requires fdb.Valid()
      reads this, fdb, fdb.Repr, Objs(ring)
    {
      Known(fdb.Map(), AddrPairs(Entries()))
    }

    ghost function Book(): Book
      requires stats.Valid()
      reads stats, stats.Repr
    {
      stats.Map()
    }

    /** What Valid says of the ring and the database, which every run of the handlers
        keeps: each MAC stands in the ring once, with its peer's address; entries share a
        record exactly when the addresses are equal; a record counts its entries; no
        flood flag is set between frames. */
    lemma RingAndDatabaseAgree()
      requires Valid()
      ensures Agree(Entries(), peers, fdb.Map())
    {
      hide *;
      ValidMeans();
      RingedMeans();
      LearnedIs();
      EntriesAgree(Entries(), peers, fdb.Map());
    }

    constructor (hash: Key -> nat, keycmp: (Key, Key) -> bool, net: Network)
      requires Lawful(keycmp)
      ensures Valid() && fresh(Repr())
      ensures Learned() == Known(map[], []) && Book() == map[] && sent == [] && this.net == net
    {
      hide *;
      fdb := new Dict(hash, keycmp);
      stats := new Dict(hash, keycmp);
      this.net, lHead, sent := net, null, [];
      ring, peers := [], {};
      new;
      Empty();
    }

    lemma Empty()
      requires fdb.Valid() && stats.Valid() && fdb.Pairs() == [] && stats.Pairs() == []
      requires this !in fdb.Repr && this !in stats.Repr && fdb.Repr !! stats.Repr
      requires ring == [] && peers == {} && lHead == null
      ensures Valid() && Repr() == {this} + fdb.Repr + stats.Repr
      ensures Learned() == Known(map[], []) && Book() == map[]
    {
      hide Dict.Valid, Dict.Pairs;
    }

    /** The traversal that looks for a peer record with the sender's address. */
    method FindPeer(from: Addr, ghost es: Entries) returns (pa: Peer?)
      requires Ringed() && es == Entries()
      ensures pa == null <==> forall i :: 0 <= i < |es| ==> es[i].1.addr != from
      ensures pa != null ==> pa in peers && pa.addr == from
    {
      hide IsRing, Counted, Flagged;
      RingStart(lHead, ring);
      var el := lHead;
      var tmp1 := null;
      if lHead != null {
        tmp1 := lHead.prev;
      }
      ghost var i := 0;
      while el != null
        invariant i <= |ring| && el == At(ring, i)
        invariant ring != [] ==> tmp1 == ring[|ring| - 1]
        invariant forall j :: 0 <= j < i ==> es[j].1.addr != from
        decreases |ring| - i
      {
        RingStep(lHead, ring, i);
        var tmp2 := el.next;
        assert es[i] == (el.key, el.val);
        if el.val.addr == from {
          return el.val;
        }
        el := if el == tmp1 then null else tmp2;
        i := i + 1;
      }
      pa := null;
    }

    /** The record a new entry is to use: the sender's own, or a new one. */
    method PeerFor(from: Addr, mac: Mac, ghost es: Entries) returns (pa: Peer)
      requires Ringed() && es == Entries()
      modifies `peers, peers`count, peers`floodFlag
      ensures Recorded([(mac, pa)] + es, peers)
      ensures pa.addr == from && old(peers) <= peers && fresh(peers - old(peers))
    {
      hide IsRing, Shared, Uses, Ringed, Entries;
      RingedMeans();
      var found := FindPeer(from, es);
      if found != null {
        pa := found;
        pa.count := ((pa.count as int + 1) % 0x1_0000) as u16;
        pa.floodFlag := 0;
        SharedAgain(es, peers, mac, pa);
      } else {
        pa := new Peer(from);
        SharedNew(es, peers, mac, pa);
        NewHasNoUses(es, peers, pa);
        peers := peers + {pa};
      }
      Recount(es, peers, mac, pa);
    }

    /** wlan_list_update. */
    method ListUpdate(from: Addr, mac: Mac) returns (ghost added: Elem<Peer>)
      requires Ringed()
      modifies `lHead, `ring, `peers, Objs(ring)`next, Objs(ring)`prev, peers`count, peers`floodFlag
      ensures Ringed()
      ensures AddrPairs(Entries()) == [(mac, from)] + AddrPairs(old(Entries()))
      ensures fresh(added) && Objs(ring) == {added} + old(Objs(ring))
      ensures old(peers) <= peers && fresh(peers - old(peers))
    {
      hide *;
      ghost var es := Entries();
      RingedMeans();
      var pa := PeerFor(from, mac, es);
      added := Prepend(pa, mac, es);
    }

    /** The new entry goes to the front of the ring. */
    method Prepend(pa: Peer, mac: Mac, ghost es: Entries) returns (ghost added: Elem<Peer>)
      requires IsRing(lHead, ring) && PairsOf(ring) == es && Recorded([(mac, pa)] + es, peers)
      modifies `lHead, `ring, Objs(ring)`next, Objs(ring)`prev
      ensures Ringed() && Entries() == [(mac, pa)] + es
      ensures AddrPairs(Entries()) == [(mac, pa.addr)] + AddrPairs(es)
      ensures fresh(added) && Objs(ring) == {added} + old(Objs(ring))
    {
      hide *;
      ObjsAllocated(ring);
      var elem := new Elem(mac, pa);
      lHead := UtList.Prepend(lHead, elem, ring);
      Prepended(elem, ring, es);
      ring, added := [elem] + ring, elem;
      RingedIs();
    }

    lemma RingedMeans()
      requires Ringed()
      ensures IsRing(lHead, ring) && allocated(Objs(ring)) && Entries() == PairsOf(ring)
      ensures Shared(Entries(), peers) && Counted(Entries(), peers) && Flagged(peers, [])
      ensures Recorded(Entries(), peers)
    {
    }

    lemma RingedIs()
      requires IsRing(lHead, ring)
      requires Recorded(PairsOf(ring), peers)
      ensures Ringed() && Entries() == PairsOf(ring)
    {
    }

    lemma Prepended(elem: Elem<Peer>, s: seq<Elem<Peer>>, es: Entries)
      requires PairsOf(s) == es
      ensures PairsOf([elem] + s) == [(elem.key, elem.val)] + es
      ensures Objs([elem] + s) == {elem} + Objs(s)
      ensures AddrPairs([(elem.key, elem.val)] + es) == [(elem.key, elem.val.addr)] + AddrPairs(es)
    {
    }

    // ---------- Flooding ----------

    /** One entry of a flood: its peer is sent to unless it is flagged or is the sender. */
    method FloodEntry(frame: Frame, from: Addr, pa: Peer) returns (ghost t: bool)
      requires stats.Valid() && this !in stats.Repr && pa !in stats.Repr
      modifies `sent, stats.Repr, pa`floodFlag
      ensures stats.Valid() && fresh(stats.Repr - old(stats.Repr))
      ensures t <==> old(pa.floodFlag) != 1 && pa.addr != from
      ensures pa.floodFlag == if t then 1 else old(pa.floodFlag)
      ensures sent == if t then old(sent) + [Attempt(frame, pa.addr, true)] else old(sent)
      ensures Book() == if t && net.sendOk(|old(sent)|) then CountTx(old(Book()), pa.addr.ip, 1, frame.len as nat)
                        else old(Book())
    {
      hide *;
      BookIs();
      t := false;
      if pa.floodFlag == 1 || pa.addr == from {
        return;
      }
      t := true;
      pa.floodFlag := 1;
      var ok := net.sendOk(|sent|);
      sent := sent + [Attempt(frame, pa.addr, true)];
      if ok {
        Statistics.UpdateTx(stats, pa.addr.ip, 1, frame.len);
      }
      BookIs();
    }

    lemma BookIs()
      requires stats.Valid()
      ensures Book() == stats.Map() && stats in stats.Repr
    {
    }

    /** A flood of frame that has passed i entries, with sent0 and m the attempts and
        the counters at its start. */
    ghost predicate Flooding(i: nat, frame: Frame, from: Addr, es: Entries, sent0: seq<Attempt>, m: Book)
      reads this, stats, stats.Repr, Objs(ring), peers
    {
      && stats.Valid() && this !in stats.Repr && stats.Repr !! Objs(ring) && stats.Repr !! peers
      && IsRing(lHead, ring) && Entries() == es && Shared(es, peers) && i <= |es|
      && var done := Targets(Addrs(AddrPairs(es))[..i], from);
         && Flagged(peers, done)
         && sent == sent0 + Flood(frame, done)
         && Book() == CountSent(m, Flood(frame, done), |sent0|, net.sendOk)
    }

    method FloodTurn(frame: Frame, from: Addr, el: Elem<Peer>, tmp1: Elem<Peer>,
                     ghost i: nat, ghost es: Entries, ghost sent0: seq<Attempt>, ghost m: Book)
      returns (el': Elem?<Peer>)
      requires Flooding(i, frame, from, es, sent0, m) && i < |ring| && el == ring[i] && tmp1 == ring[|ring| - 1]
      modifies `sent, stats.Repr, peers`floodFlag
      ensures Flooding(i + 1, frame, from, es, sent0, m) && el' == At(ring, i + 1)
      ensures fresh(stats.Repr - old(stats.Repr))
    {
      hide *;
      FloodingMeans(i, frame, from, es, sent0, m);
      RingStep(lHead, ring, i);
      var tmp2 := el.next;
      ghost var t := FloodEntry(frame, from, el.val);
      el' := if el == tmp1 then null else tmp2;
      FloodingOn(i, frame, from, es, sent0, m, t);
    }

    lemma FloodingMeans(i: nat, frame: Frame, from: Addr, es: Entries, sent0: seq<Attempt>, m: Book)
      requires Flooding(i, frame, from, es, sent0, m)
      ensures stats.Valid() && this !in stats.Repr && stats.Repr !! Objs(ring) && stats.Repr !! peers
      ensures IsRing(lHead, ring) && Entries() == es && Shared(es, peers) && allocated(Objs(ring)) && |ring| == |es|
      ensures i < |es| ==> ring[i].val == es[i].1 && es[i].1 in peers
      ensures i <= |es| && forall x: Elem<Peer> :: x in ring ==> x !in stats.Repr
      ensures var done := Targets(Addrs(AddrPairs(es))[..i], from);
              && sent == sent0 + Flood(frame, done)
              && Book() == CountSent(m, Flood(frame, done), |sent0|, net.sendOk)
              && forall p :: p in peers ==> p.floodFlag == if p.addr in done then 1 else 0
    {
      hide Dict.Valid, IsRing;
    }

    /** One entry more: t says whether its peer was sent to. */
    lemma FloodingOn(i: nat, frame: Frame, from: Addr, es: Entries, sent0: seq<Attempt>, m: Book, t: bool)
      requires stats.Valid() && this !in stats.Repr && stats.Repr !! Objs(ring) && stats.Repr !! peers
      requires IsRing(lHead, ring) && Entries() == es && Shared(es, peers) && i < |es|
      requires var done, pa := Targets(Addrs(AddrPairs(es))[..i], from), es[i].1;
               && (t <==> pa.addr !in done && pa.addr != from)
               && (forall p :: p in peers && p != pa ==> p.floodFlag == if p.addr in done then 1 else 0)
               && pa.floodFlag == (if t || pa.addr in done then 1 else 0)
               && sent == sent0 + Flood(frame, done) + (if t then [Attempt(frame, pa.addr, true)] else [])
               && var m' := CountSent(m, Flood(frame, done), |sent0|, net.sendOk);
                  Book() == if t && net.sendOk(|sent0| + |done|) then CountTx(m', pa.addr.ip, 1, frame.len as nat)
                            else m'
      ensures Flooding(i + 1, frame, from, es, sent0, m)
    {
      hide Dict.Valid, IsRing, CountSent, Targets, Entries, CountTx;
      var done, a := Targets(Addrs(AddrPairs(es))[..i], from), es[i].1.addr;
      FlagOne(peers, es, i, from);
      SentOne(m, frame, done, a, |sent0|, net.sendOk);
    }

    /** The first traversal of wlan_br_flood. */
    method FloodRing(frame: Frame, from: Addr, ghost es: Entries)
      requires stats.Valid() && Flooding(0, frame, from, es, sent, Book())
      modifies `sent, stats.Repr, peers`floodFlag
      ensures Flooding(|es|, frame, from, es, old(sent), old(Book()))
      ensures fresh(stats.Repr - old(stats.Repr))
    {
      hide *;
      ghost var sent0, m := sent, Book();
      FloodingMeans(0, frame, from, es, sent0, m);
      RingStart(lHead, ring);
      var el := lHead;
      var tmp1: Elem?<Peer> := null;
      if lHead != null {
        tmp1 := lHead.prev;
      }
      ghost var i: nat := 0;
      while el != null
        invariant Flooding(i, frame, from, es, sent0, m) && i <= |ring| == |es| && el == At(ring, i)
        invariant ring != [] ==> tmp1 == ring[|ring| - 1]
        invariant fresh(stats.Repr - old(stats.Repr))
        decreases |ring| - i
      {
        ListSort.AtIsNull(ring, i);
        el := FloodTurn(frame, from, el, tmp1, i, es, sent0, m);
        i := i + 1;
      }
      ListSort.AtIsNull(ring, i);
    }

    /** The second traversal: every flag is cleared, whatever it was. */
    method ClearFlags(ghost es: Entries)
      requires IsRing(lHead, ring) && Entries() == es && Shared(es, peers)
      modifies peers`floodFlag
      ensures Flagged(peers, [])
    {
      hide *;
      ObjsAllocated(ring);
      RingStart(lHead, ring);
      EntryAt(es, 0);
      var el := lHead;
      var tmp1: Elem?<Peer> := null;
      if lHead != null {
        tmp1 := lHead.prev;
      }
      ghost var i: nat := 0;
      while el != null
        invariant IsRing(lHead, ring) && Entries() == es
        invariant i <= |ring| && el == At(ring, i) && |ring| == |es|
        invariant ring != [] ==> tmp1 == ring[|ring| - 1]
        invariant forall j :: 0 <= j < i ==> es[j].1.floodFlag == 0
        decreases |ring| - i
      {
        ListSort.AtIsNull(ring, i);
        RingStep(lHead, ring, i);
        EntryAt(es, i);
        var tmp2 := el.next;
        el.val.floodFlag := 0;
        el := if el == tmp1 then null else tmp2;
        i := i + 1;
      }
      ListSort.AtIsNull(ring, i);
      AllClear(es, peers);
    }

    lemma EntryAt(es: Entries, i: nat)
      requires Entries() == es && Shared(es, peers)
      ensures |es| == |ring| && (i < |es| ==> es[i].1 == ring[i].val && es[i].1 in peers)
    {
    }

    lemma ValidMeans()
      requires Valid()
      ensures Separate() && this !in fdb.Repr && this !in stats.Repr && fdb in fdb.Repr && stats in stats.Repr
      ensures fdb.Repr !! stats.Repr && fdb.Repr !! peers && stats.Repr !! peers
      ensures fdb.Repr !! Objs(ring) && stats.Repr !! Objs(ring)
      ensures forall x: Elem<Peer> :: x in ring ==> x !in stats.Repr && x !in fdb.Repr
      ensures fdb.Valid() && stats.Valid() && Ringed() && Consistent(Learned())
      ensures Repr() == {this} + fdb.Repr + stats.Repr + Objs(ring) + peers
      ensures allocated(Objs(ring)) && allocated(peers) && allocated(Repr())
    {
      hide Dict.Valid, Ringed, Consistent;
    }

    lemma LearnedIs()
      requires fdb.Valid()
      ensures Learned() == Known(fdb.Map(), AddrPairs(Entries()))
    {
    }

    /** The parts of Valid put together again. */
    lemma ValidAgain()
      requires this !in fdb.Repr && this !in stats.Repr && fdb in fdb.Repr && stats in stats.Repr
      requires fdb.Repr !! stats.Repr && fdb.Repr !! peers && stats.Repr !! peers
      requires fdb.Repr !! Objs(ring) && stats.Repr !! Objs(ring)
      requires fdb.Valid() && stats.Valid() && Ringed() && Consistent(Learned())
      ensures Valid()
      ensures Repr() == {this} + fdb.Repr + stats.Repr + Objs(ring) + peers
    {
      hide Dict.Valid, Ringed, Consistent;
    }

    lemma FloodStarts(frame: Frame, from: Addr, es: Entries)
      requires stats.Valid() && this !in stats.Repr && stats.Repr !! Objs(ring) && stats.Repr !! peers
      requires Ringed() && Entries() == es
      ensures Flooding(0, frame, from, es, sent, Book())
    {
      hide Dict.Valid, IsRing, Entries;
      assert Addrs(AddrPairs(es))[..0] == [];
      assert Flood(frame, []) == [];
    }

    lemma FloodEnds(frame: Frame, from: Addr, es: Entries, sent0: seq<Attempt>, m: Book)
      requires Flooding(|es|, frame, from, es, sent0, m)
      ensures var ts := Flood(frame, Targets(Addrs(AddrPairs(es)), from));
              sent == sent0 + ts && Book() == CountSent(m, ts, |sent0|, net.sendOk)
      ensures IsRing(lHead, ring) && Entries() == es && Shared(es, peers) && stats.Valid()
      ensures this !in stats.Repr && stats.Repr !! Objs(ring) && stats.Repr !! peers
    {
      hide Dict.Valid, IsRing, Entries, Targets, CountSent, Shared;
      var addrs := Addrs(AddrPairs(es));
      assert addrs[..|addrs|] == addrs;
    }

    /** Both traversals: the flags are all clear again at the end. */
    method SendAll(frame: Frame, from: Addr)
      requires Valid()
      modifies `sent, stats.Repr, peers`floodFlag
      ensures Valid() && fresh(stats.Repr - old(stats.Repr)) && Learned() == old(Learned())
      ensures var ts := Flood(frame, Targets(Addrs(Learned().ring), from));
              sent == old(sent) + ts && Book() == CountSent(old(Book()), ts, |old(sent)|, net.sendOk)
    {
      hide *;
      ValidMeans();
      ghost var es, m := Entries(), Book();
      RingedMeans();
      LearnedIs();
      FloodStarts(frame, from, es);
      FloodRing(frame, from, es);
      FloodEnds(frame, from, es, old(sent), m);
      ClearFlags(es);
      RingedIs();
      LearnedIs();
      BookIs();
      ValidAgain();
    }

    /** wlan_ip_static_update_rx for one frame. */
    method CountReceived(ip: u32, len: u32)
      requires Valid()
      modifies stats.Repr
      ensures Valid() && fresh(stats.Repr - old(stats.Repr)) && Learned() == old(Learned())
      ensures forall o :: o in stats.Repr ==> o in old(stats.Repr) || fresh(o)
      ensures Book() == CountRx(old(Book()), ip, 1, len as nat)
    {
      hide *;
      ValidMeans();
      LearnedIs();
      BookIs();
      Statistics.UpdateRx(stats, ip, 1, len);
      LearnedIs();
      BookIs();
      ValidAgain();
      forall o | o in stats.Repr
        ensures o in old(stats.Repr) || fresh(o)
      {
        assert o in old(stats.Repr) || o in stats.Repr - old(stats.Repr);
      }
    }

    /** wlan_ip_static_update_tx for one frame. */
    method CountQueued(ip: u32, len: u32)
      requires Valid()
      modifies stats.Repr
      ensures Valid() && fresh(stats.Repr - old(stats.Repr)) && Learned() == old(Learned())
      ensures Book() == CountTx(old(Book()), ip, 1, len as nat)
    {
      hide *;
      ValidMeans();
      LearnedIs();
      BookIs();
      Statistics.UpdateTx(stats, ip, 1, len);
      LearnedIs();
      BookIs();
      ValidAgain();
    }

    /** wlan_br_flood. */
    method FloodFrame(frame: Frame, from: Addr)
      requires Valid()
      modifies `sent, stats.Repr, peers`floodFlag
      ensures Valid() && fresh(stats.Repr - old(stats.Repr)) && Learned() == old(Learned())
      ensures var ts := Flood(frame, Targets(Addrs(Learned().ring), from));
              && sent == old(sent) + ts
              && Book() == CountSent(CountRx(old(Book()), from.ip, 1, frame.len as nat), ts, |old(sent)|, net.sendOk)
    {
      hide *;
      ValidMeans();
      CountReceived(from.ip, frame.len);
      SendAll(frame, from);
    }

    // ---------- Forwarding ----------

    /** wlan_br_forward: -1 when the destination is unknown, 0 when it is the sender,
        -2 when the send fails. */
    method Forward(frame: Frame, from: Addr) returns (ret: int)
      requires Valid()
      modifies `sent
      ensures Valid()
      ensures var fdb := Learned().fdb;
              if frame.dst !in fdb then ret == -1 && sent == old(sent)
              else if fdb[frame.dst] == from then ret == 0 && sent == old(sent)
              else
                && ret == (if net.sendOk(|old(sent)|) then frame.len as int else -2)
                && sent == old(sent) + [Attempt(frame, fdb[frame.dst], false)]
      ensures Learned() == old(Learned()) && Book() == old(Book())
    {
      hide *;
      ValidMeans();
      LearnedIs();
      BookIs();
      var entry := Fdb.BrFind(fdb, frame.dst);
      ret := -1;
      if entry != null {
        if entry.val == from {
          ret := 0;
        } else {
          var ok := net.sendOk(|sent|);
          sent := sent + [Attempt(frame, entry.val, false)];
          ret := if ok then frame.len as int else -2;
        }
      }
      LearnedIs();
      BookIs();
      ValidAgain();
    }

    /** wlan_br_forward_to_array: as wlan_br_forward, but the send is queued at slot j
        and both counters are kept. */
    method ForwardToArray(frame: Frame, from: Addr, toFrame: array<Frame>, toPeer: array<Addr>, j: nat)
      returns (ret: int)
      requires Valid() && j < toFrame.Length == toPeer.Length && toFrame !in Repr() && toPeer !in Repr()
      modifies stats.Repr, toFrame, toPeer
      ensures Valid() && fresh(stats.Repr - old(stats.Repr)) && Learned() == old(Learned())
      ensures ret == if frame.dst !in Learned().fdb then -1 else if Learned().fdb[frame.dst] == from then 0 else 1
      ensures var m, len := old(Book()), frame.len as nat;
              Book() == if ret == -1 then m
                        else if ret == 0 then CountRx(m, from.ip, 1, len)
                        else CountTx(CountRx(m, from.ip, 1, len), Learned().fdb[frame.dst].ip, 1, len)
      ensures Queue(toFrame, toPeer, j) == old(Queue(toFrame, toPeer, j))
      ensures ret == 1 ==> Queue(toFrame, toPeer, j + 1)
                           == old(Queue(toFrame, toPeer, j)) + [Attempt(frame, Learned().fdb[frame.dst], false)]
    {
      hide *;
      ValidMeans();
      LearnedIs();
      var entry := Fdb.BrFind(fdb, frame.dst);
      LearnedIs();
      BookIs();
      ValidAgain();
      ret := -1;
      if entry != null {
        var peer := entry.val;
        CountReceived(from.ip, frame.len);
        ret := 0;
        if peer != from {
          ValidMeans();
          Enqueue(toFrame, toPeer, j, frame, peer);
          CountQueued(peer.ip, frame.len);
          ret := 1;
        }
      }
    }

    // ---------- Receiving ----------

    /** The start of both handlers: a source that is new to the database joins the ring. */
    method LearnSource(i: Input)
      requires Valid()
      modifies Repr()
      ensures Valid() && (forall o :: o in Repr() ==> o in old(Repr()) || fresh(o))
      ensures Learned() == Learn(old(Learned()), i) && Book() == old(Book()) && sent == old(sent)
    {
      hide *;
      ValidMeans();
      LearnedIs();
      BookIs();
      ghost var es, k := Entries(), Learned();
      LearnConsistent(k, i);
      LearnIs(k, i);
      var r := Fdb.FdbUpdate(fdb, i.from, i.frame.src);
      if r == 1 {
        ghost var added := ListUpdate(i.from, i.frame.src);
      }
      LearnedIs();
      BookIs();
      ValidAgain();
    }

    /** wlan_br_handle. */
    method Handle(i: Input)
      requires Valid()
      modifies Repr()
      ensures Valid() && (forall o :: o in Repr() ==> o in old(Repr()) || fresh(o))
      ensures Learned() == Learn(old(Learned()), i)
      ensures sent == old(sent) + FloodsFor(Learned(), i) + UnicastsFor(Learned(), i)
      ensures forall t :: t in sent[|old(sent)|..]
                          <==> && t.frame == i.frame && t.to != i.from
                               && if i.frame.dst[0] % 2 == 1 || i.frame.dst !in Learned().fdb then
                                    t.flooded && KnownPeer(Learned(), t.to)
                                  else !t.flooded && Learned().fdb[i.frame.dst] == t.to
      ensures Book() == FrameStep(old(Book()), Learned(), i, |old(sent)|, net.sendOk)
    {
      hide *;
      LearnSource(i);
      ValidMeans();
      ghost var k := Learned();
      RouteIs(k, i);
      MulticastIs(i.frame.dst);
      StepIs(Book(), k, i, |sent|, net.sendOk);
      if IsMulticast(i.frame.dst) {
        FloodFrame(i.frame, i.from);
      } else {
        var ret := Forward(i.frame, i.from);
        if ret == -1 {
          FloodFrame(i.frame, i.from);
        }
      }
      ValidMeans();
      FrameReaches(k, i, old(sent), sent);
    }

    /** Who gets a frame. */
    lemma FrameReaches(k: Known, i: Input, before: seq<Attempt>, after: seq<Attempt>)
      requires Consistent(k) && after == before + FloodsFor(k, i) + UnicastsFor(k, i)
      ensures forall t :: t in after[|before|..]
                          <==> && t.frame == i.frame && t.to != i.from
                               && if i.frame.dst[0] % 2 == 1 || i.frame.dst !in k.fdb then
                                    t.flooded && KnownPeer(k, t.to)
                                  else !t.flooded && k.fdb[i.frame.dst] == t.to
    {
      hide *;
      var ts := FloodsFor(k, i) + UnicastsFor(k, i);
      assert after[|before|..] == ts;
      forall t
        ensures t in ts
                <==> && t.frame == i.frame && t.to != i.from
                     && if i.frame.dst[0] % 2 == 1 || i.frame.dst !in k.fdb then t.flooded && KnownPeer(k, t.to)
                        else !t.flooded && k.fdb[i.frame.dst] == t.to
      {
        AttemptedFor(k, i, t);
      }
    }

    /** One frame of a burst: floods are sent at once, a unicast is queued at slot j. */
    method BurstTurn(i: Input, toFrame: array<Frame>, toPeer: array<Addr>, j: nat) returns (j': nat)
      requires Valid() && j < toFrame.Length == toPeer.Length && toFrame !in Repr() && toPeer !in Repr()
      modifies Repr(), toFrame, toPeer
      ensures Valid() && (forall o :: o in Repr() ==> o in old(Repr()) || fresh(o))
      ensures Learned() == Learn(old(Learned()), i)
      ensures sent == old(sent) + FloodsFor(Learned(), i)
      ensures Book() == BurstStep(old(Book()), Learned(), i, |old(sent)|, net.sendOk)
      ensures j <= j' <= j + 1
      ensures Queue(toFrame, toPeer, j') == old(Queue(toFrame, toPeer, j)) + UnicastsFor(Learned(), i)
    {
      hide *;
      LearnSource(i);
      ValidMeans();
      ghost var k := Learned();
      RouteIs(k, i);
      MulticastIs(i.frame.dst);
      StepIs(Book(), k, i, |sent|, net.sendOk);
      j' := j;
      if IsMulticast(i.frame.dst) {
        FloodFrame(i.frame, i.from);
      } else {
        var ret := ForwardToArray(i.frame, i.from, toFrame, toPeer, j);
        if ret == 1 {
          j' := j + 1;
        } else if ret == -1 {
          FloodFrame(i.frame, i.from);
        }
      }
      ValidMeans();
    }

    /** sendmmsg: it stops at the first datagram that fails. */
    method SendMmsg(us: seq<Attempt>) returns (c: nat)
      modifies `sent
      ensures c == Accepted(|us|, |old(sent)|, net) && sent == old(sent) + Tried(us, |old(sent)|, net)
    {
      hide *;
      c := 0;
      ghost var n := |sent|;
      assert us[..0] == [] && sent + [] == sent;
      while c < |us|
        invariant c <= |us| && sent == old(sent) + us[..c]
        invariant Accepted(|us|, n, net) == c + Accepted(|us| - c, n + c, net)
        decreases |us| - c
      {
        AcceptNext(|us| - c, n + c, net);
        var ok := net.sendOk(|sent|);
        sent := sent + [us[c]];
        assert us[..c + 1] == us[..c] + [us[c]];
        if !ok {
          TriedIs(us, n, net);
          return;
        }
        c := c + 1;
      }
      AcceptNone(n + c, net);
      TriedIs(us, n, net);
    }

    /** send_data_to_udp_client_burst, given the queued datagrams in two arrays. */
    method SendQueue(toFrame: array<Frame>, toPeer: array<Addr>, j: nat)
      requires Valid() && j <= toFrame.Length == toPeer.Length && toFrame !in Repr() && toPeer !in Repr()
      modifies `sent
      ensures Valid() && Repr() == old(Repr()) && Learned() == old(Learned()) && Book() == old(Book())
      ensures sent == old(sent) + QueueAttempts(Queue(toFrame, toPeer, j), |old(sent)|, net)
    {
      hide *;
      ValidMeans();
      LearnedIs();
      BookIs();
      QueueStep(toFrame, toPeer, 0);
      var us := [];
      for a := 0 to j
        invariant us == Queue(toFrame, toPeer, a)
        modifies {}
      {
        QueueStep(toFrame, toPeer, a);
        us := us + [Attempt(toFrame[a], toPeer[a], false)];
      }
      SendTwice(us);
      LearnedIs();
      BookIs();
      ValidAgain();
    }

    /** One sendmmsg, and after EAGAIN another for the datagrams that were not sent. */
    method SendTwice(us: seq<Attempt>)
      modifies `sent
      ensures sent == old(sent) + QueueAttempts(us, |old(sent)|, net)
    {
      hide *;
      ghost var n := |sent|;
      QueueIs(us, n, net);
      var c := SendMmsg(us);
      if c != |us| && net.again(|sent|) {
        var resend := Resend(us, c);
        Associate(old(sent), Tried(us, n, net), Tried(resend, |sent|, net));
        if |resend| > 0 {
          var c2 := SendMmsg(resend);
        }
      }
    }

    /** The datagrams whose sent length differs from their length; the first c were sent. */
    method Resend(us: seq<Attempt>, c: nat) returns (resend: seq<Attempt>)
      requires c <= |us|
      ensures resend == Unsent(us[c..])
    {
      resend := [];
      for i := 0 to |us|
        invariant resend == if i < c then [] else Unsent(us[c..i])
      {
        var sentLen := if i < c then us[i].frame.len else 0;
        assert i >= c ==> us[c..i + 1][..i - c] == us[c..i];
        if sentLen != us[i].frame.len {
          resend := resend + [us[i]];
        }
      }
      assert us[c..|us|] == us[c..];
    }

    /** wlan_br_handle_burst. */
    method HandleBurst(inputs: seq<Input>)
      requires Valid()
      modifies Repr()
      ensures Valid() && (forall o :: o in Repr() ==> o in old(Repr()) || fresh(o))
      ensures Learned() == KnownAfter(old(Learned()), inputs)
      ensures sent == old(sent) + BurstAttempts(old(Learned()), inputs, |old(sent)|, net)
      ensures forall t :: t in sent[|old(sent)|..] ==>
                exists e :: 0 <= e < |inputs| && t.frame == inputs[e].frame && t.to != inputs[e].from
                            && var dst, now := inputs[e].frame.dst, KnownAfter(old(Learned()), inputs[..e + 1]);
                               if dst[0] % 2 == 1 || dst !in now.fdb then t.flooded && KnownPeer(now, t.to)
                               else !t.flooded && now.fdb[dst] == t.to
      ensures forall e, p :: 0 <= e < |inputs| && p != inputs[e].from ==>
                var f, now := inputs[e].frame, KnownAfter(old(Learned()), inputs[..e + 1]);
                (f.dst[0] % 2 == 1 || f.dst !in now.fdb) && KnownPeer(now, p) ==>
                  Attempt(f, p, true) in sent[|old(sent)|..]
      ensures Book() == BurstBook(old(Book()), old(Learned()), inputs, |old(sent)|, net.sendOk)
    {
      hide *;
      ghost var k, m, sent0 := Learned(), Book(), sent;
      ValidMeans();
      var toFrame := new Frame[|inputs|];
      var toPeer := new Addr[|inputs|];
      var i, j := 0, 0;
      NoInputs(k);
      EmptyBurst(m, k, |sent0|, net.sendOk, 0);
      while i < |inputs|
        invariant j <= i <= |inputs| && Valid() && (forall o :: o in Repr() ==> o in old(Repr()) || fresh(o))
        invariant fresh(toFrame) && fresh(toPeer) && toFrame !in Repr() && toPeer !in Repr()
        invariant Learned() == KnownAfter(k, inputs[..i]) && sent == sent0 + FloodsOf(k, inputs[..i])
        invariant Book() == BurstBook(m, k, inputs[..i], |sent0|, net.sendOk)
        invariant Queue(toFrame, toPeer, j) == UnicastsOf(k, inputs[..i])
      {
        OneMoreInput(k, inputs[..i], inputs[i]);
        BookStep(m, k, inputs[..i], inputs[i], |sent0|, net.sendOk);
        assert inputs[..i + 1] == inputs[..i] + [inputs[i]];
        j := BurstTurn(inputs[i], toFrame, toPeer, j);
        i := i + 1;
      }
      assert inputs[..i] == inputs;
      BurstIs(k, inputs, |sent0|, net);
      QueueNothing(|sent|, net);
      if j > 0 {
        SendQueue(toFrame, toPeer, j);
      }
      BurstReaches(k, inputs, |sent0|);
    }

    /** Who gets the frames of a burst: what is attempted comes from some frame of it, and
        every flood is attempted. */
    lemma BurstReaches(k: Known, inputs: seq<Input>, n: nat)
      requires Consistent(k)
      ensures forall t :: t in BurstAttempts(k, inputs, n, net) ==>
                exists e :: 0 <= e < |inputs| && t.frame == inputs[e].frame && t.to != inputs[e].from
                            && var dst, now := inputs[e].frame.dst, KnownAfter(k, inputs[..e + 1]);
                               if dst[0] % 2 == 1 || dst !in now.fdb then t.flooded && KnownPeer(now, t.to)
                               else !t.flooded && now.fdb[dst] == t.to
      ensures forall e, p :: 0 <= e < |inputs| && p != inputs[e].from ==>
                var f, now := inputs[e].frame, KnownAfter(k, inputs[..e + 1]);
                (f.dst[0] % 2 == 1 || f.dst !in now.fdb) && KnownPeer(now, p) ==>
                  Attempt(f, p, true) in BurstAttempts(k, inputs, n, net)
    {
      hide *;
      forall t | t in BurstAttempts(k, inputs, n, net)
        ensures exists e :: 0 <= e < |inputs| && t.frame == inputs[e].frame && t.to != inputs[e].from
                            && var dst, now := inputs[e].frame.dst, KnownAfter(k, inputs[..e + 1]);
                               if dst[0] % 2 == 1 || dst !in now.fdb then t.flooded && KnownPeer(now, t.to)
                               else !t.flooded && now.fdb[dst] == t.to
      {
        BurstAttempted(k, inputs, n, net, t);
        BurstRecipients(k, inputs, t);
      }
      forall e, p | 0 <= e < |inputs| && p != inputs[e].from
        ensures var f, now := inputs[e].frame, KnownAfter(k, inputs[..e + 1]);
                (f.dst[0] % 2 == 1 || f.dst !in now.fdb) && KnownPeer(now, p) ==>
                  Attempt(f, p, true) in BurstAttempts(k, inputs, n, net)
      {
        var t := Attempt(inputs[e].frame, p, true);
        BurstAttempted(k, inputs, n, net, t);
        BurstRecipients(k, inputs, t);
      }
    }

    // ---------- Runs ----------

    /** Frames received and handled one at a time. */
    method HandleEach(inputs: seq<Input>)
      requires Valid()
      modifies Repr()
      ensures Valid() && (forall o :: o in Repr() ==> o in old(Repr()) || fresh(o))
      ensures Learned() == KnownAfter(old(Learned()), inputs)
      ensures sent == old(sent) + FrameAttempts(old(Learned()), inputs)
      ensures Book() == FrameBook(old(Book()), old(Learned()), inputs, |old(sent)|, net.sendOk)
    {
      hide *;
      ghost var k, m, sent0 := Learned(), Book(), sent;
      NoInputs(k);
      EmptyFrameBook(m, k, |sent0|, net.sendOk);
      for i := 0 to |inputs|
        invariant Valid() && (forall o :: o in Repr() ==> o in old(Repr()) || fresh(o))
        invariant Learned() == KnownAfter(k, inputs[..i]) && sent == sent0 + FrameAttempts(k, inputs[..i])
        invariant Book() == FrameBook(m, k, inputs[..i], |sent0|, net.sendOk)
      {
        OneMoreInput(k, inputs[..i], inputs[i]);
        FrameBookStep(m, k, inputs[..i], inputs[i], |sent0|, net.sendOk);
        assert inputs[..i + 1] == inputs[..i] + [inputs[i]];
        Handle(inputs[i]);
      }
      assert inputs[..|inputs|] == inputs;
    }

    /** The same frames received and handled in bursts. */
    method HandleBursts(bursts: seq<seq<Input>>)
      requires Valid()
      modifies Repr()
      ensures Valid() && (forall o :: o in Repr() ==> o in old(Repr()) || fresh(o))
      ensures Learned() == KnownAfter(old(Learned()), Flat(bursts))
      ensures sent == old(sent) + RunAttempts(old(Learned()), bursts, |old(sent)|, net)
      ensures Book() == RunBook(old(Book()), old(Learned()), bursts, |old(sent)|, net)
    {
      hide *;
      ghost var k, m, sent0 := Learned(), Book(), sent;
      NoBurstsYet(m, k, |sent0|, net);
      for i := 0 to |bursts|
        invariant Valid() && (forall o :: o in Repr() ==> o in old(Repr()) || fresh(o))
        invariant Learned() == KnownAfter(k, Flat(bursts[..i]))
                  && sent == sent0 + RunAttempts(k, bursts[..i], |sent0|, net)
        invariant Book() == RunBook(m, k, bursts[..i], |sent0|, net)
      {
        OneMoreBurst(m, k, bursts, i, |sent0|, net);
        HandleBurst(bursts[i]);
      }
      assert bursts[..|bursts|] == bursts;
    }
  }

  // ---------- Bursts ----------

  /** The datagrams queued in the first j slots of the two arrays. */
  ghost function Queue(toFrame: array<Frame>, toPeer: array<Addr>, j: nat): (r: seq<Attempt>)
    requires j <= toFrame.Length == toPeer.Length
    reads toFrame, toPeer
    ensures |r| == j && forall a :: 0 <= a < j ==> r[a] == Attempt(toFrame[a], toPeer[a], false)
  {
    if j == 0 then [] else Queue(toFrame, toPeer, j - 1) + [Attempt(toFrame[j - 1], toPeer[j - 1], false)]
  }

  lemma QueueStep(toFrame: array<Frame>, toPeer: array<Addr>, a: nat)
    requires a <= toFrame.Length == toPeer.Length
    ensures Queue(toFrame, toPeer, 0) == []
    ensures a < toPeer.Length
            ==> Queue(toFrame, toPeer, a + 1) == Queue(toFrame, toPeer, a) + [Attempt(toFrame[a], toPeer[a], false)]
  {
  }

  method Enqueue(toFrame: array<Frame>, toPeer: array<Addr>, j: nat, frame: Frame, peer: Addr)
    requires j < toFrame.Length == toPeer.Length
    modifies toFrame, toPeer
    ensures Queue(toFrame, toPeer, j) == old(Queue(toFrame, toPeer, j))
    ensures Queue(toFrame, toPeer, j + 1) == old(Queue(toFrame, toPeer, j)) + [Attempt(frame, peer, false)]
  {
    toFrame[j] := frame;
    toPeer[j] := peer;
  }

  lemma LearnIs(k: Known, i: Input)
    ensures Learn(k, i) == if i.frame.src in k.fdb then k
                           else Known(k.fdb[i.frame.src := i.from], [(i.frame.src, i.from)] + k.ring)
  {
  }

  lemma RouteIs(k: Known, i: Input)
    ensures RouteOf(k, i) == if i.frame.dst[0] % 2 == 1 || i.frame.dst !in k.fdb then ToAll
                             else if k.fdb[i.frame.dst] == i.from then Nowhere
                             else ToPeer(k.fdb[i.frame.dst])
  {
  }

  lemma MulticastIs(mac: Mac)
    ensures IsMulticast(mac) <==> mac[0] % 2 == 1
  {
  }

  lemma AcceptNext(count: nat, n: nat, net: Network)
    requires count > 0
    ensures Accepted(count, n, net) == if net.sendOk(n) then 1 + Accepted(count - 1, n + 1, net) else 0
  {
  }

  lemma AcceptNone(n: nat, net: Network)
    ensures Accepted(0, n, net) == 0
  {
  }

  lemma QueueNothing(n: nat, net: Network)
    ensures QueueAttempts([], n, net) == []
  {
  }

  lemma EmptyFrameBook(m: Book, k: Known, n: nat, sendOk: nat -> bool)
    ensures FrameBook(m, k, [], n, sendOk) == m
  {
  }

  lemma NoBurstsYet(m: Book, k: Known, n: nat, net: Network)
    ensures Flat<Input>([]) == [] && KnownAfter(k, []) == k && RunAttempts(k, [], n, net) == []
            && RunBook(m, k, [], n, net) == m
  {
  }

  lemma OneMoreBurst(m: Book, k: Known, bursts: seq<seq<Input>>, i: nat, n: nat, net: Network)
    requires i < |bursts|
    ensures var p, q, ts := Flat(bursts[..i]), bursts[i], RunAttempts(k, bursts[..i], n, net);
            && KnownAfter(k, Flat(bursts[..i + 1])) == KnownAfter(KnownAfter(k, p), q)
            && RunAttempts(k, bursts[..i + 1], n, net) == ts + BurstAttempts(KnownAfter(k, p), q, n + |ts|, net)
            && RunBook(m, k, bursts[..i + 1], n, net)
               == BurstBook(RunBook(m, k, bursts[..i], n, net), KnownAfter(k, p), q, n + |ts|, net.sendOk)
  {
    hide *;
    assert bursts[..i + 1][..i] == bursts[..i];
    LastBurst(k, bursts[..i + 1], n, net);
    LastBook(m, k, bursts[..i + 1], n, net);
    KnownAppend(k, Flat(bursts[..i]), bursts[i]);
  }

  /** What a frame sends and counts, by its route. */
  lemma StepIs(m: Book, k: Known, i: Input, n: nat, sendOk: nat -> bool)
    ensures var route, ts, m' := RouteOf(k, i), Flood(i.frame, Targets(Addrs(k.ring), i.from)),
                                 CountRx(m, i.from.ip, 1, i.frame.len as nat);
            && FloodsFor(k, i) == (if route.ToAll? then ts else [])
            && UnicastsFor(k, i) == (if route.ToPeer? then [Attempt(i.frame, route.peer, false)] else [])
            && FrameStep(m, k, i, n, sendOk) == (if route.ToAll? then CountSent(m', ts, n, sendOk) else m)
            && BurstStep(m, k, i, n, sendOk)
               == (if route.ToAll? then CountSent(m', ts, n, sendOk)
                   else if route.ToPeer? then CountTx(m', route.peer.ip, 1, i.frame.len as nat)
                   else m')
  {
    hide CountRx, CountSent, CountTx, Flood, Targets, RouteOf;
  }
}
