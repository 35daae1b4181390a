/** The per-IP counters of statistics.c over whole runs. */
module Ledger {
  import opened Collections
  import opened Elements
  import opened BridgeSpec

  const TWO_64: int := 0x1_0000_0000_0000_0000

  newtype u64 = x: int | 0 <= x < TWO_64

  /** The current counters of one IP address. */
  datatype Counters = Counters(rxPackets: u64, rxBytes: u64, txPackets: u64, txBytes: u64)

  const ZERO := Counters(0, 0, 0, 0)

  /** An unsigned 64-bit counter wraps. */
  function Plus(x: u64, d: nat): u64 {
    ((x as int + d) % TWO_64) as u64
  }

  lemma PlusPlus(x: u64, d: nat, e: nat)
    ensures Plus(Plus(x, d), e) == Plus(x, d + e)
  {
    var a := x as int + d;
    assert (a % TWO_64 + e) % TWO_64 == (a + e) % TWO_64;
  }

  lemma PlusNothing(x: u64)
    ensures Plus(x, 0) == x
  {
  }

  function Bytes(n: nat, count: nat): (key: Key)
    ensures |key| == count
  {
    if count == 0 then [] else [(n % 0x100) as byte] + Bytes(n / 0x100, count - 1)
  }

  function Bound(count: nat): nat {
    if count == 0 then 1 else 0x100 * Bound(count - 1)
  }

  lemma {:induction false} BytesInjective(a: nat, b: nat, count: nat)
    requires a < Bound(count) && b < Bound(count) && Bytes(a, count) == Bytes(b, count)
    ensures a == b
  {
    if count != 0 {
      var x, y := Bytes(a, count), Bytes(b, count);
      assert x[0] == y[0] && x[1..] == y[1..];
      BytesInjective(a / 0x100, b / 0x100, count - 1);
    }
  }

  /** The four bytes that HASH_FIND_INT takes as the key. */
  function IpKey(ip: u32): (key: Key)
    ensures |key| == 4
  {
    Bytes(ip as nat, 4)
  }

  lemma IpKeyInjective(a: u32, b: u32)
    ensures IpKey(a) == IpKey(b) ==> a == b
  {
    assert Bound(4) == 0x1_0000_0000;
    if IpKey(a) == IpKey(b) {
      hide Bytes;
      BytesInjective(a as nat, b as nat, 4);
    }
  }

  type Book = map<Key, Counters>

  function Row(m: Book, ip: u32): Counters {
    if IpKey(ip) in m then m[IpKey(ip)] else ZERO
  }

  /** wlan_ip_static_update_rx. */
  function CountRx(m: Book, ip: u32, packets: nat, bytes: nat): Book {
    var c := Row(m, ip);
    m[IpKey(ip) := c.(rxPackets := Plus(c.rxPackets, packets), rxBytes := Plus(c.rxBytes, bytes))]
  }

  /** wlan_ip_static_update_tx. */
  function CountTx(m: Book, ip: u32, packets: nat, bytes: nat): Book {
    var c := Row(m, ip);
    m[IpKey(ip) := c.(txPackets := Plus(c.txPackets, packets), txBytes := Plus(c.txBytes, bytes))]
  }

  // ---------- The counters of a run ----------

  /** The transmit counts of flood attempts, the first being attempt n of all; only
      the successful ones count. */
  function CountSent(m: Book, ts: seq<Attempt>, n: nat, sendOk: nat -> bool): Book {
    if ts == [] then m
    else
      var e := |ts| - 1;
      var m' := CountSent(m, ts[..e], n, sendOk);
      if sendOk(n + e) then CountTx(m', ts[e].to.ip, 1, ts[e].frame.len as nat) else m'
  }

  /** The counters after one frame of a burst: received under the sender's IP, sent
      under the IP of each peer the frame goes to. n floods were attempted before. */
  function BurstStep(m: Book, k: Known, i: Input, n: nat, sendOk: nat -> bool): Book {
    var m' := CountRx(m, i.from.ip, 1, i.frame.len as nat);
    match RouteOf(k, i)
    case ToAll => CountSent(m', FloodsFor(k, i), n, sendOk)
    case ToPeer(p) => CountTx(m', p.ip, 1, i.frame.len as nat)
    case Nowhere => m'
  }

  /** The frame-by-frame form counts a frame only when it floods it. */
  function FrameStep(m: Book, k: Known, i: Input, n: nat, sendOk: nat -> bool): Book {
    if RouteOf(k, i).ToAll?
    then CountSent(CountRx(m, i.from.ip, 1, i.frame.len as nat), FloodsFor(k, i), n, sendOk)
    else m
  }

  /** The counters after frames handled one at a time. */
  function FrameBook(m: Book, k: Known, inputs: seq<Input>, n: nat, sendOk: nat -> bool): Book {
    if inputs == [] then m
    else
      var e := |inputs| - 1;
      var before := FrameBook(m, k, inputs[..e], n, sendOk);
      FrameStep(before, KnownAfter(k, inputs), inputs[e], n + |FrameAttempts(k, inputs[..e])|, sendOk)
  }

  function BurstBook(m: Book, k: Known, inputs: seq<Input>, n: nat, sendOk: nat -> bool): Book {
    if inputs == [] then m
    else
      var e := |inputs| - 1;
      var before := BurstBook(m, k, inputs[..e], n, sendOk);
      BurstStep(before, KnownAfter(k, inputs), inputs[e], n + |FloodsOf(k, inputs[..e])|, sendOk)
  }

  // ---------- What has to be in the counters ----------

  /** Frames, and bytes, received from some IP addresses. */
  function Received(inputs: seq<Input>, who: set<u32>): nat {
    if inputs == [] then 0
    else Received(inputs[..|inputs| - 1], who) + if inputs[|inputs| - 1].from.ip in who then 1 else 0
  }

  function ReceivedBytes(inputs: seq<Input>, who: set<u32>): nat {
    if inputs == [] then 0
    else
      var i := inputs[|inputs| - 1];
      ReceivedBytes(inputs[..|inputs| - 1], who) + if i.from.ip in who then i.frame.len as nat else 0
  }

  /** Datagrams, and bytes, sent to some IP addresses: every unicast that was queued and
      every flood attempt that succeeded, the first being attempt n of all. */
  function Sent(ts: seq<Attempt>, n: nat, sendOk: nat -> bool, who: set<u32>): nat {
    if ts == [] then 0
    else
      var t := ts[|ts| - 1];
      Sent(ts[..|ts| - 1], n, sendOk, who) + if t.to.ip in who && (t.flooded ==> sendOk(n + |ts| - 1)) then 1 else 0
  }

  function SentBytes(ts: seq<Attempt>, n: nat, sendOk: nat -> bool, who: set<u32>): nat {
    if ts == [] then 0
    else
      var t := ts[|ts| - 1];
      SentBytes(ts[..|ts| - 1], n, sendOk, who)
      + if t.to.ip in who && (t.flooded ==> sendOk(n + |ts| - 1)) then t.frame.len as nat else 0
  }

  /** c with so much received and sent added. */
  function Bumped(c: Counters, rx: nat, rxBytes: nat, tx: nat, txBytes: nat): Counters {
    Counters(Plus(c.rxPackets, rx), Plus(c.rxBytes, rxBytes), Plus(c.txPackets, tx), Plus(c.txBytes, txBytes))
  }

  lemma BumpedTwice(c: Counters, a: nat, b: nat, d: nat, e: nat, a': nat, b': nat, d': nat, e': nat)
    ensures Bumped(Bumped(c, a, b, d, e), a', b', d', e') == Bumped(c, a + a', b + b', d + d', e + e')
    ensures Bumped(c, 0, 0, 0, 0) == c
  {
    hide Plus;
    PlusPlus(c.rxPackets, a, a');
    PlusPlus(c.rxBytes, b, b');
    PlusPlus(c.txPackets, d, d');
    PlusPlus(c.txBytes, e, e');
    PlusNothing(c.rxPackets);
    PlusNothing(c.rxBytes);
    PlusNothing(c.txPackets);
    PlusNothing(c.txBytes);
  }

  /** Each counter grows by its own amount, modulo 2^64. */
  lemma BumpedIs(c: Counters, rx: nat, rxBytes: nat, tx: nat, txBytes: nat)
    ensures var d := Bumped(c, rx, rxBytes, tx, txBytes);
            && d.rxPackets as int == (c.rxPackets as int + rx) % 0x1_0000_0000_0000_0000
            && d.rxBytes as int == (c.rxBytes as int + rxBytes) % 0x1_0000_0000_0000_0000
            && d.txPackets as int == (c.txPackets as int + tx) % 0x1_0000_0000_0000_0000
            && d.txBytes as int == (c.txBytes as int + txBytes) % 0x1_0000_0000_0000_0000
  {
  }

  lemma RowAfterRx(m: Book, at: u32, bytes: nat, ip: u32)
    ensures Row(CountRx(m, at, 1, bytes), ip)
            == if at == ip then Bumped(Row(m, ip), 1, bytes, 0, 0) else Row(m, ip)
  {
    IpKeyInjective(at, ip);
    hide Plus, IpKey;
    PlusNothing(Row(m, ip).txPackets);
    PlusNothing(Row(m, ip).txBytes);
  }

  lemma RowAfterTx(m: Book, at: u32, bytes: nat, ip: u32)
    ensures Row(CountTx(m, at, 1, bytes), ip)
            == if at == ip then Bumped(Row(m, ip), 0, 0, 1, bytes) else Row(m, ip)
  {
    IpKeyInjective(at, ip);
    hide Plus, IpKey;
    PlusNothing(Row(m, ip).rxPackets);
    PlusNothing(Row(m, ip).rxBytes);
  }

  /** Counting flood attempts adds exactly the successful ones. */
  lemma {:induction false} CountSentRow(m: Book, ts: seq<Attempt>, n: nat, sendOk: nat -> bool, ip: u32)
    requires forall a :: 0 <= a < |ts| ==> ts[a].flooded
    ensures Row(CountSent(m, ts, n, sendOk), ip)
            == Bumped(Row(m, ip), 0, 0, Sent(ts, n, sendOk, {ip}), SentBytes(ts, n, sendOk, {ip}))
  {
    hide Row, Bumped, CountTx;
    BumpedTwice(Row(m, ip), 0, 0, 0, 0, 0, 0, 0, 0);
    if ts != [] {
      var e := |ts| - 1;
      CountSentRow(m, ts[..e], n, sendOk, ip);
      var m', len := CountSent(m, ts[..e], n, sendOk), ts[e].frame.len as nat;
      RowAfterTx(m', ts[e].to.ip, len, ip);
      BumpedTwice(Row(m, ip), 0, 0, Sent(ts[..e], n, sendOk, {ip}), SentBytes(ts[..e], n, sendOk, {ip}), 0, 0, 1, len);
    }
  }

  lemma SentNothing(n: nat, sendOk: nat -> bool, who: set<u32>)
    ensures Sent([], n, sendOk, who) == 0 && SentBytes([], n, sendOk, who) == 0
  {
  }

  lemma SentUnicast(t: Attempt, n: nat, sendOk: nat -> bool, who: set<u32>)
    requires !t.flooded
    ensures Sent([t], n, sendOk, who) == if t.to.ip in who then 1 else 0
    ensures SentBytes([t], n, sendOk, who) == if t.to.ip in who then t.frame.len as nat else 0
  {
    assert [t][..0] == [];
  }

  /** What a frame makes the bridge send, floods before unicasts. */
  function AttemptsFor(k: Known, i: Input): seq<Attempt> {
    FloodsFor(k, i) + UnicastsFor(k, i)
  }

  lemma AttemptsForRoute(k: Known, i: Input)
    ensures AttemptsFor(k, i) ==
            match RouteOf(k, i)
            case ToAll => FloodsFor(k, i)
            case ToPeer(p) => [Attempt(i.frame, p, false)]
            case Nowhere => []
    ensures forall a :: 0 <= a < |FloodsFor(k, i)| ==> FloodsFor(k, i)[a].flooded
  {
    hide Targets;
    if RouteOf(k, i).ToAll? {
      assert AttemptsFor(k, i) == FloodsFor(k, i);
    }
  }

  /** One frame of a burst counts once received, and once sent for each peer reached. */
  lemma BurstStepRow(m: Book, k: Known, i: Input, n: nat, sendOk: nat -> bool, ip: u32)
    ensures var rx := if i.from.ip == ip then 1 else 0;
            var ts := AttemptsFor(k, i);
            Row(BurstStep(m, k, i, n, sendOk), ip)
            == Bumped(Row(m, ip), rx, rx * i.frame.len as nat,
                      Sent(ts, n, sendOk, {ip}), SentBytes(ts, n, sendOk, {ip}))
  {
    hide Row, Bumped, CountTx, CountRx, CountSent, AttemptsFor, FloodsFor, RouteOf, Sent, SentBytes;
    var len := i.frame.len as nat;
    var c := Row(m, ip);
    var m' := CountRx(m, i.from.ip, 1, len);
    var rx := if i.from.ip == ip then 1 else 0;
    RowAfterRx(m, i.from.ip, len, ip);
    AttemptsForRoute(k, i);
    BumpedTwice(c, 0, 0, 0, 0, 0, 0, 0, 0);
    assert Row(m', ip) == Bumped(c, rx, rx * len, 0, 0);
    match RouteOf(k, i) {
      case ToAll =>
        var ts := FloodsFor(k, i);
        CountSentRow(m', ts, n, sendOk, ip);
        BumpedTwice(c, rx, rx * len, 0, 0, 0, 0, Sent(ts, n, sendOk, {ip}), SentBytes(ts, n, sendOk, {ip}));
      case ToPeer(p) =>
        RowAfterTx(m', p.ip, len, ip);
        SentUnicast(Attempt(i.frame, p, false), n, sendOk, {ip});
        BumpedTwice(c, rx, rx * len, 0, 0, 0, 0, 1, len);
      case Nowhere =>
        SentNothing(n, sendOk, {ip});
    }
  }

  lemma {:induction false} SentAppend(p: seq<Attempt>, q: seq<Attempt>, n: nat, sendOk: nat -> bool, who: set<u32>)
    ensures Sent(p + q, n, sendOk, who) == Sent(p, n, sendOk, who) + Sent(q, n + |p|, sendOk, who)
    ensures SentBytes(p + q, n, sendOk, who) == SentBytes(p, n, sendOk, who) + SentBytes(q, n + |p|, sendOk, who)
  {
    if q == [] {
      assert p + q == p;
    } else {
      assert (p + q)[..|p + q| - 1] == p + q[..|q| - 1];
      SentAppend(p, q[..|q| - 1], n, sendOk, who);
    }
  }

  /** Whether a unicast succeeds does not matter to the counters. */
  lemma {:induction false} SentUnicasts(ts: seq<Attempt>, n: nat, n': nat, sendOk: nat -> bool, who: set<u32>)
    requires forall a :: 0 <= a < |ts| ==> !ts[a].flooded
    ensures Sent(ts, n, sendOk, who) == Sent(ts, n', sendOk, who)
    ensures SentBytes(ts, n, sendOk, who) == SentBytes(ts, n', sendOk, who)
  {
    if ts != [] {
      SentUnicasts(ts[..|ts| - 1], n, n', sendOk, who);
    }
  }

  lemma UnicastsForOnly(k: Known, i: Input)
    ensures forall a :: 0 <= a < |UnicastsFor(k, i)| ==> !UnicastsFor(k, i)[a].flooded
  {
  }

  /** The attempts of a burst, one more frame at a time. */
  lemma BurstSentStep(k: Known, p: seq<Input>, i: Input, n: nat, sendOk: nat -> bool, who: set<u32>)
    ensures var now, n' := KnownAfter(k, p + [i]), n + |FloodsOf(k, p)|;
            && Sent(BurstQueued(k, p + [i]), n, sendOk, who)
               == Sent(BurstQueued(k, p), n, sendOk, who) + Sent(AttemptsFor(now, i), n', sendOk, who)
            && SentBytes(BurstQueued(k, p + [i]), n, sendOk, who)
               == SentBytes(BurstQueued(k, p), n, sendOk, who) + SentBytes(AttemptsFor(now, i), n', sendOk, who)
  {
    hide *;
    var now, n' := KnownAfter(k, p + [i]), n + |FloodsOf(k, p)|;
    OneMoreInput(k, p, i);
    var fs, us, f, u := FloodsOf(k, p), UnicastsOf(k, p), FloodsFor(now, i), UnicastsFor(now, i);
    Made(k, p, now, i);
    Made(k, p + [i], now, i);
    UnicastsOnly(k, p);
    UnicastsForOnly(now, i);
    SentAppend(fs + f, us + u, n, sendOk, who);
    SentAppend(fs, f, n, sendOk, who);
    SentAppend(us, u, n + |fs + f|, sendOk, who);
    SentAppend(fs, us, n, sendOk, who);
    SentAppend(f, u, n', sendOk, who);
    SentUnicasts(us, n + |fs + f|, n + |fs|, sendOk, who);
    SentUnicasts(u, n + |fs + f| + |us|, n' + |f|, sendOk, who);
  }

  lemma Made(k: Known, p: seq<Input>, now: Known, i: Input)
    ensures BurstQueued(k, p) == FloodsOf(k, p) + UnicastsOf(k, p)
    ensures AttemptsFor(now, i) == FloodsFor(now, i) + UnicastsFor(now, i)
  {
  }

  /** Over a burst every frame is counted once in rx under its sender's IP, and tx
      counts the queued unicasts and the successful flood sends, modulo 2^64. */
  lemma {:induction false} BurstConserves(m: Book, k: Known, inputs: seq<Input>, n: nat, sendOk: nat -> bool, ip: u32)
    ensures var ts := BurstQueued(k, inputs);
            Row(BurstBook(m, k, inputs, n, sendOk), ip)
            == Bumped(Row(m, ip), Received(inputs, {ip}), ReceivedBytes(inputs, {ip}),
                      Sent(ts, n, sendOk, {ip}), SentBytes(ts, n, sendOk, {ip}))
  {
    hide *;
    var c := Row(m, ip);
    BumpedTwice(c, 0, 0, 0, 0, 0, 0, 0, 0);
    if inputs == [] {
      EmptyBurst(m, k, n, sendOk, ip);
    } else {
      var e := |inputs| - 1;
      var p, i := inputs[..e], inputs[e];
      assert inputs == p + [i];
      BurstConserves(m, k, p, n, sendOk, ip);
      BookStep(m, k, p, i, n, sendOk);
      ReceivedStep(p, i, {ip});
      var now, n' := KnownAfter(k, p + [i]), n + |FloodsOf(k, p)|;
      BurstStepRow(BurstBook(m, k, p, n, sendOk), now, i, n', sendOk, ip);
      BurstSentStep(k, p, i, n, sendOk, {ip});
      var rx := if i.from.ip == ip then 1 else 0;
      BumpedTwice(c, Received(p, {ip}), ReceivedBytes(p, {ip}),
                  Sent(BurstQueued(k, p), n, sendOk, {ip}), SentBytes(BurstQueued(k, p), n, sendOk, {ip}),
                  rx, rx * i.frame.len as nat,
                  Sent(AttemptsFor(now, i), n', sendOk, {ip}), SentBytes(AttemptsFor(now, i), n', sendOk, {ip}));
    }
  }

  lemma EmptyBurst(m: Book, k: Known, n: nat, sendOk: nat -> bool, ip: u32)
    ensures BurstBook(m, k, [], n, sendOk) == m
    ensures Received([], {ip}) == 0 && ReceivedBytes([], {ip}) == 0
    ensures Sent(BurstQueued(k, []), n, sendOk, {ip}) == 0 && SentBytes(BurstQueued(k, []), n, sendOk, {ip}) == 0
  {
    assert BurstQueued(k, []) == [];
  }

  lemma ReceivedStep(p: seq<Input>, i: Input, who: set<u32>)
    ensures var rx := if i.from.ip in who then 1 else 0;
            && Received(p + [i], who) == Received(p, who) + rx
            && ReceivedBytes(p + [i], who) == ReceivedBytes(p, who) + rx * i.frame.len as nat
  {
    assert (p + [i])[..|p|] == p;
  }

  lemma BookStep(m: Book, k: Known, p: seq<Input>, i: Input, n: nat, sendOk: nat -> bool)
    ensures BurstBook(m, k, p + [i], n, sendOk)
            == BurstStep(BurstBook(m, k, p, n, sendOk), KnownAfter(k, p + [i]), i, n + |FloodsOf(k, p)|, sendOk)
  {
    hide *;
    var inputs := p + [i];
    assert inputs[..|inputs| - 1] == p && inputs[|inputs| - 1] == i;
    BookLast(m, k, inputs, n, sendOk);
  }

  lemma FrameBookStep(m: Book, k: Known, p: seq<Input>, i: Input, n: nat, sendOk: nat -> bool)
    ensures FrameBook(m, k, p + [i], n, sendOk)
            == FrameStep(FrameBook(m, k, p, n, sendOk), KnownAfter(k, p + [i]), i, n + |FrameAttempts(k, p)|, sendOk)
  {
    hide FrameStep, KnownAfter, FrameAttempts;
    var inputs := p + [i];
    assert inputs[..|inputs| - 1] == p && inputs[|inputs| - 1] == i;
  }

  lemma BookLast(m: Book, k: Known, inputs: seq<Input>, n: nat, sendOk: nat -> bool)
    requires inputs != []
    ensures var e := |inputs| - 1;
            BurstBook(m, k, inputs, n, sendOk)
            == BurstStep(BurstBook(m, k, inputs[..e], n, sendOk), KnownAfter(k, inputs), inputs[e],
                         n + |FloodsOf(k, inputs[..e])|, sendOk)
  {
    hide BurstStep, KnownAfter, FloodsOf;
  }

  // ---------- Several bursts ----------

  function RunBook(m: Book, k: Known, bursts: seq<seq<Input>>, n: nat, net: Network): Book {
    if bursts == [] then m
    else
      var e := |bursts| - 1;
      BurstBook(RunBook(m, k, bursts[..e], n, net), KnownAfter(k, Flat(bursts[..e])), bursts[e],
                n + |RunAttempts(k, bursts[..e], n, net)|, net.sendOk)
  }

  /** Datagrams, and bytes, sent to some IP addresses over a run: the queued unicasts and
      the successful floods of every burst. */
  function RunSent(k: Known, bursts: seq<seq<Input>>, n: nat, net: Network, who: set<u32>): nat {
    if bursts == [] then 0
    else
      var e := |bursts| - 1;
      var queued := BurstQueued(KnownAfter(k, Flat(bursts[..e])), bursts[e]);
      RunSent(k, bursts[..e], n, net, who) + Sent(queued, n + |RunAttempts(k, bursts[..e], n, net)|, net.sendOk, who)
  }

  function RunSentBytes(k: Known, bursts: seq<seq<Input>>, n: nat, net: Network, who: set<u32>): nat {
    if bursts == [] then 0
    else
      var e := |bursts| - 1;
      var queued := BurstQueued(KnownAfter(k, Flat(bursts[..e])), bursts[e]);
      RunSentBytes(k, bursts[..e], n, net, who)
      + SentBytes(queued, n + |RunAttempts(k, bursts[..e], n, net)|, net.sendOk, who)
  }

  lemma {:induction false} ReceivedAppend(p: seq<Input>, q: seq<Input>, who: set<u32>)
    ensures Received(p + q, who) == Received(p, who) + Received(q, who)
    ensures ReceivedBytes(p + q, who) == ReceivedBytes(p, who) + ReceivedBytes(q, who)
  {
    hide *;
    if q == [] {
      NoneReceived(who);
      assert p + q == p;
    } else {
      var r, i := q[..|q| - 1], q[|q| - 1];
      ReceivedAppend(p, r, who);
      assert p + q == (p + r) + [i] && q == r + [i];
      ReceivedStep(p + r, i, who);
      ReceivedStep(r, i, who);
    }
  }

  lemma NoneReceived(who: set<u32>)
    ensures Received([], who) == 0 && ReceivedBytes([], who) == 0
  {
  }

  /** The conservation over any run of bursts, for every IP. */
  lemma {:induction false} RunConserves(m: Book, k: Known, bursts: seq<seq<Input>>, n: nat, net: Network, ip: u32)
    ensures var inputs := Flat(bursts);
            Row(RunBook(m, k, bursts, n, net), ip)
            == Bumped(Row(m, ip), Received(inputs, {ip}), ReceivedBytes(inputs, {ip}),
                      RunSent(k, bursts, n, net, {ip}), RunSentBytes(k, bursts, n, net, {ip}))
    ensures var inputs, c, d := Flat(bursts), Row(m, ip), Row(RunBook(m, k, bursts, n, net), ip);
            && d.rxPackets as int == (c.rxPackets as int + Received(inputs, {ip})) % 0x1_0000_0000_0000_0000
            && d.rxBytes as int == (c.rxBytes as int + ReceivedBytes(inputs, {ip})) % 0x1_0000_0000_0000_0000
            && d.txPackets as int == (c.txPackets as int + RunSent(k, bursts, n, net, {ip})) % 0x1_0000_0000_0000_0000
            && d.txBytes as int == (c.txBytes as int + RunSentBytes(k, bursts, n, net, {ip})) % 0x1_0000_0000_0000_0000
  {
    hide *;
    var c := Row(m, ip);
    BumpedIs(c, Received(Flat(bursts), {ip}), ReceivedBytes(Flat(bursts), {ip}),
             RunSent(k, bursts, n, net, {ip}), RunSentBytes(k, bursts, n, net, {ip}));
    BumpedTwice(c, 0, 0, 0, 0, 0, 0, 0, 0);
    if bursts == [] {
      EmptyRun(m, k, n, net);
      NothingSent(k, n, net, {ip});
      NoneReceived({ip});
    } else {
      var e := |bursts| - 1;
      RunConserves(m, k, bursts[..e], n, net, ip);
      LastBook(m, k, bursts, n, net);
      LastSent(k, bursts, n, net, {ip});
      FlatLast(bursts);
      var p, q := Flat(bursts[..e]), bursts[e];
      var mid, n' := KnownAfter(k, p), n + |RunAttempts(k, bursts[..e], n, net)|;
      var us := BurstQueued(mid, q);
      BurstConserves(RunBook(m, k, bursts[..e], n, net), mid, q, n', net.sendOk, ip);
      ReceivedAppend(p, q, {ip});
      BumpedTwice(c, Received(p, {ip}), ReceivedBytes(p, {ip}),
                  RunSent(k, bursts[..e], n, net, {ip}), RunSentBytes(k, bursts[..e], n, net, {ip}),
                  Received(q, {ip}), ReceivedBytes(q, {ip}),
                  Sent(us, n', net.sendOk, {ip}), SentBytes(us, n', net.sendOk, {ip}));
    }
  }

  lemma EmptyRun(m: Book, k: Known, n: nat, net: Network)
    ensures RunBook(m, k, [], n, net) == m && Flat<Input>([]) == []
  {
  }

  lemma LastBook(m: Book, k: Known, bursts: seq<seq<Input>>, n: nat, net: Network)
    requires bursts != []
    ensures var e := |bursts| - 1;
            RunBook(m, k, bursts, n, net)
            == BurstBook(RunBook(m, k, bursts[..e], n, net), KnownAfter(k, Flat(bursts[..e])), bursts[e],
                         n + |RunAttempts(k, bursts[..e], n, net)|, net.sendOk)
  {
    hide BurstBook, KnownAfter, RunAttempts, Flat;
  }

  lemma LastSent(k: Known, bursts: seq<seq<Input>>, n: nat, net: Network, who: set<u32>)
    requires bursts != []
    ensures var e := |bursts| - 1;
            var us := BurstQueued(KnownAfter(k, Flat(bursts[..e])), bursts[e]);
            var n' := n + |RunAttempts(k, bursts[..e], n, net)|;
            && RunSent(k, bursts, n, net, who) == RunSent(k, bursts[..e], n, net, who) + Sent(us, n', net.sendOk, who)
            && RunSentBytes(k, bursts, n, net, who)
               == RunSentBytes(k, bursts[..e], n, net, who) + SentBytes(us, n', net.sendOk, who)
  {
    hide BurstQueued, KnownAfter, RunAttempts, Flat, Sent, SentBytes;
  }

  lemma NothingSent(k: Known, n: nat, net: Network, who: set<u32>)
    ensures RunSent(k, [], n, net, who) == 0 && RunSentBytes(k, [], n, net, who) == 0
  {
  }

  // ---------- Totals over many addresses ----------

  datatype Stat = RxPackets | RxBytes | TxPackets | TxBytes

  function Get(c: Counters, stat: Stat): nat {
    match stat
    case RxPackets => c.rxPackets as nat
    case RxBytes => c.rxBytes as nat
    case TxPackets => c.txPackets as nat
    case TxBytes => c.txBytes as nat
  }

  /** What a run moves to or from some IP addresses. */
  function Moved(k: Known, bursts: seq<seq<Input>>, n: nat, net: Network, stat: Stat, who: set<u32>): nat {
    match stat
    case RxPackets => Received(Flat(bursts), who)
    case RxBytes => ReceivedBytes(Flat(bursts), who)
    case TxPackets => RunSent(k, bursts, n, net, who)
    case TxBytes => RunSentBytes(k, bursts, n, net, who)
  }

  /** One statistic added up over the rows of some IP addresses. */
  ghost function SumRows(m: Book, stat: Stat, who: set<u32>): nat {
    if who == {} then 0
    else
      var ip :| ip in who;
      Get(Row(m, ip), stat) + SumRows(m, stat, who - {ip})
  }

  lemma {:induction false} SumRowsAt(m: Book, stat: Stat, who: set<u32>, ip: u32)
    requires ip in who
    ensures SumRows(m, stat, who) == Get(Row(m, ip), stat) + SumRows(m, stat, who - {ip})
    decreases who
  {
    hide Row, Get;
    var first :| first in who && SumRows(m, stat, who) == Get(Row(m, first), stat) + SumRows(m, stat, who - {first});
    if first != ip {
      SumRowsAt(m, stat, who - {first}, ip);
      SumRowsAt(m, stat, who - {ip}, first);
      assert who - {first} - {ip} == who - {ip} - {first};
    }
  }

  lemma {:induction false} ReceivedSplit(inputs: seq<Input>, a: set<u32>, b: set<u32>)
    requires a !! b
    ensures Received(inputs, a + b) == Received(inputs, a) + Received(inputs, b)
    ensures ReceivedBytes(inputs, a + b) == ReceivedBytes(inputs, a) + ReceivedBytes(inputs, b)
  {
    if inputs != [] {
      ReceivedSplit(inputs[..|inputs| - 1], a, b);
    }
  }

  lemma {:induction false} SentSplit(ts: seq<Attempt>, n: nat, sendOk: nat -> bool, a: set<u32>, b: set<u32>)
    requires a !! b
    ensures Sent(ts, n, sendOk, a + b) == Sent(ts, n, sendOk, a) + Sent(ts, n, sendOk, b)
    ensures SentBytes(ts, n, sendOk, a + b) == SentBytes(ts, n, sendOk, a) + SentBytes(ts, n, sendOk, b)
  {
    if ts != [] {
      SentSplit(ts[..|ts| - 1], n, sendOk, a, b);
    }
  }

  lemma {:induction false} RunSentSplit(k: Known, bursts: seq<seq<Input>>, n: nat, net: Network, a: set<u32>,
                                        b: set<u32>)
    requires a !! b
    ensures RunSent(k, bursts, n, net, a + b) == RunSent(k, bursts, n, net, a) + RunSent(k, bursts, n, net, b)
    ensures RunSentBytes(k, bursts, n, net, a + b)
            == RunSentBytes(k, bursts, n, net, a) + RunSentBytes(k, bursts, n, net, b)
  {
    hide *;
    if bursts == [] {
      NothingSent(k, n, net, a);
      NothingSent(k, n, net, b);
      NothingSent(k, n, net, a + b);
    } else {
      var e := |bursts| - 1;
      RunSentSplit(k, bursts[..e], n, net, a, b);
      LastSent(k, bursts, n, net, a);
      LastSent(k, bursts, n, net, b);
      LastSent(k, bursts, n, net, a + b);
      SentSplit(BurstQueued(KnownAfter(k, Flat(bursts[..e])), bursts[e]),
                n + |RunAttempts(k, bursts[..e], n, net)|, net.sendOk, a, b);
    }
  }

  lemma MovedSplit(k: Known, bursts: seq<seq<Input>>, n: nat, net: Network, stat: Stat, who: set<u32>, ip: u32)
    requires ip in who
    ensures Moved(k, bursts, n, net, stat, who)
            == Moved(k, bursts, n, net, stat, {ip}) + Moved(k, bursts, n, net, stat, who - {ip})
  {
    hide Received, ReceivedBytes, RunSent, RunSentBytes, Flat;
    assert who == {ip} + (who - {ip});
    ReceivedSplit(Flat(bursts), {ip}, who - {ip});
    RunSentSplit(k, bursts, n, net, {ip}, who - {ip});
  }

  lemma MovedNowhere(k: Known, bursts: seq<seq<Input>>, n: nat, net: Network, stat: Stat)
    ensures Moved(k, bursts, n, net, stat, {}) == 0
  {
    hide Received, ReceivedBytes, RunSent, RunSentBytes, Flat;
    var none: set<u32> := {};
    assert none + none == none;
    ReceivedSplit(Flat(bursts), none, none);
    RunSentSplit(k, bursts, n, net, none, none);
  }

  /** One statistic of one IP after a run. */
  lemma StatConserves(m: Book, k: Known, bursts: seq<seq<Input>>, n: nat, net: Network, stat: Stat, ip: u32)
    ensures Get(Row(RunBook(m, k, bursts, n, net), ip), stat)
            == (Get(Row(m, ip), stat) + Moved(k, bursts, n, net, stat, {ip})) % 0x1_0000_0000_0000_0000
  {
    hide Received, ReceivedBytes, RunSent, RunSentBytes, Flat, Row, RunBook;
    RunConserves(m, k, bursts, n, net, ip);
  }

  lemma NoWrap(x: nat)
    ensures x % TWO_64 <= x && (x % TWO_64 == x <==> x < TWO_64)
  {
  }

  /** Over any run and any set of IP addresses, a statistic's total grows by what was
      moved to or from them if and only if none of their counters wraps. */
  lemma {:induction false} RunTotals(m: Book, k: Known, bursts: seq<seq<Input>>, n: nat, net: Network, stat: Stat,
                                     who: set<u32>)
    ensures var after := RunBook(m, k, bursts, n, net);
            var total := SumRows(m, stat, who) + Moved(k, bursts, n, net, stat, who);
            && SumRows(after, stat, who) <= total
            && (SumRows(after, stat, who) == total
                <==> forall ip :: ip in who ==>
                       Get(Row(m, ip), stat) + Moved(k, bursts, n, net, stat, {ip}) < 0x1_0000_0000_0000_0000)
    decreases who
  {
    hide *;
    var after := RunBook(m, k, bursts, n, net);
    if who == {} {
      MovedNowhere(k, bursts, n, net, stat);
      SumOfNothing(m, stat);
      SumOfNothing(after, stat);
    } else {
      var ip :| ip in who;
      RunTotals(m, k, bursts, n, net, stat, who - {ip});
      MovedSplit(k, bursts, n, net, stat, who, ip);
      SumRowsAt(m, stat, who, ip);
      SumRowsAt(after, stat, who, ip);
      StatConserves(m, k, bursts, n, net, stat, ip);
      NoWrap(Get(Row(m, ip), stat) + Moved(k, bursts, n, net, stat, {ip}));
      assert forall other :: other in who <==> other == ip || other in who - {ip};
    }
  }

  lemma SumOfNothing(m: Book, stat: Stat)
    ensures SumRows(m, stat, {}) == 0
  {
  }

  // ---------- All addresses ----------

  function InputBytes(inputs: seq<Input>): nat {
    if inputs == [] then 0 else InputBytes(inputs[..|inputs| - 1]) + inputs[|inputs| - 1].frame.len as nat
  }

  function AttemptBytes(ts: seq<Attempt>): nat {
    if ts == [] then 0 else AttemptBytes(ts[..|ts| - 1]) + ts[|ts| - 1].frame.len as nat
  }

  /** The datagrams that are counted: every unicast and every flood that succeeds. */
  function Charged(ts: seq<Attempt>, n: nat, sendOk: nat -> bool): seq<Attempt> {
    if ts == [] then []
    else
      var e := |ts| - 1;
      Charged(ts[..e], n, sendOk) + if ts[e].flooded ==> sendOk(n + e) then [ts[e]] else []
  }

  /** The counted datagrams of a run: the queued unicasts and successful floods of each burst. */
  function RunCharged(k: Known, bursts: seq<seq<Input>>, n: nat, net: Network): seq<Attempt> {
    if bursts == [] then []
    else
      var e := |bursts| - 1;
      var queued := BurstQueued(KnownAfter(k, Flat(bursts[..e])), bursts[e]);
      RunCharged(k, bursts[..e], n, net) + Charged(queued, n + |RunAttempts(k, bursts[..e], n, net)|, net.sendOk)
  }

  /** Every datagram goes to one of these addresses. */
  ghost predicate AllTo(ts: seq<Attempt>, who: set<u32>) {
    forall a :: 0 <= a < |ts| ==> ts[a].to.ip in who
  }

  /** When the addresses include every sender, what they sent is all that was received. */
  lemma {:induction false} ReceivedFromAll(inputs: seq<Input>, who: set<u32>)
    requires forall i :: 0 <= i < |inputs| ==> inputs[i].from.ip in who
    ensures Received(inputs, who) == |inputs| && ReceivedBytes(inputs, who) == InputBytes(inputs)
  {
    if inputs != [] {
      ReceivedFromAll(inputs[..|inputs| - 1], who);
    }
  }

  lemma {:induction false} AttemptBytesAppend(p: seq<Attempt>, q: seq<Attempt>)
    ensures AttemptBytes(p + q) == AttemptBytes(p) + AttemptBytes(q)
  {
    if q == [] {
      assert p + q == p;
    } else {
      assert (p + q)[..|p + q| - 1] == p + q[..|q| - 1];
      AttemptBytesAppend(p, q[..|q| - 1]);
    }
  }

  lemma ChargeOne(ts: seq<Attempt>, t: Attempt, n: nat, sendOk: nat -> bool, who: set<u32>)
    ensures var more := if t.flooded ==> sendOk(n + |ts|) then [t] else [];
            && Charged(ts + [t], n, sendOk) == Charged(ts, n, sendOk) + more
            && (t.to.ip in who ==>
                  && Sent(ts + [t], n, sendOk, who) == Sent(ts, n, sendOk, who) + |more|
                  && SentBytes(ts + [t], n, sendOk, who) == SentBytes(ts, n, sendOk, who) + AttemptBytes(more))
  {
    assert (ts + [t])[..|ts|] == ts;
    assert [t][..0] == [];
  }

  lemma NothingCharged(n: nat, sendOk: nat -> bool, who: set<u32>)
    ensures Charged([], n, sendOk) == [] && AttemptBytes([]) == 0
    ensures Sent([], n, sendOk, who) == 0 && SentBytes([], n, sendOk, who) == 0
  {
  }

  /** When the addresses include every destination, what was sent to them is every queued
      unicast and every successful flood. */
  lemma {:induction false} SentToAll(ts: seq<Attempt>, n: nat, sendOk: nat -> bool, who: set<u32>)
    requires AllTo(ts, who)
    ensures Sent(ts, n, sendOk, who) == |Charged(ts, n, sendOk)|
    ensures SentBytes(ts, n, sendOk, who) == AttemptBytes(Charged(ts, n, sendOk))
  {
    hide Charged, Sent, SentBytes, AttemptBytes;
    if ts == [] {
      NothingCharged(n, sendOk, who);
    } else {
      var before, t := ts[..|ts| - 1], ts[|ts| - 1];
      assert ts == before + [t];
      SentToAll(before, n, sendOk, who);
      ChargeOne(before, t, n, sendOk, who);
      AttemptBytesAppend(Charged(before, n, sendOk), if t.flooded ==> sendOk(n + |before|) then [t] else []);
    }
  }

  lemma LastCharged(k: Known, bursts: seq<seq<Input>>, n: nat, net: Network)
    requires bursts != []
    ensures var e := |bursts| - 1;
            var queued := BurstQueued(KnownAfter(k, Flat(bursts[..e])), bursts[e]);
            RunCharged(k, bursts, n, net)
            == RunCharged(k, bursts[..e], n, net)
               + Charged(queued, n + |RunAttempts(k, bursts[..e], n, net)|, net.sendOk)
  {
    hide BurstQueued, KnownAfter, RunAttempts, Flat, Charged;
  }

  lemma NoRunCharged(k: Known, n: nat, net: Network)
    ensures RunCharged(k, [], n, net) == [] && AttemptBytes([]) == 0
  {
  }

  /** The same over a run of bursts. */
  lemma {:induction false} RunSentToAll(k: Known, bursts: seq<seq<Input>>, n: nat, net: Network, who: set<u32>)
    requires forall e :: 0 <= e < |bursts| ==> AllTo(BurstQueued(KnownAfter(k, Flat(bursts[..e])), bursts[e]), who)
    ensures RunSent(k, bursts, n, net, who) == |RunCharged(k, bursts, n, net)|
    ensures RunSentBytes(k, bursts, n, net, who) == AttemptBytes(RunCharged(k, bursts, n, net))
  {
    hide *;
    if bursts == [] {
      NothingSent(k, n, net, who);
      NoRunCharged(k, n, net);
    } else {
      var e := |bursts| - 1;
      var init := bursts[..e];
      assert forall d :: 0 <= d < e ==> init[..d] == bursts[..d];
      RunSentToAll(k, init, n, net, who);
      LastSent(k, bursts, n, net, who);
      LastCharged(k, bursts, n, net);
      var queued, n' := BurstQueued(KnownAfter(k, Flat(init)), bursts[e]), n + |RunAttempts(k, init, n, net)|;
      SentToAll(queued, n', net.sendOk, who);
      AttemptBytesAppend(RunCharged(k, init, n, net), Charged(queued, n', net.sendOk));
    }
  }

  // ---------- Frames handled one at a time ----------

  /** The frames that are flooded. */
  function FloodedInputs(k: Known, inputs: seq<Input>): seq<Input> {
    if inputs == [] then []
    else
      var e := |inputs| - 1;
      FloodedInputs(k, inputs[..e]) + if RouteOf(KnownAfter(k, inputs), inputs[e]).ToAll? then [inputs[e]] else []
  }

  /** Successful floods, and their bytes, to some IP addresses in a trace whose first
      attempt is attempt n of all. */
  function Flooded(ts: seq<Attempt>, n: nat, sendOk: nat -> bool, who: set<u32>): nat {
    if ts == [] then 0
    else
      var t := ts[|ts| - 1];
      Flooded(ts[..|ts| - 1], n, sendOk, who) + if t.to.ip in who && t.flooded && sendOk(n + |ts| - 1) then 1 else 0
  }

  function FloodedBytes(ts: seq<Attempt>, n: nat, sendOk: nat -> bool, who: set<u32>): nat {
    if ts == [] then 0
    else
      var t := ts[|ts| - 1];
      FloodedBytes(ts[..|ts| - 1], n, sendOk, who)
      + if t.to.ip in who && t.flooded && sendOk(n + |ts| - 1) then t.frame.len as nat else 0
  }

  lemma {:induction false} FloodedAppend(p: seq<Attempt>, q: seq<Attempt>, n: nat, sendOk: nat -> bool, who: set<u32>)
    ensures Flooded(p + q, n, sendOk, who) == Flooded(p, n, sendOk, who) + Flooded(q, n + |p|, sendOk, who)
    ensures FloodedBytes(p + q, n, sendOk, who)
            == FloodedBytes(p, n, sendOk, who) + FloodedBytes(q, n + |p|, sendOk, who)
  {
    if q == [] {
      assert p + q == p;
    } else {
      assert (p + q)[..|p + q| - 1] == p + q[..|q| - 1];
      FloodedAppend(p, q[..|q| - 1], n, sendOk, who);
    }
  }

  lemma {:induction false} FloodsAreSent(ts: seq<Attempt>, n: nat, sendOk: nat -> bool, who: set<u32>)
    requires forall a :: 0 <= a < |ts| ==> ts[a].flooded
    ensures Flooded(ts, n, sendOk, who) == Sent(ts, n, sendOk, who)
    ensures FloodedBytes(ts, n, sendOk, who) == SentBytes(ts, n, sendOk, who)
  {
    if ts != [] {
      FloodsAreSent(ts[..|ts| - 1], n, sendOk, who);
    }
  }

  lemma {:induction false} UnicastsAreNoFloods(ts: seq<Attempt>, n: nat, sendOk: nat -> bool, who: set<u32>)
    requires forall a :: 0 <= a < |ts| ==> !ts[a].flooded
    ensures Flooded(ts, n, sendOk, who) == 0 && FloodedBytes(ts, n, sendOk, who) == 0
  {
    if ts != [] {
      UnicastsAreNoFloods(ts[..|ts| - 1], n, sendOk, who);
    }
  }

  /** What a frame alone moves in the counters of the frame-by-frame form. */
  lemma FrameStepRow(m: Book, k: Known, i: Input, n: nat, sendOk: nat -> bool, ip: u32)
    ensures var rx := if RouteOf(k, i).ToAll? && i.from.ip == ip then 1 else 0;
            var ts := FloodsFor(k, i);
            Row(FrameStep(m, k, i, n, sendOk), ip)
            == Bumped(Row(m, ip), rx, rx * i.frame.len as nat,
                      Sent(ts, n, sendOk, {ip}), SentBytes(ts, n, sendOk, {ip}))
  {
    FrameStepCounts(m, k, i, n, sendOk);
    AttemptsForRoute(k, i);
    hide *;
    BumpedTwice(Row(m, ip), 0, 0, 0, 0, 0, 0, 0, 0);
    if RouteOf(k, i).ToAll? {
      BurstStepRow(m, k, i, n, sendOk, ip);
    } else {
      NoFloods(k, i);
      SentNothing(n, sendOk, {ip});
    }
  }

  lemma NoFloods(k: Known, i: Input)
    ensures !RouteOf(k, i).ToAll? ==> FloodsFor(k, i) == []
  {
  }

  /** What a frame adds to the trace and to the flooded frames. */
  lemma FloodedStep(k: Known, p: seq<Input>, i: Input, n: nat, sendOk: nat -> bool, who: set<u32>)
    ensures var now, n', ts := KnownAfter(k, p + [i]), n + |FrameAttempts(k, p)|, FrameAttempts(k, p + [i]);
            var fs, rx := FloodsFor(now, i), if RouteOf(now, i).ToAll? && i.from.ip in who then 1 else 0;
            && Flooded(ts, n, sendOk, who) == Flooded(FrameAttempts(k, p), n, sendOk, who) + Sent(fs, n', sendOk, who)
            && FloodedBytes(ts, n, sendOk, who)
               == FloodedBytes(FrameAttempts(k, p), n, sendOk, who) + SentBytes(fs, n', sendOk, who)
            && Received(FloodedInputs(k, p + [i]), who) == Received(FloodedInputs(k, p), who) + rx
            && ReceivedBytes(FloodedInputs(k, p + [i]), who)
               == ReceivedBytes(FloodedInputs(k, p), who) + rx * i.frame.len as nat
  {
    hide *;
    var now, n', ts := KnownAfter(k, p + [i]), n + |FrameAttempts(k, p)|, FrameAttempts(k, p);
    var fs, us := FloodsFor(now, i), UnicastsFor(now, i);
    OneMoreInput(k, p, i);
    FloodedAppend(ts + fs, us, n, sendOk, who);
    FloodedAppend(ts, fs, n, sendOk, who);
    AttemptsForRoute(now, i);
    FloodsAreSent(fs, n', sendOk, who);
    UnicastsForOnly(now, i);
    UnicastsAreNoFloods(us, n + |ts + fs|, sendOk, who);
    OneMoreFlooded(k, p, i);
    ReceivedStep(FloodedInputs(k, p), i, who);
  }

  lemma OneMoreFlooded(k: Known, p: seq<Input>, i: Input)
    ensures FloodedInputs(k, p + [i])
            == if RouteOf(KnownAfter(k, p + [i]), i).ToAll? then FloodedInputs(k, p) + [i] else FloodedInputs(k, p)
  {
    hide RouteOf, KnownAfter;
    assert (p + [i])[..|p|] == p && FloodedInputs(k, p) + [] == FloodedInputs(k, p);
  }

  /** Over a run of frames handled one at a time, the row of every IP grows by the flooded
      frames received from it and by the successful floods to it, modulo 2^64. */
  lemma {:induction false} FramesConserve(m: Book, k: Known, inputs: seq<Input>, n: nat, sendOk: nat -> bool, ip: u32)
    ensures var flooded, ts := FloodedInputs(k, inputs), FrameAttempts(k, inputs);
            Row(FrameBook(m, k, inputs, n, sendOk), ip)
            == Bumped(Row(m, ip), Received(flooded, {ip}), ReceivedBytes(flooded, {ip}),
                      Flooded(ts, n, sendOk, {ip}), FloodedBytes(ts, n, sendOk, {ip}))
  {
    hide *;
    var c := Row(m, ip);
    BumpedTwice(c, 0, 0, 0, 0, 0, 0, 0, 0);
    if inputs == [] {
      NoFrames(m, k, n, sendOk, {ip});
    } else {
      var e := |inputs| - 1;
      var p, i := inputs[..e], inputs[e];
      assert inputs == p + [i];
      FramesConserve(m, k, p, n, sendOk, ip);
      FrameBookStep(m, k, p, i, n, sendOk);
      var now, n' := KnownAfter(k, p + [i]), n + |FrameAttempts(k, p)|;
      FrameStepRow(FrameBook(m, k, p, n, sendOk), now, i, n', sendOk, ip);
      FloodedStep(k, p, i, n, sendOk, {ip});
      var rx := if RouteOf(now, i).ToAll? && i.from.ip == ip then 1 else 0;
      BumpedTwice(c, Received(FloodedInputs(k, p), {ip}), ReceivedBytes(FloodedInputs(k, p), {ip}),
                  Flooded(FrameAttempts(k, p), n, sendOk, {ip}), FloodedBytes(FrameAttempts(k, p), n, sendOk, {ip}),
                  rx, rx * i.frame.len as nat,
                  Sent(FloodsFor(now, i), n', sendOk, {ip}), SentBytes(FloodsFor(now, i), n', sendOk, {ip}));
    }
  }

  lemma NoFrames(m: Book, k: Known, n: nat, sendOk: nat -> bool, who: set<u32>)
    ensures FrameBook(m, k, [], n, sendOk) == m && FloodedInputs(k, []) == [] && FrameAttempts(k, []) == []
    ensures Received([], who) == 0 && ReceivedBytes([], who) == 0
    ensures Flooded([], n, sendOk, who) == 0 && FloodedBytes([], n, sendOk, who) == 0
  {
  }

  /** The frame-by-frame form keeps the same counters as the burst form exactly for
      the frames that are flooded; the others it does not count at all. */
  lemma FrameStepCounts(m: Book, k: Known, i: Input, n: nat, sendOk: nat -> bool)
    ensures FrameStep(m, k, i, n, sendOk) == BurstStep(m, k, i, n, sendOk) <==> RouteOf(k, i).ToAll?
    ensures !RouteOf(k, i).ToAll? ==> FrameStep(m, k, i, n, sendOk) == m
  {
    if !RouteOf(k, i).ToAll? {
      BurstStepRow(m, k, i, n, sendOk, i.from.ip);
    }
  }
}
