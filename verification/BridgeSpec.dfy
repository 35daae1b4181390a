/** What the bridge does to values: learning, routing, flooding, counting, one frame
    or one burst at a time, and how the two ways of receiving relate. */
module BridgeSpec {
  import opened Collections
  import opened Elements

  newtype u32 = x: int | 0 <= x < 0x1_0000_0000
  newtype u16 = x: int | 0 <= x < 0x1_0000

  /** The part of sockaddr_in that the bridge compares. */
  datatype Addr = Addr(ip: u32, port: u16)

  type Mac = k: Key | |k| == 6 witness [0, 0, 0, 0, 0, 0]

  /** A received frame, already split into what the bridge looks at. */
  datatype Frame = Frame(dst: Mac, src: Mac, len: u32, body: seq<byte>)

  /** A frame together with the peer that sent it. */
  datatype Input = Input(frame: Frame, from: Addr)

  /** One attempt to send, by flooding or as a unicast. */
  datatype Attempt = Attempt(frame: Frame, to: Addr, flooded: bool)

  /** The forwarding database and the ring of entries, newest first. */
  datatype Known = Known(fdb: map<Key, Addr>, ring: seq<(Key, Addr)>)

  /** is_multicast_ether_addr: the low bit of the first address byte, which on a
      little-endian machine is the low bit of the first 16-bit word. */
  predicate IsMulticast(mac: Mac) {
    mac[0] % 2 == 1
  }

  // ---------- Learning ----------

  /** wlan_fdb_update followed by wlan_list_update: only an unknown source is learned. */
  function Learn(k: Known, i: Input): Known {
    if i.frame.src in k.fdb then k
    else Known(k.fdb[i.frame.src := i.from], [(i.frame.src, i.from)] + k.ring)
  }

  /** The ring holds each database MAC exactly once, with the same address. */
  ghost predicate Consistent(k: Known) {
    && (forall a, b :: 0 <= a < b < |k.ring| ==> k.ring[a].0 != k.ring[b].0)
    && (forall a :: 0 <= a < |k.ring| ==> k.ring[a].0 in k.fdb && k.fdb[k.ring[a].0] == k.ring[a].1)
    && (forall m :: m in k.fdb ==> exists a :: 0 <= a < |k.ring| && k.ring[a].0 == m)
  }

  // ---------- Flooding ----------

  function Addrs(ring: seq<(Key, Addr)>): (r: seq<Addr>)
    ensures |r| == |ring| && forall a :: 0 <= a < |r| ==> r[a] == ring[a].1
  {
    seq(|ring|, a requires 0 <= a < |ring| => ring[a].1)
  }

  /** The peers a flood sends to: each at its first place in the ring, without the sender. */
  function Targets(addrs: seq<Addr>, from: Addr): seq<Addr> {
    if addrs == [] then []
    else
      var before, a := Targets(addrs[..|addrs| - 1], from), addrs[|addrs| - 1];
      if a == from || a in before then before else before + [a]
  }

  /** A flood reaches every known peer except the sender, and each just once. */
  lemma {:induction false} TargetsExactly(addrs: seq<Addr>, from: Addr)
    ensures forall a :: a in Targets(addrs, from) <==> a in addrs && a != from
    ensures NoDup(Targets(addrs, from))
  {
    if addrs != [] {
      TargetsExactly(addrs[..|addrs| - 1], from);
      assert addrs == addrs[..|addrs| - 1] + [addrs[|addrs| - 1]];
    }
  }

  function Flood(f: Frame, targets: seq<Addr>): (r: seq<Attempt>)
    ensures |r| == |targets| && forall a :: 0 <= a < |r| ==> r[a] == Attempt(f, targets[a], true)
  {
    seq(|targets|, a requires 0 <= a < |targets| => Attempt(f, targets[a], true))
  }

  // ---------- Routing ----------

  datatype Route = ToAll | ToPeer(peer: Addr) | Nowhere

  /** Where a frame goes, once its source has been learned. */
  function RouteOf(k: Known, i: Input): Route {
    if IsMulticast(i.frame.dst) || i.frame.dst !in k.fdb then ToAll
    else if k.fdb[i.frame.dst] == i.from then Nowhere
    else ToPeer(k.fdb[i.frame.dst])
  }

  /** The floods a frame causes, k being what is known after learning its source. */
  function FloodsFor(k: Known, i: Input): seq<Attempt> {
    if RouteOf(k, i).ToAll? then Flood(i.frame, Targets(Addrs(k.ring), i.from)) else []
  }

  /** The unicasts a frame causes: at most one. */
  function UnicastsFor(k: Known, i: Input): seq<Attempt> {
    match RouteOf(k, i)
    case ToPeer(p) => [Attempt(i.frame, p, false)]
    case _ => []
  }

  // ---------- What one frame causes ----------

  /** A peer is known when some MAC was learned from it. */
  ghost predicate KnownPeer(k: Known, p: Addr) {
    exists mac :: mac in k.fdb && k.fdb[mac] == p
  }

  ghost predicate Reached(ts: seq<Attempt>, p: Addr) {
    exists a :: 0 <= a < |ts| && ts[a].to == p
  }

  /** A frame whose destination is unknown, or multicast by the low bit of its first byte,
      goes once to every known peer but its sender; any other frame goes to its
      destination's peer alone, unless that is the sender. */
  lemma Recipients(k: Known, i: Input)
    requires Consistent(k)
    ensures var ts := FloodsFor(k, i) + UnicastsFor(k, i);
            && (forall a :: 0 <= a < |ts| ==> ts[a].frame == i.frame)
            && (forall a, b :: 0 <= a < b < |ts| ==> ts[a].to != ts[b].to)
            && forall p :: Reached(ts, p)
                           <==> p != i.from
                                && if i.frame.dst[0] % 2 == 1 || i.frame.dst !in k.fdb then KnownPeer(k, p)
                                   else k.fdb[i.frame.dst] == p
  {
    hide Consistent, Targets, Flood;
    var ts := FloodsFor(k, i) + UnicastsFor(k, i);
    if RouteOf(k, i).ToAll? {
      FloodRecipients(k, i.frame, i.from);
      assert ts == Flood(i.frame, Targets(Addrs(k.ring), i.from));
    } else if RouteOf(k, i).ToPeer? {
      assert ts == [Attempt(i.frame, k.fdb[i.frame.dst], false)];
      assert ts[0].to == k.fdb[i.frame.dst];
    } else {
      assert ts == [];
    }
  }

  /** The same of one attempt. */
  lemma AttemptedFor(k: Known, i: Input, t: Attempt)
    requires Consistent(k)
    ensures t in FloodsFor(k, i) + UnicastsFor(k, i)
            <==> && t.frame == i.frame && t.to != i.from
                 && if i.frame.dst[0] % 2 == 1 || i.frame.dst !in k.fdb then t.flooded && KnownPeer(k, t.to)
                    else !t.flooded && k.fdb[i.frame.dst] == t.to
  {
    hide Consistent, Targets, Flood, KnownPeer;
    FloodAttempt(k, i.frame, i.from, t);
    assert RouteOf(k, i).ToAll? ==>
             FloodsFor(k, i) + UnicastsFor(k, i) == Flood(i.frame, Targets(Addrs(k.ring), i.from));
  }

  lemma FloodAttempt(k: Known, f: Frame, from: Addr, t: Attempt)
    requires Consistent(k)
    ensures t in Flood(f, Targets(Addrs(k.ring), from))
            <==> t.frame == f && t.flooded && t.to != from && KnownPeer(k, t.to)
  {
    hide *;
    FloodRecipients(k, f, from);
    FloodHas(f, Targets(Addrs(k.ring), from), t);
  }

  lemma FloodHas(f: Frame, targets: seq<Addr>, t: Attempt)
    ensures t in Flood(f, targets) <==> t.frame == f && t.flooded && Reached(Flood(f, targets), t.to)
  {
    hide Flood;
    var ts := Flood(f, targets);
    if t in ts {
      var a :| 0 <= a < |ts| && ts[a] == t;
      assert ts[a].to == t.to;
    }
    if Reached(ts, t.to) && t.frame == f && t.flooded {
      var a :| 0 <= a < |ts| && ts[a].to == t.to;
      assert t == ts[a];
    }
  }

  lemma FloodRecipients(k: Known, f: Frame, from: Addr)
    requires Consistent(k)
    ensures var ts := Flood(f, Targets(Addrs(k.ring), from));
            && (forall a :: 0 <= a < |ts| ==> ts[a].frame == f)
            && (forall a, b :: 0 <= a < b < |ts| ==> ts[a].to != ts[b].to)
            && forall p :: Reached(ts, p) <==> p != from && KnownPeer(k, p)
  {
    hide Consistent, Targets, KnownPeer;
    var targets := Targets(Addrs(k.ring), from);
    var ts := Flood(f, targets);
    TargetsExactly(Addrs(k.ring), from);
    forall p
      ensures Reached(ts, p) <==> p != from && KnownPeer(k, p)
    {
      OnRing(k, p);
      if p in targets {
        var a :| 0 <= a < |targets| && targets[a] == p;
        assert ts[a].to == p;
      }
    }
  }

  lemma OnRing(k: Known, p: Addr)
    requires Consistent(k)
    ensures p in Addrs(k.ring) <==> KnownPeer(k, p)
  {
    if p in Addrs(k.ring) {
      var a :| 0 <= a < |k.ring| && Addrs(k.ring)[a] == p;
      assert k.ring[a].0 in k.fdb && k.fdb[k.ring[a].0] == p;
    }
    if KnownPeer(k, p) {
      var mac :| mac in k.fdb && k.fdb[mac] == p;
      var a :| 0 <= a < |k.ring| && k.ring[a].0 == mac;
      assert Addrs(k.ring)[a] == p;
    }
  }

  // ---------- Runs ----------

  function KnownAfter(k: Known, inputs: seq<Input>): Known {
    if inputs == [] then k else Learn(KnownAfter(k, inputs[..|inputs| - 1]), inputs[|inputs| - 1])
  }

  /** What the frame-by-frame form attempts to send, in its order. */
  function FrameAttempts(k: Known, inputs: seq<Input>): seq<Attempt> {
    if inputs == [] then []
    else
      var now, i := KnownAfter(k, inputs), inputs[|inputs| - 1];
      FrameAttempts(k, inputs[..|inputs| - 1]) + FloodsFor(now, i) + UnicastsFor(now, i)
  }

  function FloodsOf(k: Known, inputs: seq<Input>): seq<Attempt> {
    if inputs == [] then []
    else FloodsOf(k, inputs[..|inputs| - 1]) + FloodsFor(KnownAfter(k, inputs), inputs[|inputs| - 1])
  }

  function UnicastsOf(k: Known, inputs: seq<Input>): seq<Attempt> {
    if inputs == [] then []
    else UnicastsOf(k, inputs[..|inputs| - 1]) + UnicastsFor(KnownAfter(k, inputs), inputs[|inputs| - 1])
  }

  /** What a burst asks to send: every flood at once, the unicasts queued to the end. */
  function BurstQueued(k: Known, inputs: seq<Input>): seq<Attempt> {
    FloodsOf(k, inputs) + UnicastsOf(k, inputs)
  }

  /** How the network answers: whether the n-th attempt succeeds, and whether errno says
      EAGAIN when a sendmmsg has stopped short after so many attempts. */
  datatype Network = Network(sendOk: nat -> bool, again: nat -> bool)

  /** How many of count datagrams one sendmmsg accepts: it stops at the first failure. */
  function Accepted(count: nat, n: nat, net: Network): (c: nat)
    ensures c <= count && forall a :: n <= a < n + c ==> net.sendOk(a)
    ensures c < count ==> !net.sendOk(n + c)
  {
    if count == 0 || !net.sendOk(n) then 0 else 1 + Accepted(count - 1, n + 1, net)
  }

  /** What one sendmmsg attempts: all it accepts and the one it stops at. */
  function Tried(us: seq<Attempt>, n: nat, net: Network): seq<Attempt> {
    var c := Accepted(|us|, n, net);
    if c < |us| then us[..c + 1] else us
  }

  /** The datagrams whose sent length, 0, is not their length. */
  function Unsent(us: seq<Attempt>): seq<Attempt> {
    if us == [] then []
    else Unsent(us[..|us| - 1]) + if us[|us| - 1].frame.len != 0 then [us[|us| - 1]] else []
  }

  /** send_data_to_udp_client_burst: after EAGAIN what was not sent is tried once more. */
  function QueueAttempts(us: seq<Attempt>, n: nat, net: Network): seq<Attempt> {
    var c, first := Accepted(|us|, n, net), Tried(us, n, net);
    if c < |us| && net.again(n + |first|) then first + Tried(Unsent(us[c..]), n + |first|, net) else first
  }

  /** What the burst form attempts, n attempts having been made before. */
  function BurstAttempts(k: Known, inputs: seq<Input>, n: nat, net: Network): seq<Attempt> {
    FloodsOf(k, inputs) + QueueAttempts(UnicastsOf(k, inputs), n + |FloodsOf(k, inputs)|, net)
  }

  /** The attempts of a run received as bursts. */
  function RunAttempts(k: Known, bursts: seq<seq<Input>>, n: nat, net: Network): seq<Attempt> {
    if bursts == [] then []
    else
      var e := |bursts| - 1;
      var before := RunAttempts(k, bursts[..e], n, net);
      before + BurstAttempts(KnownAfter(k, Flat(bursts[..e])), bursts[e], n + |before|, net)
  }

  /** When a queue is attempted just as it stands: all of it is accepted; or it stops
      short and, without EAGAIN, the datagram that failed was the last, or, after EAGAIN,
      the second sendmmsg happens to try what stands behind the one that failed. */
  predicate AsItStands(us: seq<Attempt>, n: nat, net: Network) {
    var c := Accepted(|us|, n, net);
    c == |us|
    || if net.again(n + c + 1) then Tried(Unsent(us[c..]), n + c + 1, net) == us[c + 1..] else c + 1 == |us|
  }

  /** Every burst of the run has its queue attempted as it stands. */
  ghost predicate AsQueued(k: Known, bursts: seq<seq<Input>>, n: nat, net: Network) {
    bursts == [] ||
    var e := |bursts| - 1;
    var mid := KnownAfter(k, Flat(bursts[..e]));
    var us, n' := UnicastsOf(mid, bursts[e]), n + |RunAttempts(k, bursts[..e], n, net)| + |FloodsOf(mid, bursts[e])|;
    AsQueued(k, bursts[..e], n, net) && AsItStands(us, n', net)
  }

  /** The floods, or the unicasts, of a trace in their order. */
  ghost function Select(ts: seq<Attempt>, flooded: bool): seq<Attempt> {
    if ts == [] then []
    else Select(ts[..|ts| - 1], flooded) + if ts[|ts| - 1].flooded == flooded then [ts[|ts| - 1]] else []
  }

  // ---------- The burst form refines the frame-by-frame form ----------

  lemma {:induction false} SelectAppend(p: seq<Attempt>, q: seq<Attempt>, flooded: bool)
    ensures Select(p + q, flooded) == Select(p, flooded) + Select(q, flooded)
  {
    if q == [] {
      assert p + q == p;
    } else {
      assert (p + q)[..|p + q| - 1] == p + q[..|q| - 1];
      SelectAppend(p, q[..|q| - 1], flooded);
    }
  }

  lemma {:induction false} SelectAll(ts: seq<Attempt>, flooded: bool)
    requires forall a :: 0 <= a < |ts| ==> ts[a].flooded == flooded
    ensures Select(ts, flooded) == ts && Select(ts, !flooded) == []
  {
    if ts != [] {
      SelectAll(ts[..|ts| - 1], flooded);
    }
  }

  lemma SelectStep(k: Known, i: Input)
    ensures Select(FloodsFor(k, i), true) == FloodsFor(k, i) && Select(FloodsFor(k, i), false) == []
    ensures Select(UnicastsFor(k, i), false) == UnicastsFor(k, i) && Select(UnicastsFor(k, i), true) == []
  {
    SelectAll(FloodsFor(k, i), true);
    SelectAll(UnicastsFor(k, i), false);
  }

  /** In the frame-by-frame trace the floods stand in FloodsOf order, the unicasts in
      UnicastsOf order. */
  lemma {:induction false} SelectFrames(k: Known, inputs: seq<Input>)
    ensures Select(FrameAttempts(k, inputs), true) == FloodsOf(k, inputs)
    ensures Select(FrameAttempts(k, inputs), false) == UnicastsOf(k, inputs)
  {
    if inputs != [] {
      var e := |inputs| - 1;
      var before, now, i := inputs[..e], KnownAfter(k, inputs), inputs[e];
      SelectFrames(k, before);
      SelectStep(now, i);
      var ts, fs, us := FrameAttempts(k, before), FloodsFor(now, i), UnicastsFor(now, i);
      SelectAppend(ts + fs, us, true);
      SelectAppend(ts, fs, true);
      SelectAppend(ts + fs, us, false);
      SelectAppend(ts, fs, false);
    }
  }

  lemma {:induction false} SelectBurst(k: Known, inputs: seq<Input>)
    ensures Select(FloodsOf(k, inputs), true) == FloodsOf(k, inputs) && Select(FloodsOf(k, inputs), false) == []
    ensures Select(UnicastsOf(k, inputs), false) == UnicastsOf(k, inputs) && Select(UnicastsOf(k, inputs), true) == []
  {
    if inputs != [] {
      var e := |inputs| - 1;
      var before, now, i := inputs[..e], KnownAfter(k, inputs), inputs[e];
      SelectBurst(k, before);
      SelectStep(now, i);
      SelectAppend(FloodsOf(k, before), FloodsFor(now, i), true);
      SelectAppend(FloodsOf(k, before), FloodsFor(now, i), false);
      SelectAppend(UnicastsOf(k, before), UnicastsFor(now, i), true);
      SelectAppend(UnicastsOf(k, before), UnicastsFor(now, i), false);
    }
  }

  lemma SelectLast(ts: seq<Attempt>, t: Attempt)
    ensures Select(ts + [t], t.flooded) == Select(ts, t.flooded) + [t]
    ensures Select(ts + [t], !t.flooded) == Select(ts, !t.flooded)
  {
    assert (ts + [t])[..|ts|] == ts;
  }

  lemma SelectNothing()
    ensures Select([], true) == [] && Select([], false) == []
  {
  }

  /** A trace holds its floods and its unicasts and nothing else. */
  lemma {:induction false} SelectSplits(ts: seq<Attempt>)
    ensures multiset(ts) == multiset(Select(ts, true)) + multiset(Select(ts, false))
  {
    hide *;
    if ts == [] {
      SelectNothing();
    } else {
      var before, t := ts[..|ts| - 1], ts[|ts| - 1];
      assert ts == before + [t];
      SelectSplits(before);
      SelectLast(before, t);
    }
  }

  // ---------- Runs cut into bursts ----------

  lemma {:induction false} KnownAppend(k: Known, p: seq<Input>, q: seq<Input>)
    ensures KnownAfter(k, p + q) == KnownAfter(KnownAfter(k, p), q)
  {
    if q == [] {
      assert p + q == p;
    } else {
      assert (p + q)[..|p + q| - 1] == p + q[..|q| - 1];
      KnownAppend(k, p, q[..|q| - 1]);
    }
  }

  lemma OneMoreInput(k: Known, p: seq<Input>, i: Input)
    ensures KnownAfter(k, p + [i]) == Learn(KnownAfter(k, p), i)
    ensures FloodsOf(k, p + [i]) == FloodsOf(k, p) + FloodsFor(KnownAfter(k, p + [i]), i)
    ensures UnicastsOf(k, p + [i]) == UnicastsOf(k, p) + UnicastsFor(KnownAfter(k, p + [i]), i)
    ensures FrameAttempts(k, p + [i])
            == FrameAttempts(k, p) + FloodsFor(KnownAfter(k, p + [i]), i) + UnicastsFor(KnownAfter(k, p + [i]), i)
  {
    hide FloodsFor, UnicastsFor, Learn;
    assert (p + [i])[..|p|] == p;
  }

  lemma {:induction false} KindsAppend(k: Known, p: seq<Input>, q: seq<Input>)
    ensures FloodsOf(k, p + q) == FloodsOf(k, p) + FloodsOf(KnownAfter(k, p), q)
    ensures UnicastsOf(k, p + q) == UnicastsOf(k, p) + UnicastsOf(KnownAfter(k, p), q)
  {
    hide *;
    if q == [] {
      NoInputs(KnownAfter(k, p));
      assert p + q == p;
    } else {
      var r, i := q[..|q| - 1], q[|q| - 1];
      KindsAppend(k, p, r);
      KnownAppend(k, p, q);
      assert q == r + [i] && p + q == (p + r) + [i];
      OneMoreInput(k, p + r, i);
      OneMoreInput(KnownAfter(k, p), r, i);
      Associate(FloodsOf(k, p), FloodsOf(KnownAfter(k, p), r), FloodsFor(KnownAfter(k, p + q), i));
      Associate(UnicastsOf(k, p), UnicastsOf(KnownAfter(k, p), r), UnicastsFor(KnownAfter(k, p + q), i));
    }
  }

  lemma NoInputs(k: Known)
    ensures KnownAfter(k, []) == k && FloodsOf(k, []) == [] && UnicastsOf(k, []) == [] && FrameAttempts(k, []) == []
  {
  }

  lemma {:induction false} AllUnicasts(us: seq<Attempt>)
    requires forall a :: 0 <= a < |us| ==> !us[a].flooded
    ensures forall a :: 0 <= a < |Unsent(us)| ==> !Unsent(us)[a].flooded
  {
    if us != [] {
      AllUnicasts(us[..|us| - 1]);
    }
  }

  /** What a burst sends or queues: for each of its frames, by what is known once its
      source has been learned, the attempts that the frame causes on its own. */
  lemma {:induction false} BurstRecipients(k: Known, inputs: seq<Input>, t: Attempt)
    requires Consistent(k)
    ensures t in BurstQueued(k, inputs)
            <==> exists e :: 0 <= e < |inputs| && t.frame == inputs[e].frame && t.to != inputs[e].from
                             && var dst, now := inputs[e].frame.dst, KnownAfter(k, inputs[..e + 1]);
                                if dst[0] % 2 == 1 || dst !in now.fdb then t.flooded && KnownPeer(now, t.to)
                                else !t.flooded && now.fdb[dst] == t.to
  {
    hide *;
    QueuedStep(k, inputs, t);
    if inputs != [] {
      var last := |inputs| - 1;
      var before, i := inputs[..last], inputs[last];
      BurstRecipients(k, before, t);
      AlwaysConsistent(k, inputs);
      AttemptedFor(KnownAfter(k, inputs), i, t);
      assert inputs[..last + 1] == inputs;
      assert forall e :: 0 <= e < last ==> before[e] == inputs[e] && before[..e + 1] == inputs[..e + 1];
    }
  }

  lemma QueuedStep(k: Known, inputs: seq<Input>, t: Attempt)
    ensures t in BurstQueued(k, inputs)
            <==> && inputs != []
                 && var last := |inputs| - 1;
                    var now := KnownAfter(k, inputs);
                    || t in BurstQueued(k, inputs[..last])
                    || t in FloodsFor(now, inputs[last]) + UnicastsFor(now, inputs[last])
  {
    hide FloodsFor, UnicastsFor, KnownAfter;
  }

  /** Of these every flood is attempted, and nothing else but unicasts of the queue. */
  lemma BurstAttempted(k: Known, inputs: seq<Input>, n: nat, net: Network, t: Attempt)
    ensures t in BurstAttempts(k, inputs, n, net) ==> t in BurstQueued(k, inputs)
    ensures t in BurstQueued(k, inputs) && t.flooded ==> t in BurstAttempts(k, inputs, n, net)
  {
    hide *;
    BurstIs(k, inputs, n, net);
    UnicastsOnly(k, inputs);
    var us, n' := UnicastsOf(k, inputs), n + |FloodsOf(k, inputs)|;
    QueueWithin(us, n', net);
    assert t in QueueAttempts(us, n', net) ==> t in us;
  }

  lemma QueueWithin(us: seq<Attempt>, n: nat, net: Network)
    ensures forall t :: t in QueueAttempts(us, n, net) ==> t in us
  {
    hide *;
    QueueParts(us, n, net);
    var c := Accepted(|us|, n, net);
    if c < |us| {
      var rest := Unsent(us[c..]);
      TriedStarts(rest, n + c + 1, net);
      UnsentExactly(us[c..]);
      PrefixWithin(Tried(rest, n + c + 1, net), rest);
      PrefixWithin(us[..c + 1], us);
      assert forall t :: t in us[c..] ==> t in us;
    }
  }

  lemma PrefixWithin<T>(p: seq<T>, s: seq<T>)
    requires p <= s
    ensures forall x :: x in p ==> x in s
  {
  }

  /** What is tried again is every datagram that is not empty, in its order. */
  lemma {:induction false} UnsentExactly(us: seq<Attempt>)
    ensures forall t :: t in Unsent(us) <==> t in us && t.frame.len != 0
    ensures |Unsent(us)| <= |us|
    ensures us != [] ==>
              var before, u := us[..|us| - 1], us[|us| - 1];
              Unsent(us) == if u.frame.len == 0 then Unsent(before) else Unsent(before) + [u]
  {
    if us != [] {
      var before, u := us[..|us| - 1], us[|us| - 1];
      assert us == before + [u];
      UnsentExactly(before);
    }
  }

  // ---------- A queue on the network ----------

  lemma TriedStarts(us: seq<Attempt>, n: nat, net: Network)
    ensures Tried(us, n, net) <= us && (us != [] ==> Tried(us, n, net) != [])
    ensures var c := Accepted(|us|, n, net);
            |Tried(us, n, net)| == if c < |us| then c + 1 else c
  {
  }

  /** What is attempted of a queue that is not accepted whole. */
  lemma QueueParts(us: seq<Attempt>, n: nat, net: Network)
    ensures var c := Accepted(|us|, n, net);
            QueueAttempts(us, n, net)
            == if c == |us| then us
               else us[..c + 1] + if net.again(n + c + 1) then Tried(Unsent(us[c..]), n + c + 1, net) else []
  {
    hide *;
    QueueIs(us, n, net);
    TriedIs(us, n, net);
    var c := Accepted(|us|, n, net);
    if c < |us| {
      assert us[..c + 1] + [] == us[..c + 1];
    }
  }

  lemma QueueIs(us: seq<Attempt>, n: nat, net: Network)
    ensures var c, first := Accepted(|us|, n, net), Tried(us, n, net);
            QueueAttempts(us, n, net)
            == if c < |us| && net.again(n + |first|) then first + Tried(Unsent(us[c..]), n + |first|, net) else first
    ensures Tried([], n + |Tried(us, n, net)|, net) == [] && Tried(us, n, net) + [] == Tried(us, n, net)
  {
    hide Unsent;
  }

  lemma TriedIs(us: seq<Attempt>, n: nat, net: Network)
    ensures var c := Accepted(|us|, n, net);
            Tried(us, n, net) == (if c < |us| then us[..c + 1] else us) && us[..|us|] == us
  {
    hide Accepted;
  }

  /** The condition is exact. */
  lemma QueueAsItStands(us: seq<Attempt>, n: nat, net: Network)
    ensures QueueAttempts(us, n, net) == us <==> AsItStands(us, n, net)
  {
    hide QueueAttempts, Accepted, Tried, Unsent;
    QueueParts(us, n, net);
    var c := Accepted(|us|, n, net);
    if c < |us| {
      var rest := if net.again(n + c + 1) then Tried(Unsent(us[c..]), n + c + 1, net) else [];
      SamePrefix(us[..c + 1], rest, us[c + 1..]);
      assert us == us[..c + 1] + us[c + 1..];
    }
  }

  lemma SamePrefix<T>(a: seq<T>, b: seq<T>, c: seq<T>)
    ensures a + b == a + c <==> b == c
  {
    assert (a + b)[|a|..] == b && (a + c)[|a|..] == c;
  }

  lemma {:induction false} NothingEmpty(us: seq<Attempt>)
    requires forall a :: 0 <= a < |us| ==> us[a].frame.len != 0
    ensures Unsent(us) == us
  {
    if us != [] {
      NothingEmpty(us[..|us| - 1]);
    }
  }

  /** For frames, which are never empty: a queue whose last datagram alone fails is
      attempted as it stands only without EAGAIN. */
  lemma FramesAsTheyStand(us: seq<Attempt>, n: nat, net: Network)
    requires forall a :: 0 <= a < |us| ==> us[a].frame.len != 0
    ensures var c := Accepted(|us|, n, net);
            QueueAttempts(us, n, net) == us
            <==> c == |us| || (c + 1 == |us| && !net.again(n + c + 1))
                 || (c + 1 < |us| && net.again(n + c + 1) && Tried(us[c..], n + c + 1, net) == us[c + 1..])
  {
    hide QueueAttempts, Accepted, Tried, Unsent;
    QueueAsItStands(us, n, net);
    var c := Accepted(|us|, n, net);
    if c < |us| {
      NothingEmpty(us[c..]);
      TriedStarts(us[c..], n + c + 1, net);
    }
  }

  /** Without EAGAIN nothing behind the datagram that fails is attempted. */
  lemma StopsShort(us: seq<Attempt>, n: nat, net: Network)
    requires var c := Accepted(|us|, n, net); c < |us| && !net.again(n + c + 1)
    ensures QueueAttempts(us, n, net) == us[..Accepted(|us|, n, net) + 1]
  {
    hide QueueAttempts, Accepted;
    QueueParts(us, n, net);
  }

  /** So the burst form may fall short: of two unicasts the second is never attempted. */
  lemma SecondIsLost(u: Attempt, v: Attempt, n: nat, net: Network)
    requires !net.sendOk(n) && !net.again(n + 1)
    ensures QueueAttempts([u, v], n, net) == [u] && !AsItStands([u, v], n, net)
  {
    StopsShort([u, v], n, net);
  }

  /** After EAGAIN the datagram that failed is attempted twice. */
  lemma FailedTwice(us: seq<Attempt>, n: nat, net: Network)
    requires var c := Accepted(|us|, n, net); c < |us| && net.again(n + c + 1) && us[c].frame.len != 0
    ensures var c, ts := Accepted(|us|, n, net), QueueAttempts(us, n, net);
            |ts| >= c + 2 && ts[c] == us[c] && ts[c + 1] == us[c]
  {
    hide QueueAttempts, Accepted, Tried, Unsent;
    QueueParts(us, n, net);
    var c := Accepted(|us|, n, net);
    UnsentFirst(us[c..]);
    TriedStarts(Unsent(us[c..]), n + c + 1, net);
    var again := Tried(Unsent(us[c..]), n + c + 1, net);
    assert again[0] == us[c];
  }

  lemma {:induction false} UnsentFirst(us: seq<Attempt>)
    requires us != [] && us[0].frame.len != 0
    ensures Unsent(us) != [] && Unsent(us)[0] == us[0]
  {
    if |us| > 1 {
      UnsentFirst(us[..|us| - 1]);
    } else {
      assert us[..0] == [];
    }
  }

  /** No attempt of a queue of unicasts is a flood. */
  lemma QueueSelects(us: seq<Attempt>, n: nat, net: Network)
    requires forall a :: 0 <= a < |us| ==> !us[a].flooded
    ensures Select(QueueAttempts(us, n, net), true) == []
    ensures Select(QueueAttempts(us, n, net), false) == QueueAttempts(us, n, net)
    ensures QueueAttempts(us, n, net) == us <==> AsItStands(us, n, net)
  {
    hide Select, Unsent;
    QueueAsItStands(us, n, net);
    AllUnicasts(us[Accepted(|us|, n, net)..]);
    SelectAll(QueueAttempts(us, n, net), false);
  }

  lemma {:induction false} UnicastsOnly(k: Known, inputs: seq<Input>)
    ensures forall a :: 0 <= a < |UnicastsOf(k, inputs)| ==> !UnicastsOf(k, inputs)[a].flooded
  {
    hide RouteOf;
    if inputs != [] {
      UnicastsOnly(k, inputs[..|inputs| - 1]);
    }
  }

  lemma NoBursts(k: Known, n: nat, net: Network)
    ensures Flat<Input>([]) == [] && RunAttempts(k, [], n, net) == []
  {
  }

  /** The run up to its last burst. */
  lemma LastBurst(k: Known, bursts: seq<seq<Input>>, n: nat, net: Network)
    requires bursts != []
    ensures var e := |bursts| - 1;
            var p, q, before := Flat(bursts[..e]), bursts[e], RunAttempts(k, bursts[..e], n, net);
            && Flat(bursts) == p + q
            && RunAttempts(k, bursts, n, net) == before + BurstAttempts(KnownAfter(k, p), q, n + |before|, net)
  {
    hide KnownAfter, BurstAttempts;
  }

  lemma LastAsQueued(k: Known, bursts: seq<seq<Input>>, n: nat, net: Network)
    requires bursts != []
    ensures var e := |bursts| - 1;
            var mid := KnownAfter(k, Flat(bursts[..e]));
            var us := UnicastsOf(mid, bursts[e]);
            var n' := n + |RunAttempts(k, bursts[..e], n, net)| + |FloodsOf(mid, bursts[e])|;
            AsQueued(k, bursts, n, net) <==> AsQueued(k, bursts[..e], n, net) && AsItStands(us, n', net)
  {
    hide KnownAfter, RunAttempts, Flat, FloodsOf, UnicastsOf, AsItStands;
  }

  lemma NothingQueued(k: Known, n: nat, net: Network)
    ensures AsQueued(k, [], n, net)
  {
  }

  lemma BurstIs(k: Known, inputs: seq<Input>, n: nat, net: Network)
    ensures var fs, us := FloodsOf(k, inputs), UnicastsOf(k, inputs);
            && BurstQueued(k, inputs) == fs + us
            && BurstAttempts(k, inputs, n, net) == fs + QueueAttempts(us, n + |fs|, net)
  {
    hide FloodsOf, UnicastsOf, QueueAttempts;
  }

  /** The attempts of a run, one burst more: the floods are those of the frames, and the
      unicasts are what the network lets through of the queue. */
  lemma SelectBurstOf(k: Known, bursts: seq<seq<Input>>, n: nat, net: Network)
    requires bursts != []
    ensures var e := |bursts| - 1;
            var p, q, before := Flat(bursts[..e]), bursts[e], RunAttempts(k, bursts[..e], n, net);
            var mid := KnownAfter(k, p);
            var fs, us := FloodsOf(mid, q), UnicastsOf(mid, q);
            && Select(RunAttempts(k, bursts, n, net), true) == Select(before, true) + fs
            && Select(RunAttempts(k, bursts, n, net), false)
               == Select(before, false) + QueueAttempts(us, n + |before| + |fs|, net)
            && FloodsOf(k, Flat(bursts)) == FloodsOf(k, p) + fs
            && UnicastsOf(k, Flat(bursts)) == UnicastsOf(k, p) + us
  {
    hide *;
    var e := |bursts| - 1;
    var p, q, before := Flat(bursts[..e]), bursts[e], RunAttempts(k, bursts[..e], n, net);
    var mid := KnownAfter(k, p);
    var fs, us := FloodsOf(mid, q), UnicastsOf(mid, q);
    var n' := n + |before| + |fs|;
    LastBurst(k, bursts, n, net);
    BurstIs(mid, q, n + |before|, net);
    KindsAppend(k, p, q);
    SelectBurst(mid, q);
    UnicastsOnly(mid, q);
    QueueSelects(us, n', net);
    SelectBoth(before, fs, QueueAttempts(us, n', net));
  }

  /** The floods of a run are those of its frames, whatever the network does; and the
      unicasts agree after every burst if and only if every queue is attempted as it stands. */
  lemma {:induction false} SelectRun(k: Known, bursts: seq<seq<Input>>, n: nat, net: Network)
    ensures Select(RunAttempts(k, bursts, n, net), true) == FloodsOf(k, Flat(bursts))
    ensures AsQueued(k, bursts, n, net)
            <==> forall e :: 0 <= e <= |bursts| ==> UnicastsAgree(k, bursts[..e], n, net)
  {
    hide *;
    if bursts == [] {
      NoBursts(k, n, net);
      NoInputs(k);
      SelectNothing();
      NothingQueued(k, n, net);
      AgreeIs(k, bursts, n, net);
      assert bursts[..0] == bursts;
    } else {
      var last := |bursts| - 1;
      var init := bursts[..last];
      SelectRun(k, init, n, net);
      SelectBurstOf(k, bursts, n, net);
      LastAsQueued(k, bursts, n, net);
      AgreeIs(k, init, n, net);
      AgreeIs(k, bursts, n, net);
      var before, mid := RunAttempts(k, init, n, net), KnownAfter(k, Flat(init));
      var us, n' := UnicastsOf(mid, bursts[last]), n + |before| + |FloodsOf(mid, bursts[last])|;
      SamePrefix(Select(before, false), QueueAttempts(us, n', net), us);
      QueueAsItStands(us, n', net);
      assert bursts[..|bursts|] == bursts && init[..last] == init;
      assert forall e :: 0 <= e <= last ==> init[..e] == bursts[..e];
      assert UnicastsAgree(k, init, n, net) ==> (UnicastsAgree(k, bursts, n, net) <==> AsItStands(us, n', net));
      assert (forall e :: 0 <= e <= last ==> UnicastsAgree(k, init[..e], n, net))
             ==> UnicastsAgree(k, init[..last], n, net);
      AgreeUpTo(k, bursts, n, net);
    }
  }

  /** The unicasts attempted in a run are those of its frames, in their order. */
  ghost predicate UnicastsAgree(k: Known, bursts: seq<seq<Input>>, n: nat, net: Network) {
    Select(RunAttempts(k, bursts, n, net), false) == UnicastsOf(k, Flat(bursts))
  }

  lemma AgreeIs(k: Known, bursts: seq<seq<Input>>, n: nat, net: Network)
    ensures UnicastsAgree(k, bursts, n, net)
            <==> Select(RunAttempts(k, bursts, n, net), false) == UnicastsOf(k, Flat(bursts))
  {
  }

  lemma AgreeUpTo(k: Known, bursts: seq<seq<Input>>, n: nat, net: Network)
    requires bursts != []
    ensures var last := |bursts| - 1;
            (forall e :: 0 <= e <= |bursts| ==> UnicastsAgree(k, bursts[..e], n, net))
            <==> (forall e :: 0 <= e <= last ==> UnicastsAgree(k, bursts[..last][..e], n, net))
                 && UnicastsAgree(k, bursts, n, net)
  {
    hide UnicastsAgree;
    var last := |bursts| - 1;
    assert bursts[..|bursts|] == bursts;
    assert forall e :: 0 <= e <= last ==> bursts[..last][..e] == bursts[..e];
  }

  lemma SelectBoth(a: seq<Attempt>, b: seq<Attempt>, c: seq<Attempt>)
    ensures Select(a + (b + c), true) == Select(a, true) + (Select(b, true) + Select(c, true))
    ensures Select(a + (b + c), false) == Select(a, false) + (Select(b, false) + Select(c, false))
    ensures Select(b, true) + [] == Select(b, true) && [] + Select(c, false) == Select(c, false)
  {
    hide *;
    SelectAppend(a, b + c, true);
    SelectAppend(b, c, true);
    SelectAppend(a, b + c, false);
    SelectAppend(b, c, false);
  }

  /** However a sequence of frames is cut into bursts, the floods attempted are those of
      the frame-by-frame form in the same order. The unicasts are too, up to the end of
      every burst, if and only if every queue is attempted as it stands; and then both
      traces are the same multiset. */
  lemma BurstsRefineFrames(k: Known, bursts: seq<seq<Input>>, n: nat, net: Network)
    ensures var one, run := FrameAttempts(k, Flat(bursts)), RunAttempts(k, bursts, n, net);
            && Select(one, true) == Select(run, true)
            && (AsQueued(k, bursts, n, net)
                ==> Select(one, false) == Select(run, false) && multiset(one) == multiset(run))
    ensures AsQueued(k, bursts, n, net)
            <==> forall e :: 0 <= e <= |bursts| ==>
                   Select(FrameAttempts(k, Flat(bursts[..e])), false)
                     == Select(RunAttempts(k, bursts[..e], n, net), false)
  {
    hide *;
    var inputs := Flat(bursts);
    SelectFrames(k, inputs);
    SelectRun(k, bursts, n, net);
    SelectSplits(FrameAttempts(k, inputs));
    SelectSplits(RunAttempts(k, bursts, n, net));
    forall e | 0 <= e <= |bursts|
      ensures UnicastsAgree(k, bursts[..e], n, net)
              <==> Select(FrameAttempts(k, Flat(bursts[..e])), false)
                   == Select(RunAttempts(k, bursts[..e], n, net), false)
    {
      SelectFrames(k, Flat(bursts[..e]));
      AgreeIs(k, bursts[..e], n, net);
    }
    if AsQueued(k, bursts, n, net) {
      assert UnicastsAgree(k, bursts[..|bursts|], n, net) && bursts[..|bursts|] == bursts;
      AgreeIs(k, bursts, n, net);
    }
  }

  // ---------- What learning keeps ----------

  lemma LearnConsistent(k: Known, i: Input)
    requires Consistent(k)
    ensures Consistent(Learn(k, i))
  {
    var k' := Learn(k, i);
    if i.frame.src !in k.fdb {
      assert k'.ring == [(i.frame.src, i.from)] + k.ring;
      forall a | 0 <= a < |k'.ring|
        ensures k'.ring[a].0 in k'.fdb && k'.fdb[k'.ring[a].0] == k'.ring[a].1
        ensures a > 0 ==> k'.ring[a].0 != i.frame.src
      {
        assert a > 0 ==> k'.ring[a] == k.ring[a - 1];
      }
      forall m | m in k'.fdb
        ensures exists a :: 0 <= a < |k'.ring| && k'.ring[a].0 == m
      {
        if m == i.frame.src {
          assert k'.ring[0].0 == m;
        } else {
          var a :| 0 <= a < |k.ring| && k.ring[a].0 == m;
          assert k'.ring[a + 1].0 == m;
        }
      }
    }
  }

  /** In every reachable state the ring and the database agree. */
  lemma {:induction false} AlwaysConsistent(k: Known, inputs: seq<Input>)
    requires Consistent(k)
    ensures Consistent(KnownAfter(k, inputs))
  {
    if inputs != [] {
      AlwaysConsistent(k, inputs[..|inputs| - 1]);
      LearnConsistent(KnownAfter(k, inputs[..|inputs| - 1]), inputs[|inputs| - 1]);
    }
  }

  /** The peer of the first input whose source is mac. */
  function FirstSender(inputs: seq<Input>, mac: Key): Option<Addr> {
    if inputs == [] then None
    else
      var e := |inputs| - 1;
      var before := FirstSender(inputs[..e], mac);
      if before.Some? then before
      else if inputs[e].frame.src == mac then Some(inputs[e].from)
      else None
  }

  lemma {:induction false} FirstSenderIsFirst(inputs: seq<Input>, mac: Key) returns (j: nat)
    ensures j <= |inputs| && forall l :: 0 <= l < j ==> inputs[l].frame.src != mac
    ensures if j == |inputs| then FirstSender(inputs, mac) == None
            else inputs[j].frame.src == mac && FirstSender(inputs, mac) == Some(inputs[j].from)
  {
    if inputs == [] {
      j := 0;
    } else {
      var e := |inputs| - 1;
      j := FirstSenderIsFirst(inputs[..e], mac);
      if j == e && inputs[e].frame.src != mac {
        j := |inputs|;
      }
    }
  }

  /** A MAC keeps the first peer it was learned from, whatever arrives later. */
  lemma {:induction false} FirstPeerForever(k: Known, inputs: seq<Input>, mac: Key)
    ensures var fdb := KnownAfter(k, inputs).fdb;
            (if mac in fdb then Some(fdb[mac]) else None)
            == if mac in k.fdb then Some(k.fdb[mac]) else FirstSender(inputs, mac)
  {
    if inputs != [] {
      FirstPeerForever(k, inputs[..|inputs| - 1], mac);
    }
  }
}
