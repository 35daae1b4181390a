/** The per-IP counter table of statistics.c, updated in place. */
module Statistics {
  import opened Elements
  import opened BridgeSpec
  import opened Ledger
  import opened Dictionary

  /** wlan_ip_static_find and, when it finds nothing, a zeroed entry added. */
  method Entry(d: Dict<Counters>, ip: u32) returns (e: Elem<Counters>)
    requires d.Valid()
    modifies d.Repr
    ensures d.Valid() && fresh(d.Repr - old(d.Repr)) && e in d.Repr
    ensures HasKey(d.Pairs(), IpKey(ip)) && e == d.t.items[Place(d.Pairs(), IpKey(ip))]
    ensures e.val == Row(old(d.Map()), ip)
    ensures d.Map() == old(d.Map())[IpKey(ip) := e.val]
  {
    hide *;
    var key := IpKey(ip);
    ghost var ps := d.Pairs();
    d.ItemOf(key);
    RowIs(d.Map(), ip);
    var found := d.Find(key);
    if found != null {
      e := found;
      assert d.Map() == d.Map()[key := e.val];
    } else {
      e := new Elem(key, ZERO);
      var oomed := d.Insert(e, key, true, true);
      MapAdded(ps, key, ZERO);
    }
    d.ItemOf(IpKey(ip));
  }

  lemma RowIs(m: Book, ip: u32)
    ensures Row(m, ip) == if IpKey(ip) in m then m[IpKey(ip)] else ZERO
  {
  }

  /** wlan_ip_static_update_rx. */
  method UpdateRx(d: Dict<Counters>, ip: u32, packets: u32, bytes: u32)
    requires d.Valid()
    modifies d.Repr
    ensures d.Valid() && fresh(d.Repr - old(d.Repr))
    ensures d.Map() == CountRx(old(d.Map()), ip, packets as nat, bytes as nat)
  {
    hide *;
    CountRxIs(d.Map(), ip, packets as nat, bytes as nat);
    var e := Entry(d, ip);
    var c := e.val.(rxPackets := Plus(e.val.rxPackets, packets as nat), rxBytes := Plus(e.val.rxBytes, bytes as nat));
    Rewrite(d, ip, e, c);
  }

  /** wlan_ip_static_update_tx. */
  method UpdateTx(d: Dict<Counters>, ip: u32, packets: u32, bytes: u32)
    requires d.Valid()
    modifies d.Repr
    ensures d.Valid() && fresh(d.Repr - old(d.Repr))
    ensures d.Map() == CountTx(old(d.Map()), ip, packets as nat, bytes as nat)
  {
    hide *;
    CountTxIs(d.Map(), ip, packets as nat, bytes as nat);
    var e := Entry(d, ip);
    var c := e.val.(txPackets := Plus(e.val.txPackets, packets as nat), txBytes := Plus(e.val.txBytes, bytes as nat));
    Rewrite(d, ip, e, c);
  }

  /** The entry of an IP is written in place. */
  method Rewrite(d: Dict<Counters>, ip: u32, e: Elem<Counters>, c: Counters)
    requires d.Valid() && HasKey(d.Pairs(), IpKey(ip)) && e == d.t.items[Place(d.Pairs(), IpKey(ip))]
    modifies e`val
    ensures d.Valid() && d.Repr == old(d.Repr) && d.Map() == old(d.Map())[IpKey(ip) := c]
  {
    hide *;
    d.ItemOf(IpKey(ip));
    ghost var ps := d.Pairs();
    d.SetVal(e, c, IpKey(ip));
    MapUpdated(ps, IpKey(ip), c);
    d.ItemOf(IpKey(ip));
  }

  lemma CountRxIs(m: Book, ip: u32, packets: nat, bytes: nat)
    ensures var c := Row(m, ip);
            var c' := c.(rxPackets := Plus(c.rxPackets, packets), rxBytes := Plus(c.rxBytes, bytes));
            && CountRx(m, ip, packets, bytes) == m[IpKey(ip) := c']
            && m[IpKey(ip) := c][IpKey(ip) := c'] == m[IpKey(ip) := c']
  {
    hide Row, IpKey, Plus;
  }

  lemma CountTxIs(m: Book, ip: u32, packets: nat, bytes: nat)
    ensures var c := Row(m, ip);
            var c' := c.(txPackets := Plus(c.txPackets, packets), txBytes := Plus(c.txBytes, bytes));
            && CountTx(m, ip, packets, bytes) == m[IpKey(ip) := c']
            && m[IpKey(ip) := c][IpKey(ip) := c'] == m[IpKey(ip) := c']
  {
    hide Row, IpKey, Plus;
  }
}
