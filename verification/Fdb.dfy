/** The forwarding database of wlan_fdb.c. */
module Fdb {
  import opened Elements
  import opened BridgeSpec
  import opened Dictionary

  /** wlan_br_find. */
  method BrFind(d: Dict<Addr>, mac: Mac) returns (e: Elem?<Addr>)
    requires d.Valid()
    ensures e == null <==> mac !in d.Map()
    ensures e != null ==> e.val == d.Map()[mac]
  {
    hide *;
    d.ItemOf(mac);
    e := d.Find(mac);
  }

  /** wlan_fdb_update: a MAC that is known keeps its peer. */
  method FdbUpdate(d: Dict<Addr>, from: Addr, mac: Mac) returns (r: int)
    requires d.Valid()
    modifies d.Repr
    ensures d.Valid() && fresh(d.Repr - old(d.Repr))
    ensures r == if mac in old(d.Map()) then 0 else 1
    ensures d.Map() == if r == 1 then old(d.Map())[mac := from] else old(d.Map())
  {
    hide *;
    ghost var ps := d.Pairs();
    d.ItemOf(mac);
    var entry := d.Find(mac);
    if entry != null {
      return 0;
    }
    var e := new Elem(mac, from);
    var oomed := d.Insert(e, mac, true, true);
    MapAdded(ps, mac, from);
    d.ItemOf(mac);
    r := 1;
  }
}
