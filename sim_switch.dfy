/** TRA_switch as an object: its tables are fields that recv_handler updates in place,
    loop by loop as the source does. Every method is proved to leave the tables as the
    functions of module Routing say. */
module Switches {
  import opened Wrappers
  import opened SimBase
  import opened Packets
  import opened Links
  import opened Routing

  /** Adding an entry to an advertisement adds one entry to the network table. */
  lemma AdvertisedUpdate(a: NodeId, info: map<NodeId, LinkInfo>, nb: NodeId, v: LinkInfo)
    ensures Advertised(a, info[nb := v]) == Advertised(a, info)[(a, nb) := v]
  {
    var l, r := Advertised(a, info[nb := v]), Advertised(a, info)[(a, nb) := v];
    assert forall k :: k in l <==> k in r;
    forall k | k in l ensures l[k] == r[k] {
      if k != (a, nb) {
        assert k.1 in info;
      }
    }
  }

  /** The advertisement of a part of `info` grown by one key. */
  lemma AdvertisedGrow(a: NodeId, info: map<NodeId, LinkInfo>, todo: set<NodeId>, nb: NodeId)
    requires nb in todo && nb in info
    ensures Advertised(a, info - (todo - {nb})) == Advertised(a, info - todo)[(a, nb) := info[nb]]
  {
    assert info - (todo - {nb}) == (info - todo)[nb := info[nb]];
    AdvertisedUpdate(a, info - todo, nb, info[nb]);
  }

  /** One step of the insert loop: inserting (a, nb) unless present extends the merge by nb. */
  lemma MergeStep(base: map<LinkKey, LinkInfo>, a: NodeId, info: map<NodeId, LinkInfo>, todo: set<NodeId>, nb: NodeId,
                  net: map<LinkKey, LinkInfo>)
    requires nb in todo && nb in info
    requires net == Advertised(a, info - todo) + base
    ensures (if (a, nb) in net then net else net[(a, nb) := info[nb]]) == Advertised(a, info - (todo - {nb})) + base
  {
    AdvertisedGrow(a, info, todo, nb);
    InsertAbsent(Advertised(a, info - todo), base, (a, nb), info[nb]);
  }

  /** Inserting a key the left operand lacks into a union, unless the union has it. */
  lemma InsertAbsent<K, V>(l: map<K, V>, r: map<K, V>, k: K, v: V)
    requires k !in l
    ensures (if k in l + r then l + r else (l + r)[k := v]) == l[k := v] + r
  {
    if k in r {
      assert l + r == l[k := v] + r;
    } else {
      assert (l + r)[k := v] == l[k := v] + r;
    }
  }

  /** One step of the assignment loop: assigning (a, nb) extends the overwrite by nb. */
  lemma OverwriteStep(base: map<LinkKey, LinkInfo>, a: NodeId, info: map<NodeId, LinkInfo>, todo: set<NodeId>, nb: NodeId,
                      net: map<LinkKey, LinkInfo>)
    requires nb in todo && nb in info
    requires net == base + Advertised(a, info - todo)
    ensures net[(a, nb) := info[nb]] == base + Advertised(a, info - (todo - {nb}))
  {
    AdvertisedGrow(a, info, todo, nb);
    MapUpdateUnion(base, Advertised(a, info - todo), (a, nb), info[nb]);
  }

  /** The network-table entries (self, nb) -> link view of the own-advertisement loop. */
  ghost function OwnLinks(links: map<LinkKey, Link>, self: NodeId, nbs: seq<NodeId>): map<LinkKey, LinkInfo>
  {
    if nbs == [] then map[]
    else OwnLinks(links, self, nbs[..|nbs| - 1])[(self, nbs[|nbs| - 1]) := LinkView(links, self, nbs[|nbs| - 1])]
  }

  lemma {:induction false} OwnLinksAdvertised(links: map<LinkKey, Link>, self: NodeId, nbs: seq<NodeId>)
    ensures OwnLinks(links, self, nbs) == Advertised(self, OwnInfo(links, self, nbs))
  {
    if nbs != [] {
      var init := nbs[..|nbs| - 1];
      OwnLinksAdvertised(links, self, init);
      AdvertisedUpdate(self, OwnInfo(links, self, init), nbs[|nbs| - 1], LinkView(links, self, nbs[|nbs| - 1]));
    }
  }

  /** One step of the own-advertisement loop adds the next neighbour's link to the
      payload and to the network table. */
  lemma {:induction false} OwnStep(links: map<LinkKey, Link>, self: NodeId, nbs: seq<NodeId>, i: nat,
                info0: map<NodeId, LinkInfo>, base: map<LinkKey, LinkInfo>)
    requires i < |nbs|
    ensures (info0 + OwnInfo(links, self, nbs[..i]))[nbs[i] := LinkView(links, self, nbs[i])]
            == info0 + OwnInfo(links, self, nbs[..i + 1])
    ensures (base + OwnLinks(links, self, nbs[..i]))[(self, nbs[i]) := LinkView(links, self, nbs[i])]
            == base + OwnLinks(links, self, nbs[..i + 1])
  {
    var view := LinkView(links, self, nbs[i]);
    assert nbs[..i + 1][..i] == nbs[..i];
    MapUpdateUnion(info0, OwnInfo(links, self, nbs[..i]), nbs[i], view);
    MapUpdateUnion(base, OwnLinks(links, self, nbs[..i]), (self, nbs[i]), view);
  }

  /** Updating a union updates its right operand. */
  lemma MapUpdateUnion<K, V>(l: map<K, V>, r: map<K, V>, k: K, v: V)
    ensures (l + r)[k := v] == l + r[k := v]
  {
  }

  class TraSwitch {
    const id: NodeId
    var neighbors: seq<NodeId>
    var numOfLabel: Uint
    var lastSeen: map<NodeId, Uint>
    var entryTable: map<NodeId, seq<NodeId>>
    var network: map<LinkKey, LinkInfo>

    /** The switch's tables as a value. */
    function Tables(): Switch
      reads this
    {
      Switch(id, neighbors, numOfLabel, lastSeen, entryTable, network)
    }

    /** TRA_switch_generator::generate. */
    constructor(nid: NodeId)
      ensures Tables() == NewSwitch(nid)
    {
      id := nid;
      neighbors := [];
      numOfLabel := 0;
      lastSeen := map[];
      entryTable := map[];
      network := map[];
    }

    /** setNumOfLabel. */
    method SetNumOfLabel(n: Uint)
      modifies this
      ensures Tables() == old(Tables()).(numOfLabel := n)
    {
      numOfLabel := n;
    }

    /** The neighbour insertion of add_phy_neighbor (its checks are made by the caller). */
    method AddNeighbor(nb: NodeId)
      requires StrictlyAscending(neighbors) && nb !in neighbors
      modifies this
      ensures Tables() == old(Tables()).(neighbors := InsertSorted(old(neighbors), nb))
    {
      neighbors := InsertSorted(neighbors, nb);
    }

    /** del_phy_neighbor. */
    method DelPhyNeighbor(nb: NodeId)
      requires StrictlyAscending(neighbors)
      modifies this
      ensures Tables() == old(Tables()).(neighbors := Remove(old(neighbors), nb))
    {
      neighbors := Remove(neighbors, nb);
    }

    /** The loop over phy_neighbors in the own-advertisement branch: each neighbour's
        (capacity, occupied) goes into the payload and into network[(self, nb)]. */
    method AdvertiseOwnLinks(links: map<LinkKey, Link>, info0: map<NodeId, LinkInfo>) returns (info: map<NodeId, LinkInfo>)
      modifies this
      ensures unchanged(this`neighbors, this`lastSeen, this`entryTable, this`numOfLabel)
      ensures info == info0 + OwnInfo(links, id, neighbors)
      ensures network == old(network) + Advertised(id, OwnInfo(links, id, neighbors))
    {
      info := info0;
      var nbs := neighbors;
      var i := 0;
      assert nbs[..0] == [];
      while i < |nbs|
        invariant 0 <= i <= |nbs|
        invariant unchanged(this`neighbors, this`lastSeen, this`entryTable, this`numOfLabel)
        invariant info == info0 + OwnInfo(links, id, nbs[..i])
        invariant network == old(network) + OwnLinks(links, id, nbs[..i])
      {
        var view := LinkView(links, id, nbs[i]);
        OwnStep(links, id, nbs, i, info0, old(network));
        info := info[nbs[i] := view];
        network := network[(id, nbs[i]) := view];
        i := i + 1;
      }
      assert nbs[..i] == nbs;
      OwnLinksAdvertised(links, id, nbs);
    }

    /** The insert loop of a first sighting: (a, nb) -> info[nb] for every advertised
        neighbour, without replacing an entry already present. */
    method MergeFirstSighting(a: NodeId, info: map<NodeId, LinkInfo>)
      modifies this
      ensures Tables() == old(Tables()).(network := Advertised(a, info) + old(network))
    {
      var todo := info.Keys;
      assert info - todo == map[];
      while todo != {}
        invariant todo <= info.Keys
        invariant neighbors == old(neighbors) && lastSeen == old(lastSeen) && entryTable == old(entryTable)
        invariant numOfLabel == old(numOfLabel)
        invariant network == Advertised(a, info - todo) + old(network)
        decreases todo
      {
        var nb :| nb in todo;
        MergeStep(old(network), a, info, todo, nb, network);
        if (a, nb) !in network {
          network := network[(a, nb) := info[nb]];
        }
        todo := todo - {nb};
      }
      assert info - todo == info;
    }

    /** The assignment loop of a newer advertisement: (a, nb) -> info[nb] for every
        advertised neighbour, replacing what was there. */
    method OverwriteAdvertised(a: NodeId, info: map<NodeId, LinkInfo>)
      modifies this
      ensures Tables() == old(Tables()).(network := old(network) + Advertised(a, info))
    {
      var todo := info.Keys;
      assert info - todo == map[];
      while todo != {}
        invariant todo <= info.Keys
        invariant neighbors == old(neighbors) && lastSeen == old(lastSeen) && entryTable == old(entryTable)
        invariant numOfLabel == old(numOfLabel)
        invariant network == old(network) + Advertised(a, info - todo)
        decreases todo
      {
        var nb :| nb in todo;
        OverwriteStep(old(network), a, info, todo, nb, network);
        network := network[(a, nb) := info[nb]];
        todo := todo - {nb};
      }
      assert info - todo == info;
    }

    /** The control branch of recv_handler. */
    method CtrlHandler(links: map<LinkKey, Link>, p: Packet) returns (fwd: Option<Packet>, ok: bool)
      requires p.CtrlPacket?
      modifies this
      ensures var r := CtrlRecv(old(Tables()), links, p);
        ok == r.Handled? && (ok ==> Tables() == r.sw && fwd == r.fwd) && (!ok ==> Tables() == old(Tables()))
    {
      if p.ctrlHdr.src == id {
        if id in lastSeen && p.id <= lastSeen[id] {
          return None, true;
        }
        var info := AdvertiseOwnLinks(links, p.payload.netwInfo);
        lastSeen := lastSeen[id := p.id];
        var q := p.(payload := p.payload.(nid := id, netwInfo := info));
        return Some(Flooded(id, q)), true;
      }
      var a, pre := p.payload.nid, p.ctrlHdr.pre;
      if a !in lastSeen {
        if a !in entryTable {
          entryTable := entryTable[a := [pre]];
        }
        lastSeen := lastSeen[a := p.id];
        MergeFirstSighting(a, p.payload.netwInfo);
      } else if p.id > lastSeen[a] {
        OverwriteAdvertised(a, p.payload.netwInfo);
        lastSeen := lastSeen[a := p.id];
      } else {
        if a !in entryTable {
          return None, false;
        }
        var known := ContainsId(entryTable[a], pre);
        if !known {
          entryTable := entryTable[a := entryTable[a] + [pre]];
        }
        return None, true;
      }
      return Some(Flooded(id, p)), true;
    }

    /** The scan of entry_table.at(src) for preID. */
    static method ContainsId(s: seq<NodeId>, x: NodeId) returns (found: bool)
      ensures found <==> x in s
    {
      var i := 0;
      while i < |s|
        invariant 0 <= i <= |s|
        invariant x !in s[..i]
      {
        if s[i] == x {
          return true;
        }
        i := i + 1;
      }
      assert s[..i] == s;
      return false;
    }

    /** The detour loop of the data branch over entries[0..=|entries|/2]. */
    method FindDetour(entries: seq<NodeId>, visits: set<NodeId>, size: Uint) returns (r: Scan)
      requires |entries| > 0
      ensures r == DetourScan(network, id, entries, visits, size, 0)
    {
      var i := 0;
      while i <= |entries| / 2
        invariant 0 <= i <= |entries| / 2 + 1
        invariant DetourScan(network, id, entries, visits, size, 0) == DetourScan(network, id, entries, visits, size, i)
      {
        var nb := entries[i];
        if (id, nb) !in network {
          return ScanCrash;
        }
        var edge := network[(id, nb)];
        if nb !in visits && Headroom(edge) > size {
          return Found(nb);
        }
        i := i + 1;
      }
      return NotFound;
    }

    /** The data branch of recv_handler; it reads the tables and changes none of them. */
    method DataHandler(nodeNum: nat, p: Packet) returns (fwd: Option<Packet>, ok: bool)
      requires p.DataPacket?
      ensures var r := DataRecv(Tables(), nodeNum, p);
        ok == r.Handled? && (ok ==> fwd == r.fwd)
    {
      var h := p.hdr;
      var cur, table, net := id, entryTable, network;
      if |table| < Wrap(nodeNum - 1) {
        return None, true;
      }
      if cur == h.base.dst {
        return None, true;
      } else if cur == h.base.src {
        h := h.PushLabel(h.base.dst);
      } else if cur == h.GetLabel() {
        if |h.labels| == 0 {
          return None, false;
        }
        h := h.PopLabel();
      }
      assert h == Relabel(cur, p.hdr);
      var top := h.GetLabel();
      if top !in table || |table[top]| == 0 {
        return None, false;
      }
      var next := table[top][0];
      if (cur, next) !in net {
        return None, false;
      }
      fwd, ok := SteerPacket(p.hdr, h, next, p);
    }

    /** The congestion and detour step of the data branch, and the forwarding after it. */
    method SteerPacket(h0: DataHeader, h1: DataHeader, next: NodeId, p: Packet) returns (fwd: Option<Packet>, ok: bool)
      requires p.DataPacket? && (id, next) in network
      ensures var r := Steer(Tables(), h0, h1, next, p);
        ok == r.Handled? && (ok ==> fwd == r.fwd)
    {
      var h, hop := h1, next;
      var edge := network[(id, next)];
      if Headroom(edge) < p.size {
        if h.usedLabels >= SubU32(numOfLabel, 1) {
          return None, true;
        }
        if h0.base.dst !in entryTable || |entryTable[h0.base.dst]| == 0 {
          return None, false;
        }
        var entries := entryTable[h0.base.dst];
        var scan := FindDetour(entries, h.visits, p.size);
        if scan.ScanCrash? {
          return None, false;
        }
        if scan.Found? && scan.hop != entries[0] {
          h := h.PushLabel(scan.hop);
          hop := scan.hop;
        }
      }
      if h.Visited(hop) {
        return None, true;
      }
      h := h.Visit(id);
      h := h.(base := h.base.(pre := id, nex := hop));
      return Some(p.(hdr := h)), true;
    }

    /** recv_handler. */
    method RecvHandler(links: map<LinkKey, Link>, nodeNum: nat, p: Packet, ghost h: Handled) returns (fwd: Option<Packet>, ok: bool)
      requires h == Receive(Tables(), links, nodeNum, p)
      modifies this
      ensures ok == h.Handled? && (ok ==> Tables() == h.sw && fwd == h.fwd) && (!ok ==> Tables() == old(Tables()))
    {
      if p.CtrlPacket? {
        fwd, ok := CtrlHandler(links, p);
      } else {
        fwd, ok := DataHandler(nodeNum, p);
      }
    }
  }
}
