/** TRA_switch: the per-switch tables and what recv_handler does to them and to the packet.
    The handler is a function of the switch's tables, the global link table (read through
    getCapacity/getOccupied), the number of nodes, and the received packet. Its outcome is
    the new switch and the packet handed to send_handler, if any. Paths on which the source
    throws or reads through an invalid iterator are the outcome `Crashed`. */
module Routing {
  import opened Wrappers
  import opened SimBase
  import opened Packets
  import opened Links

  /** The (from, to) key of the link tables. */
  type LinkKey = (NodeId, NodeId)

  /** A switch: its id, its physical neighbours in ascending order (the key order of the
      std::map phy_neighbors), num_of_label, and the three tables of TRA_switch. */
  datatype Switch = Switch(
    id: NodeId,
    neighbors: seq<NodeId>,
    numOfLabel: Uint,
    lastSeen: map<NodeId, Uint>,
    entryTable: map<NodeId, seq<NodeId>>,
    network: map<LinkKey, LinkInfo>)

  /** A freshly generated switch. */
  function NewSwitch(id: NodeId): (sw: Switch)
    ensures sw.id == id && sw.neighbors == [] && sw.numOfLabel == 0
    ensures sw.lastSeen == map[] && sw.entryTable == map[] && sw.network == map[]
  {
    Switch(id, [], 0, map[], map[], map[])
  }

  /** What recv_handler leaves behind: the updated switch and the packet passed to
      send_handler (None when the packet is dropped), or a crash. */
  datatype Handled = Handled(sw: Switch, fwd: Option<Packet>) | Crashed

  predicate StrictlyAscending(s: seq<NodeId>)
  {
    forall i, j :: 0 <= i < j < |s| ==> s[i] < s[j]
  }

  predicate NoDuplicates(s: seq<NodeId>)
  {
    forall i, j :: 0 <= i < j < |s| ==> s[i] != s[j]
  }

  /** add_phy_neighbor's `phy_neighbors[_id] = true` on the ordered key sequence. */
  function InsertSorted(s: seq<NodeId>, x: NodeId): (r: seq<NodeId>)
    requires StrictlyAscending(s) && x !in s
    ensures StrictlyAscending(r)
    ensures forall y :: y in r <==> y in s || y == x
    ensures |r| == |s| + 1
  {
    if s == [] || x < s[0] then [x] + s
    else
      var rest := InsertSorted(s[1..], x);
      assert forall k :: 0 <= k < |rest| ==> s[0] < rest[k] by {
        forall k | 0 <= k < |rest| ensures s[0] < rest[k] {
          assert rest[k] in rest;
        }
      }
      [s[0]] + rest
  }

  /** del_phy_neighbor's erase on the ordered key sequence. */
  function Remove(s: seq<NodeId>, x: NodeId): (r: seq<NodeId>)
    requires StrictlyAscending(s)
    ensures StrictlyAscending(r)
    ensures forall y :: y in r <==> y in s && y != x
  {
    if s == [] then []
    else if s[0] == x then s[1..]
    else
      var rest := Remove(s[1..], x);
      assert forall k :: 0 <= k < |rest| ==> s[0] < rest[k] by {
        forall k | 0 <= k < |rest| ensures s[0] < rest[k] {
          assert rest[k] in rest;
        }
      }
      [s[0]] + rest
  }

  /** The table invariant of a switch: ascending neighbours without itself, and every
      entry list non-empty and free of duplicates. */
  predicate SwitchInv(sw: Switch)
  {
    StrictlyAscending(sw.neighbors) && sw.id !in sw.neighbors &&
    forall a :: a in sw.entryTable ==> |sw.entryTable[a]| > 0 && NoDuplicates(sw.entryTable[a])
  }

  // ------------------------------------------------------------------ isNewPacket

  /** isNewPacket: no id recorded for the header's source, or a strictly larger id. */
  predicate IsNewPacket(sw: Switch, p: Packet)
  {
    var src := p.Hdr().src;
    src !in sw.lastSeen || p.id > sw.lastSeen[src]
  }

  // ------------------------------------------------------------------ control plane

  /** getCapacity / getOccupied of the link (self, nb): the link's values, or 0 and 0
      when there is no such link. */
  function LinkView(links: map<LinkKey, Link>, self: NodeId, nb: NodeId): LinkInfo
  {
    if (self, nb) in links then LinkInfo(links[(self, nb)].capacity, links[(self, nb)].occupied)
    else LinkInfo(0, 0)
  }

  /** The (capacity, occupied) of the links to each of `nbs`. */
  function OwnInfo(links: map<LinkKey, Link>, self: NodeId, nbs: seq<NodeId>): (m: map<NodeId, LinkInfo>)
    ensures forall nb :: nb in m <==> nb in nbs
    ensures forall nb :: nb in m ==> m[nb] == LinkView(links, self, nb)
  {
    if nbs == [] then map[]
    else OwnInfo(links, self, nbs[..|nbs| - 1])[nbs[|nbs| - 1] := LinkView(links, self, nbs[|nbs| - 1])]
  }

  /** An advertisement of `a` as entries of the network table: (a, nb) -> info[nb]. */
  function Advertised(a: NodeId, info: map<NodeId, LinkInfo>): (m: map<LinkKey, LinkInfo>)
    ensures forall k :: k in m <==> k.0 == a && k.1 in info
    ensures forall nb :: nb in info ==> m[(a, nb)] == info[nb]
  {
    map nb | nb in info :: (a, nb) := info[nb]
  }

  /** The forwarded control copy: preID is this switch, nexID and dstID are BROCAST_ID. */
  function Flooded(self: NodeId, p: Packet): (q: Packet)
    requires p.CtrlPacket?
    ensures q.CtrlPacket? && q.id == p.id && q.size == p.size && q.payload == p.payload
    ensures q.ctrlHdr == Header(p.ctrlHdr.src, BROADCAST_ID, self, BROADCAST_ID)
  {
    p.(ctrlHdr := Header(p.ctrlHdr.src, BROADCAST_ID, self, BROADCAST_ID))
  }

  /** The control branch of recv_handler. */
  function CtrlRecv(sw: Switch, links: map<LinkKey, Link>, p: Packet): Handled
    requires p.CtrlPacket?
  {
    if p.ctrlHdr.src == sw.id then
      if sw.id in sw.lastSeen && p.id <= sw.lastSeen[sw.id] then Handled(sw, None)
      else
        var info := OwnInfo(links, sw.id, sw.neighbors);
        var payload := p.payload.(nid := sw.id, netwInfo := p.payload.netwInfo + info);
        var sw' := sw.(network := sw.network + Advertised(sw.id, info),
                       lastSeen := sw.lastSeen[sw.id := p.id]);
        Handled(sw', Some(Flooded(sw.id, p.(payload := payload))))
    else
      var a := p.payload.nid;
      var info := p.payload.netwInfo;
      if a !in sw.lastSeen then
        var sw' := sw.(entryTable := if a in sw.entryTable then sw.entryTable else sw.entryTable[a := [p.ctrlHdr.pre]],
                       lastSeen := sw.lastSeen[a := p.id],
                       network := Advertised(a, info) + sw.network);
        Handled(sw', Some(Flooded(sw.id, p)))
      else if p.id > sw.lastSeen[a] then
        var sw' := sw.(network := sw.network + Advertised(a, info),
                       lastSeen := sw.lastSeen[a := p.id]);
        Handled(sw', Some(Flooded(sw.id, p)))
      else if a !in sw.entryTable then Crashed
      else if p.ctrlHdr.pre in sw.entryTable[a] then Handled(sw, None)
      else Handled(sw.(entryTable := sw.entryTable[a := sw.entryTable[a] + [p.ctrlHdr.pre]]), None)
  }

  // ------------------------------------------------------------------ data plane

  /** Outcome of the detour search. */
  datatype Scan = NotFound | Found(hop: NodeId) | ScanCrash

  /** Residual bandwidth of a network-table entry (capacity - occupied, may be negative). */
  function Headroom(e: LinkInfo): int
  {
    e.capacity - e.occupied
  }

  /** The detour loop from index i on: over entries[i..|entries|/2], the first entry that is
      not visited and whose link from `cur` has headroom larger than `size`;
      network.at crashes on a missing link. */
  function DetourScan(network: map<LinkKey, LinkInfo>, cur: NodeId, entries: seq<NodeId>,
                      visits: set<NodeId>, size: Uint, i: nat): (r: Scan)
    requires |entries| > 0
    ensures r.Found? ==> (cur, r.hop) in network && r.hop !in visits
                         && Headroom(network[(cur, r.hop)]) > size
                         && exists k :: i <= k <= |entries| / 2 && entries[k] == r.hop
    decreases |entries| / 2 + 1 - i
  {
    if i > |entries| / 2 then NotFound
    else if (cur, entries[i]) !in network then ScanCrash
    else if entries[i] !in visits && Headroom(network[(cur, entries[i])]) > size then Found(entries[i])
    else DetourScan(network, cur, entries, visits, size, i + 1)
  }

  /** Whether the label step at `cur` is defined: pop_label on an empty stack is not. */
  predicate CanRelabel(cur: NodeId, h: DataHeader)
  {
    cur == h.base.src || cur != h.GetLabel() || |h.labels| > 0
  }

  /** The label step: the source pushes the destination, a switch equal to the top label
      pops it, any other switch leaves the stack alone. */
  function Relabel(cur: NodeId, h: DataHeader): (h1: DataHeader)
    requires CanRelabel(cur, h)
    ensures h1.base == h.base && h1.visits == h.visits
  {
    if cur == h.base.src then h.PushLabel(h.base.dst)
    else if cur == h.GetLabel() then h.PopLabel()
    else h
  }

  /** The entry table is complete enough to route: at least nodeNum - 1 advertisers known
      (the subtraction is unsigned). */
  predicate Warmed(sw: Switch, nodeNum: nat)
  {
    |sw.entryTable| >= Wrap(nodeNum - 1)
  }

  /** Congestion on the link to `next` as this switch last heard of it. */
  predicate Congested(sw: Switch, next: NodeId, size: Uint)
    requires (sw.id, next) in sw.network
  {
    Headroom(sw.network[(sw.id, next)]) < size
  }

  /** The data branch of recv_handler, for a switch in a network of nodeNum nodes. */
  function DataRecv(sw: Switch, nodeNum: nat, p: Packet): Handled
    requires p.DataPacket?
  {
    var h := p.hdr;
    var cur := sw.id;
    if !Warmed(sw, nodeNum) then Handled(sw, None)
    else if cur == h.base.dst then Handled(sw, None)
    else if !CanRelabel(cur, h) then Crashed
    else
      var h1 := Relabel(cur, h);
      var top := h1.GetLabel();
      if top !in sw.entryTable || |sw.entryTable[top]| == 0 then Crashed
      else
        var next := sw.entryTable[top][0];
        if (cur, next) !in sw.network then Crashed
        else Steer(sw, p.hdr, h1, next, p)
  }

  /** The congestion step of the data branch, after the label step turned h into h1 and
      the entry table named next: an uncongested next hop is kept; a congested one is kept
      too when the label budget is spent or no detour qualifies, and is otherwise replaced
      by the detour, pushed as a label when it differs from the first entry. */
  function Steer(sw: Switch, h: DataHeader, h1: DataHeader, next: NodeId, p: Packet): Handled
    requires p.DataPacket? && (sw.id, next) in sw.network
  {
    if !Congested(sw, next, p.size) then Forward(sw, h1, next, p)
    else if h1.usedLabels >= SubU32(sw.numOfLabel, 1) then Handled(sw, None)
    else if h.base.dst !in sw.entryTable || |sw.entryTable[h.base.dst]| == 0 then Crashed
    else
      var entries := sw.entryTable[h.base.dst];
      match DetourScan(sw.network, sw.id, entries, h1.visits, p.size, 0)
      case ScanCrash => Crashed
      case NotFound => Forward(sw, h1, next, p)
      case Found(hop) =>
        if hop != entries[0] then Forward(sw, h1.PushLabel(hop), hop, p)
        else Forward(sw, h1, next, p)
  }

  /** The end of the data branch: drop when next was visited, otherwise mark this switch
      visited and address the packet from here to next. */
  function Forward(sw: Switch, h: DataHeader, next: NodeId, p: Packet): Handled
    requires p.DataPacket?
  {
    if h.Visited(next) then Handled(sw, None)
    else Handled(sw, Some(p.(hdr := h.Visit(sw.id).(base := h.base.(pre := sw.id, nex := next)))))
  }

  /** recv_handler. */
  function Receive(sw: Switch, links: map<LinkKey, Link>, nodeNum: nat, p: Packet): Handled
  {
    if p.CtrlPacket? then CtrlRecv(sw, links, p) else DataRecv(sw, nodeNum, p)
  }

  // ------------------------------------------------------------------ control-plane facts

  /** A switch's own advertisement: dropped when its id is not above the one recorded for
      the switch itself; otherwise the payload and network[(self, nb)] get every
      neighbour's (capacity, occupied), the id is recorded, and the copy is flooded. */
  lemma SelfAdvertisement(sw: Switch, links: map<LinkKey, Link>, p: Packet)
    requires p.CtrlPacket? && p.ctrlHdr.src == sw.id
    ensures sw.id in sw.lastSeen && p.id <= sw.lastSeen[sw.id] ==> CtrlRecv(sw, links, p) == Handled(sw, None)
    ensures !(sw.id in sw.lastSeen && p.id <= sw.lastSeen[sw.id]) ==>
      var r := CtrlRecv(sw, links, p);
      r.Handled? && r.fwd.Some? &&
      r.sw.lastSeen == sw.lastSeen[sw.id := p.id] && r.sw.entryTable == sw.entryTable &&
      r.fwd.value.id == p.id && r.fwd.value.payload.nid == sw.id &&
      (forall nb :: nb in sw.neighbors ==>
         r.fwd.value.payload.netwInfo[nb] == LinkView(links, sw.id, nb) &&
         r.sw.network[(sw.id, nb)] == LinkView(links, sw.id, nb)) &&
      (forall k :: k in sw.network && k.0 != sw.id ==> k in r.sw.network && r.sw.network[k] == sw.network[k])
  {
  }

  /** The first advertisement heard from `a`: entry_table[a] becomes [preID] (insert does not
      replace an existing list), the id is recorded, and the advertised links are added
      to the network table without replacing any entry already there. */
  lemma FirstSighting(sw: Switch, links: map<LinkKey, Link>, p: Packet)
    requires p.CtrlPacket? && p.ctrlHdr.src != sw.id && p.payload.nid !in sw.lastSeen
    ensures var a, r := p.payload.nid, CtrlRecv(sw, links, p);
      r.Handled? && r.fwd == Some(Flooded(sw.id, p)) &&
      r.sw.lastSeen == sw.lastSeen[a := p.id] &&
      (a !in sw.entryTable ==> r.sw.entryTable == sw.entryTable[a := [p.ctrlHdr.pre]]) &&
      (a in sw.entryTable ==> r.sw.entryTable == sw.entryTable) &&
      (forall k :: k in sw.network ==> k in r.sw.network && r.sw.network[k] == sw.network[k]) &&
      (forall nb :: nb in p.payload.netwInfo && (a, nb) !in sw.network ==>
         r.sw.network[(a, nb)] == p.payload.netwInfo[nb]) &&
      (forall k :: k in r.sw.network <==> k in sw.network || (k.0 == a && k.1 in p.payload.netwInfo))
  {
  }

  /** A strictly newer advertisement from a known advertiser replaces its network entries
      and the recorded id, and leaves the entry table as it is. */
  lemma NewerAdvertisement(sw: Switch, links: map<LinkKey, Link>, p: Packet)
    requires p.CtrlPacket? && p.ctrlHdr.src != sw.id
    requires p.payload.nid in sw.lastSeen && p.id > sw.lastSeen[p.payload.nid]
    ensures var a, r := p.payload.nid, CtrlRecv(sw, links, p);
      r.Handled? && r.fwd == Some(Flooded(sw.id, p)) &&
      r.sw.lastSeen == sw.lastSeen[a := p.id] && r.sw.entryTable == sw.entryTable &&
      (forall nb :: nb in p.payload.netwInfo ==> r.sw.network[(a, nb)] == p.payload.netwInfo[nb]) &&
      (forall k :: k in sw.network && (k.0 != a || k.1 !in p.payload.netwInfo) ==>
         r.sw.network[k] == sw.network[k])
  {
  }

  /** A repeated advertisement is never flooded again; it only teaches that preID is a
      neighbour towards the advertiser, appended once. */
  lemma StaleAdvertisement(sw: Switch, links: map<LinkKey, Link>, p: Packet)
    requires p.CtrlPacket? && p.ctrlHdr.src != sw.id
    requires p.payload.nid in sw.lastSeen && p.id <= sw.lastSeen[p.payload.nid]
    ensures var a, r := p.payload.nid, CtrlRecv(sw, links, p);
      (r.Crashed? <==> a !in sw.entryTable) &&
      (r.Handled? ==>
         r.fwd.None? && r.sw.network == sw.network && r.sw.lastSeen == sw.lastSeen &&
         p.ctrlHdr.pre in r.sw.entryTable[a] &&
         (p.ctrlHdr.pre in sw.entryTable[a] ==> r.sw == sw) &&
         (p.ctrlHdr.pre !in sw.entryTable[a] ==> r.sw.entryTable[a] == sw.entryTable[a] + [p.ctrlHdr.pre]))
  {
  }

  /** Every flooded control copy keeps its id, size and source and is addressed from this
      switch to every neighbour. */
  lemma FloodedHeader(sw: Switch, links: map<LinkKey, Link>, p: Packet)
    requires p.CtrlPacket?
    ensures var r := CtrlRecv(sw, links, p);
      r.Handled? && r.fwd.Some? ==>
        r.fwd.value.CtrlPacket? && r.fwd.value.id == p.id && r.fwd.value.size == p.size &&
        r.fwd.value.ctrlHdr == Header(p.ctrlHdr.src, BROADCAST_ID, sw.id, BROADCAST_ID)
  {
  }

  /** Appending an absent id keeps a list free of duplicates. */
  lemma {:induction false} AppendAbsent(s: seq<NodeId>, x: NodeId)
    requires NoDuplicates(s) && x !in s
    ensures NoDuplicates(s + [x])
  {
    var t := s + [x];
    forall i, j | 0 <= i < j < |t| ensures t[i] != t[j] {
      if j == |s| {
        assert t[i] == s[i];
      } else {
        assert t[i] == s[i] && t[j] == s[j];
      }
    }
  }

  /** The control plane keeps every entry list non-empty and duplicate-free and does not
      touch the neighbour list. */
  lemma CtrlRecvKeepsInv(sw: Switch, links: map<LinkKey, Link>, p: Packet)
    requires p.CtrlPacket? && SwitchInv(sw)
    ensures CtrlRecv(sw, links, p).Handled? ==> SwitchInv(CtrlRecv(sw, links, p).sw)
    ensures CtrlRecv(sw, links, p).Handled? ==>
      CtrlRecv(sw, links, p).sw.id == sw.id && CtrlRecv(sw, links, p).sw.neighbors == sw.neighbors
  {
    var a := p.payload.nid;
    if p.ctrlHdr.src != sw.id && a in sw.lastSeen && p.id <= sw.lastSeen[a]
       && a in sw.entryTable && p.ctrlHdr.pre !in sw.entryTable[a] {
      AppendAbsent(sw.entryTable[a], p.ctrlHdr.pre);
    }
  }

  /** Control packets whose advertiser is their source (every control packet the
      simulator makes), and ids recorded only for the switch itself or for advertisers in
      the entry table. */
  predicate Consistent(sw: Switch)
  {
    forall a :: a in sw.lastSeen ==> a == sw.id || a in sw.entryTable
  }

  /** With consistent tables, an advertisement whose payload names its source never
      crashes the switch, is flooded exactly when isNewPacket holds, and keeps the tables
      consistent. */
  lemma FloodIffNew(sw: Switch, links: map<LinkKey, Link>, p: Packet)
    requires p.CtrlPacket? && p.payload.nid == p.ctrlHdr.src && Consistent(sw)
    ensures CtrlRecv(sw, links, p).Handled?
    ensures CtrlRecv(sw, links, p).fwd.Some? <==> IsNewPacket(sw, p)
    ensures Consistent(CtrlRecv(sw, links, p).sw)
  {
  }

  // ------------------------------------------------------------------ data-plane facts

  /** Entry j of the detour loop is known and passed over: visited, or too little headroom. */
  predicate PassedOver(network: map<LinkKey, LinkInfo>, cur: NodeId, entries: seq<NodeId>,
                       visits: set<NodeId>, size: Uint, j: nat)
    requires j < |entries|
  {
    (cur, entries[j]) in network &&
    (entries[j] in visits || Headroom(network[(cur, entries[j])]) <= size)
  }

  /** The detour loop returns the first qualifying entry of entries[i..=|entries|/2]; it
      finds none only when every such entry is known and passed over, and it crashes only
      on an entry without a network-table link. */
  lemma {:induction false} DetourScanFirst(network: map<LinkKey, LinkInfo>, cur: NodeId, entries: seq<NodeId>,
                                           visits: set<NodeId>, size: Uint, i: nat)
    requires |entries| > 0
    ensures var r := DetourScan(network, cur, entries, visits, size, i);
      (r.Found? ==>
        exists k :: i <= k <= |entries| / 2 && entries[k] == r.hop &&
          (forall j :: i <= j < k ==> PassedOver(network, cur, entries, visits, size, j))) &&
      (r.NotFound? ==>
        forall j :: i <= j <= |entries| / 2 ==> PassedOver(network, cur, entries, visits, size, j)) &&
      (r.ScanCrash? ==>
        exists k :: i <= k <= |entries| / 2 && (cur, entries[k]) !in network)
    decreases |entries| / 2 + 1 - i
  {
    if i <= |entries| / 2 && (cur, entries[i]) in network &&
       !(entries[i] !in visits && Headroom(network[(cur, entries[i])]) > size) {
      DetourScanFirst(network, cur, entries, visits, size, i + 1);
      var r := DetourScan(network, cur, entries, visits, size, i + 1);
      if r.Found? {
        var k :| i + 1 <= k <= |entries| / 2 && entries[k] == r.hop &&
          (forall j :: i + 1 <= j < k ==> PassedOver(network, cur, entries, visits, size, j));
        assert PassedOver(network, cur, entries, visits, size, i);
        assert i <= k;
      } else if r.ScanCrash? {
        var k :| i + 1 <= k <= |entries| / 2 && (cur, entries[k]) !in network;
        assert i <= k;
      }
    }
  }

  /** A data packet is ignored until the entry table knows nodeNum - 1 advertisers, and
      at its destination. */
  lemma DataNotRouted(sw: Switch, nodeNum: nat, p: Packet)
    requires p.DataPacket?
    requires !Warmed(sw, nodeNum) || sw.id == p.hdr.base.dst
    ensures DataRecv(sw, nodeNum, p) == Handled(sw, None)
  {
  }

  /** What a forwarded data packet looks like: same id, size, message, source and
      destination; addressed from this switch to a next hop that the packet had not
      visited; this switch added to the visited set; the label stack after the label step,
      possibly with one detour label on top. The switch itself is never changed. */
  lemma DataForwarded(sw: Switch, nodeNum: nat, p: Packet)
    requires p.DataPacket?
    ensures DataRecv(sw, nodeNum, p).Handled? ==> DataRecv(sw, nodeNum, p).sw == sw
    ensures var r := DataRecv(sw, nodeNum, p);
      r.Handled? && r.fwd.Some? ==>
        var q := r.fwd.value;
        CanRelabel(sw.id, p.hdr) &&
        q.DataPacket? && q.id == p.id && q.size == p.size && q.msg == p.msg &&
        q.hdr.base.src == p.hdr.base.src && q.hdr.base.dst == p.hdr.base.dst &&
        q.hdr.base.pre == sw.id && !p.hdr.Visited(q.hdr.base.nex) &&
        q.hdr.visits == p.hdr.visits + {sw.id} &&
        (q.hdr.labels == Relabel(sw.id, p.hdr).labels ||
         q.hdr.labels == Relabel(sw.id, p.hdr).labels + [q.hdr.base.nex])
  {
  }

  /** The uncongested path: the next hop is the first entry towards the top label. */
  lemma UncongestedNextHop(sw: Switch, nodeNum: nat, p: Packet)
    requires p.DataPacket? && Warmed(sw, nodeNum) && sw.id != p.hdr.base.dst && CanRelabel(sw.id, p.hdr)
    requires var top := Relabel(sw.id, p.hdr).GetLabel();
      top in sw.entryTable && |sw.entryTable[top]| > 0 &&
      (sw.id, sw.entryTable[top][0]) in sw.network && !Congested(sw, sw.entryTable[top][0], p.size)
    ensures var next, r := sw.entryTable[Relabel(sw.id, p.hdr).GetLabel()][0], DataRecv(sw, nodeNum, p);
      r.Handled? && (r.fwd.Some? <==> !p.hdr.Visited(next)) &&
      (r.fwd.Some? ==> r.fwd.value.hdr.base.nex == next && r.fwd.value.hdr.labels == Relabel(sw.id, p.hdr).labels)
  {
  }

  /** The source pushes the destination as the first label. */
  lemma SourcePushesDestination(sw: Switch, p: Packet)
    requires p.DataPacket? && sw.id == p.hdr.base.src
    ensures Relabel(sw.id, p.hdr).labels == p.hdr.labels + [p.hdr.base.dst]
    ensures Relabel(sw.id, p.hdr).GetLabel() == p.hdr.base.dst
  {
  }

  /** A transit switch named by the top label pops it. */
  lemma LabelSwitchPops(sw: Switch, p: Packet)
    requires p.DataPacket? && sw.id != p.hdr.base.src && |p.hdr.labels| > 0 && sw.id == p.hdr.GetLabel()
    ensures Relabel(sw.id, p.hdr).labels + [sw.id] == p.hdr.labels
  {
  }

  /** Congestion with the label budget spent drops the packet. */
  lemma CongestedOverBudget(sw: Switch, nodeNum: nat, p: Packet)
    requires p.DataPacket? && Warmed(sw, nodeNum) && sw.id != p.hdr.base.dst && CanRelabel(sw.id, p.hdr)
    requires var top := Relabel(sw.id, p.hdr).GetLabel();
      top in sw.entryTable && |sw.entryTable[top]| > 0 &&
      (sw.id, sw.entryTable[top][0]) in sw.network && Congested(sw, sw.entryTable[top][0], p.size)
    requires Relabel(sw.id, p.hdr).usedLabels >= SubU32(sw.numOfLabel, 1)
    ensures DataRecv(sw, nodeNum, p) == Handled(sw, None)
  {
  }

  /** Congestion without a usable detour keeps the original next hop: the packet is not
      dropped for that reason. */
  lemma NoDetourKeepsNextHop(sw: Switch, nodeNum: nat, p: Packet)
    requires p.DataPacket? && Warmed(sw, nodeNum) && sw.id != p.hdr.base.dst && CanRelabel(sw.id, p.hdr)
    requires var h1, dst := Relabel(sw.id, p.hdr), p.hdr.base.dst;
      h1.GetLabel() in sw.entryTable && |sw.entryTable[h1.GetLabel()]| > 0 &&
      (sw.id, sw.entryTable[h1.GetLabel()][0]) in sw.network &&
      Congested(sw, sw.entryTable[h1.GetLabel()][0], p.size) &&
      h1.usedLabels < SubU32(sw.numOfLabel, 1) &&
      dst in sw.entryTable && |sw.entryTable[dst]| > 0 &&
      var scan := DetourScan(sw.network, sw.id, sw.entryTable[dst], h1.visits, p.size, 0);
      scan.NotFound? || (scan.Found? && scan.hop == sw.entryTable[dst][0])
    ensures var next, r := sw.entryTable[Relabel(sw.id, p.hdr).GetLabel()][0], DataRecv(sw, nodeNum, p);
      r.Handled? && (r.fwd.Some? <==> !p.hdr.Visited(next)) &&
      (r.fwd.Some? ==> r.fwd.value.hdr.base.nex == next && r.fwd.value.hdr.labels == Relabel(sw.id, p.hdr).labels)
  {
  }

  /** Congestion with budget left and a qualifying detour other than the first entry towards
      the destination sends the packet to the detour, pushed as a label on top of the stack
      after the label step, unless the detour was already visited. */
  lemma DetourTaken(sw: Switch, nodeNum: nat, p: Packet)
    requires p.DataPacket? && Warmed(sw, nodeNum) && sw.id != p.hdr.base.dst && CanRelabel(sw.id, p.hdr)
    requires var h1, dst := Relabel(sw.id, p.hdr), p.hdr.base.dst;
      h1.GetLabel() in sw.entryTable && |sw.entryTable[h1.GetLabel()]| > 0 &&
      (sw.id, sw.entryTable[h1.GetLabel()][0]) in sw.network &&
      Congested(sw, sw.entryTable[h1.GetLabel()][0], p.size) &&
      h1.usedLabels < SubU32(sw.numOfLabel, 1) &&
      dst in sw.entryTable && |sw.entryTable[dst]| > 0 &&
      var scan := DetourScan(sw.network, sw.id, sw.entryTable[dst], h1.visits, p.size, 0);
      scan.Found? && scan.hop != sw.entryTable[dst][0]
    ensures var hop := DetourScan(sw.network, sw.id, sw.entryTable[p.hdr.base.dst],
                                  Relabel(sw.id, p.hdr).visits, p.size, 0).hop;
      var r := DataRecv(sw, nodeNum, p);
      r.Handled? && r.sw == sw && r.fwd.Some? && !p.hdr.Visited(hop) &&
      r.fwd.value.hdr.base.nex == hop &&
      r.fwd.value.hdr.labels == Relabel(sw.id, p.hdr).labels + [hop]
  {
  }

  /** A detour pushes one label and, with a label budget of at least one, stays within it:
      the cost counter after the push is at most num_of_label. */
  lemma DetourWithinBudget(sw: Switch, nodeNum: nat, p: Packet)
    requires p.DataPacket? && sw.numOfLabel >= 1
    requires var r := DataRecv(sw, nodeNum, p);
      r.Handled? && r.fwd.Some? && r.fwd.value.hdr.labels != Relabel(sw.id, p.hdr).labels
    ensures DataRecv(sw, nodeNum, p).fwd.value.hdr.usedLabels <= sw.numOfLabel
  {
  }
}
