/** The simulator's global state as one object: the node table (id_node_table), the link
    table (id_id_link_table), the packet-id counter, the clock, the end time and the event
    queue. Every method is proved to change the state as the functions of module Scheduler
    say, and to keep the simulator's invariant. */
module Simulator {
  import opened Wrappers
  import opened SimBase
  import opened Packets
  import opened Links
  import opened EventQueue
  import opened Routing
  import opened Transmit
  import opened Scheduler
  import opened Switches

  /** Once the fan-out has crashed, the remaining neighbours change nothing. */
  lemma {:induction false} CrashSticky(links: map<LinkKey, Link>, self: NodeId, nbs: seq<NodeId>, j: nat, p: Packet, now: Uint)
    requires j <= |nbs| && SendFrom(links, self, nbs[..j], p, now).crashed
    ensures SendFrom(links, self, nbs, p, now) == SendFrom(links, self, nbs[..j], p, now)
    decreases |nbs| - j
  {
    if j < |nbs| {
      assert nbs[..j + 1][..j] == nbs[..j];
      CrashSticky(links, self, nbs, j + 1, p, now);
    } else {
      assert nbs[..j] == nbs;
    }
  }

  /** Pushing one more event after a batch is pushing the longer batch. */
  lemma {:induction false} InsertAllSnoc(hash: string -> Uint, q: seq<Event>, es: seq<Event>, e: Event)
    ensures InsertAll(hash, q, es + [e]) == Insert(hash, InsertAll(hash, q, es), e)
  {
    assert (es + [e])[..|es|] == es;
  }

  /** One more neighbour of the fan-out. */
  lemma {:induction false} SendStep(links: map<LinkKey, Link>, self: NodeId, nbs: seq<NodeId>, i: nat, p: Packet, now: Uint)
    requires i < |nbs|
    ensures SendFrom(links, self, nbs[..i + 1], p, now) ==
      var prev := SendFrom(links, self, nbs[..i], p, now);
      var nb := nbs[i];
      if prev.crashed || !Addressed(nb, p.Hdr().nex) then prev
      else if (self, nb) !in prev.links then prev.(crashed := true)
      else if !CanTransmit(prev.links[(self, nb)], SizeArg(p)) then prev
      else FanOut(prev.links[(self, nb) := Reserve(prev.links[(self, nb)], SizeArg(p))],
                  prev.arrivals + [Event(AddU32(now, prev.links[(self, nb)].latency), RecvEv(self, nb, p))],
                  false)
  {
    assert nbs[..i + 1][..i] == nbs[..i];
  }

  // The node-table operations keep the simulator's invariant.

  /** A fresh switch keeps the invariant. */
  lemma InvNewNode(hash: string -> Uint, w: World, nid: NodeId)
    requires WorldInv(hash, w)
    ensures WorldInv(hash, w.(nodes := w.nodes[nid := NewSwitch(nid)]))
  {
    assert SwitchInv(NewSwitch(nid)) && Consistent(NewSwitch(nid));
  }

  /** Removing a node keeps the invariant. */
  lemma InvDelNode(hash: string -> Uint, w: World, nid: NodeId)
    requires WorldInv(hash, w)
    ensures WorldInv(hash, w.(nodes := w.nodes - {nid}))
  {
  }

  /** Changing a switch's label budget keeps the invariant. */
  lemma InvSetLabels(hash: string -> Uint, w: World, nid: NodeId, n: Uint)
    requires WorldInv(hash, w) && nid in w.nodes
    ensures WorldInv(hash, w.(nodes := w.nodes[nid := w.nodes[nid].(numOfLabel := n)]))
  {
  }

  /** Adding a neighbour other than the node itself keeps the invariant. */
  lemma {:induction false} InvAddNeighbor(hash: string -> Uint, w: World, self: NodeId, other: NodeId)
    requires WorldInv(hash, w) && self in w.nodes && other != self && other !in w.nodes[self].neighbors
    ensures WorldInv(hash, w.(nodes := w.nodes[self := w.nodes[self].(neighbors := InsertSorted(w.nodes[self].neighbors, other))]))
  {
    var sw := w.nodes[self];
    var sw1 := sw.(neighbors := InsertSorted(sw.neighbors, other));
    assert SwitchInv(sw1) && Consistent(sw1);
  }

  /** Removing a neighbour keeps the invariant. */
  lemma {:induction false} InvDelNeighbor(hash: string -> Uint, w: World, self: NodeId, other: NodeId)
    requires WorldInv(hash, w) && self in w.nodes
    ensures WorldInv(hash, w.(nodes := w.nodes[self := w.nodes[self].(neighbors := Remove(w.nodes[self].neighbors, other))]))
  {
    var sw := w.nodes[self];
    var sw1 := sw.(neighbors := Remove(sw.neighbors, other));
    assert SwitchInv(sw1) && Consistent(sw1);
  }

  /** A new simple link starts with nothing occupied, within its capacity. */
  lemma InvNewLink(hash: string -> Uint, w: World, from: NodeId, to: NodeId, args: LinkArgs)
    requires WorldInv(hash, w)
    ensures WorldInv(hash, w.(links := w.links[(from, to) := NewSimpleLink(from, to, args)]))
  {
    assert WithinCapacity(NewSimpleLink(from, to, args));
  }

  /** Scheduling a generation event keeps the invariant. */
  lemma {:induction false} InvSchedule(hash: string -> Uint, w: World, e: Event)
    requires WorldInv(hash, w) && (e.kind.CtrlGen? || e.kind.DataGen?)
    ensures WorldInv(hash, w.(events := Insert(hash, w.events, e)))
  {
    InsertOk(hash, w.events, e);
  }

  /** What link::del_link does to a link table: only (0, 0) is looked up, so a link with
      other ends survives its own deletion. */
  lemma DelLinkMissesTarget(links: map<LinkKey, Link>, id1: NodeId, id2: NodeId)
    requires (id1, id2) in links && (id1, id2) != (0, 0)
    ensures (id1, id2) in links - {(0, 0)}
    ensures links - {(0, 0)} != links - {(id1, id2)}
  {
    assert (id1, id2) !in links - {(id1, id2)};
  }

  class Simulation {
    /** std::hash<string>, the tie-break of mycomp. */
    const hash: string -> Uint
    var nodes: map<NodeId, TraSwitch>
    /** The tables of the switch objects, by id. */
    ghost var tables: map<NodeId, Switch>
    var links: map<LinkKey, Link>
    var lastPacketId: Uint
    var curTime: Uint
    var endTime: Uint
    var events: seq<Event>

    /** The whole state as a value. */
    ghost function State(): World
      reads this
    {
      World(tables, links, lastPacketId, curTime, endTime, events)
    }

    /** No switch object is registered under two ids, and `tables` holds their tables. */
    ghost predicate Valid()
      reads this`nodes, this`tables, nodes.Values
    {
      (forall a, b :: a in nodes && b in nodes && a != b ==> nodes[a] != nodes[b]) &&
      nodes.Keys == tables.Keys &&
      forall id :: id in nodes ==> nodes[id].Tables() == tables[id]
    }

    /** The empty simulator: no nodes, no links, packet ids and the clock at 0. */
    constructor(h: string -> Uint)
      ensures hash == h && Valid()
      ensures State() == World(map[], map[], 0, 0, 0, [])
    {
      hash := h;
      nodes := map[];
      tables := map[];
      links := map[];
      lastPacketId := 0;
      curTime := 0;
      endTime := 0;
      events := [];
    }

    /** node_generator::generate: refuses an existing id, BROCAST_ID and an unknown node
        type, and otherwise registers a fresh TRA_switch. */
    method GenerateNode(nodeType: string, nid: NodeId) returns (created: bool)
      requires Valid()
      modifies this`nodes, this`tables
      ensures Valid()
      ensures created <==> nid !in old(nodes) && nid != BROADCAST_ID && nodeType == "TRA_switch"
      ensures State() == if created then old(State()).(nodes := old(tables)[nid := NewSwitch(nid)])
                         else old(State())
    {
      if nid in nodes || nid == BROADCAST_ID || nodeType != "TRA_switch" {
        return false;
      }
      var sw := new TraSwitch(nid);
      nodes := nodes[nid := sw];
      tables := tables[nid := sw.Tables()];
      return true;
    }

    /** node::del_node: unregisters the id if present. */
    method DelNode(nid: NodeId)
      requires Valid()
      modifies this`nodes, this`tables
      ensures Valid()
      ensures State() == old(State()).(nodes := old(tables) - {nid})
    {
      nodes := nodes - {nid};
      tables := tables - {nid};
    }

    /** node::setNumOfLabel. */
    method SetNumOfLabel(nid: NodeId, n: Uint)
      requires Valid() && nid in nodes
      modifies this`tables, nodes[nid]
      ensures Valid()
      ensures State() == old(State()).(nodes := old(tables)[nid := old(tables)[nid].(numOfLabel := n)])
    {
      var sw := nodes[nid];
      sw.SetNumOfLabel(n);
      tables := tables[nid := sw.Tables()];
      forall id | id in nodes && id != nid
        ensures nodes[id].Tables() == tables[id]
      {
        assert nodes[id] != sw && unchanged(nodes[id]);
      }
    }

    /** link_generator::generate: refuses an existing (from, to) pair, a BROCAST_ID endpoint
        and an unknown link type, and otherwise registers a fresh simple link. */
    method GenerateLink(linkType: string, from: NodeId, to: NodeId, args: LinkArgs) returns (created: bool)
      modifies this`links
      ensures created <==> (from, to) !in old(links) && from != BROADCAST_ID && to != BROADCAST_ID &&
                           linkType == "simple_link"
      ensures State() == if created then old(State()).(links := old(links)[(from, to) := NewSimpleLink(from, to, args)])
                         else old(State())
    {
      if (from, to) in links || from == BROADCAST_ID || to == BROADCAST_ID || linkType != "simple_link" {
        return false;
      }
      links := links[(from, to) := NewSimpleLink(from, to, args)];
      return true;
    }

    /** node::add_phy_neighbor on node `self`: ignores itself, an unknown node and an existing
        neighbour; otherwise adds the neighbour and generates the directed link (which may
        itself be refused). The neighbour list is kept sorted, as a std::set keeps it. */
    method AddPhyNeighbor(self: NodeId, other: NodeId, linkType: string, args: LinkArgs)
      requires Valid() && self in nodes && StrictlyAscending(tables[self].neighbors)
      modifies this`tables, this`links, nodes[self]
      ensures Valid()
      ensures var s := old(State());
        if self == other || other !in s.nodes || other in s.nodes[self].neighbors then State() == s
        else
          State() == s.(nodes := s.nodes[self := s.nodes[self].(neighbors := InsertSorted(s.nodes[self].neighbors, other))],
                        links := if (self, other) in s.links || self == BROADCAST_ID || other == BROADCAST_ID || linkType != "simple_link" then s.links
                                 else s.links[(self, other) := NewSimpleLink(self, other, args)])
    {
      if self == other || other !in nodes {
        return;
      }
      var sw := nodes[self];
      if other in sw.neighbors {
        return;
      }
      ghost var s0 := State();
      LinkNeighbor(self, other);
      ghost var s1 := State();
      var _ := GenerateLink(linkType, self, other, args);
      assert State() == s1.(links := links);
      assert links == if (self, other) in s0.links || self == BROADCAST_ID || other == BROADCAST_ID || linkType != "simple_link" then s0.links
                      else s0.links[(self, other) := NewSimpleLink(self, other, args)];
    }

    /** The neighbour half of node::add_phy_neighbor: `other` joins the neighbours of `self`. */
    method LinkNeighbor(self: NodeId, other: NodeId)
      requires Valid() && self in nodes && StrictlyAscending(tables[self].neighbors)
      requires other !in tables[self].neighbors
      modifies this`tables, nodes[self]
      ensures Valid()
      ensures State() == old(State()).(nodes := old(tables)[self :=
        old(tables)[self].(neighbors := InsertSorted(old(tables)[self].neighbors, other))])
    {
      var sw := nodes[self];
      sw.AddNeighbor(other);
      tables := tables[self := sw.Tables()];
      forall id | id in nodes && id != self
        ensures nodes[id].Tables() == tables[id]
      {
        assert nodes[id] != sw && unchanged(nodes[id]);
      }
    }

    /** node::del_phy_neighbor on node `self`. */
    method DelPhyNeighbor(self: NodeId, other: NodeId)
      requires Valid() && self in nodes && StrictlyAscending(tables[self].neighbors)
      modifies this`tables, nodes[self]
      ensures Valid()
      ensures State() == old(State()).(nodes := old(tables)[self :=
        old(tables)[self].(neighbors := Remove(old(tables)[self].neighbors, other))])
    {
      var sw := nodes[self];
      sw.DelPhyNeighbor(other);
      tables := tables[self := sw.Tables()];
      forall id | id in nodes && id != self
        ensures nodes[id].Tables() == tables[id]
      {
        assert nodes[id] != sw && unchanged(nodes[id]);
      }
    }

    /** link::del_link: looks up a default-constructed pair, (0, 0), whatever it is given. */
    method DelLink(id1: NodeId, id2: NodeId)
      modifies this`links
      ensures State() == old(State()).(links := old(links) - {(0, 0)})
    {
      links := links - {(0, 0)};
    }

    /** link::del_link as its parameters say it should behave: the link (id1, id2) is erased
        if present, and every other link is kept. */
    method DelLinkByIds(id1: NodeId, id2: NodeId)
      modifies this`links
      ensures (id1, id2) !in links
      ensures forall k :: k != (id1, id2) ==> (k in links <==> k in old(links))
      ensures State() == old(State()).(links := old(links) - {(id1, id2)})
    {
      links := links - {(id1, id2)};
    }

    /** data_packet_event: schedules a data-generation event at t when src exists and dst
        exists or is BROCAST_ID. */
    method DataPacketEvent(src: NodeId, dst: NodeId, size: Uint, t: Uint, msg: string) returns (added: bool)
      requires Valid()
      modifies this`events
      ensures added <==> src in old(tables) && (dst == BROADCAST_ID || dst in old(tables))
      ensures State() == if added then old(State()).(events := Insert(hash, old(events), Event(t, DataGen(src, dst, size, msg))))
                         else old(State())
    {
      if src !in nodes || (dst != BROADCAST_ID && dst !in nodes) {
        return false;
      }
      events := Insert(hash, events, Event(t, DataGen(src, dst, size, msg)));
      return true;
    }

    /** TRA_ctrl_packet_event: schedules a control-generation event at t, broadcast and of
        size 0, when src exists. */
    method CtrlPacketEvent(src: NodeId, t: Uint, msg: string) returns (added: bool)
      requires Valid()
      modifies this`events
      ensures added <==> src in old(tables)
      ensures State() == if added then old(State()).(events := Insert(hash, old(events), Event(t, CtrlGen(src, BROADCAST_ID, 0, msg))))
                         else old(State())
    {
      if src !in nodes {
        return false;
      }
      events := Insert(hash, events, Event(t, CtrlGen(src, BROADCAST_ID, 0, msg)));
      return true;
    }

    /** event::get_next_event: pops the front of the queue. On a queue in pop order that is
        the event no pending event precedes under mycomp. */
    method GetNextEvent() returns (e: Option<Event>)
      modifies this`events
      ensures old(events) == [] ==> e == None && State() == old(State())
      ensures old(events) != [] ==> e == Some(old(events)[0]) && State() == old(State()).(events := old(events)[1..])
      ensures e.Some? && InPopOrder(hash, old(events)) ==> forall x :: x in old(events) ==> !MyComp(hash, e.value, x, false)
    {
      if events == [] {
        return None;
      }
      if InPopOrder(hash, events) {
        HeadIsTop(hash, events);
      }
      e := Some(events[0]);
      events := events[1..];
    }

    /** node::send from node `self`: the loop over its neighbours in ascending id. A missing
        link is a null-pointer dereference and stops the loop with `ok` false. */
    method Send(self: NodeId, p: Packet) returns (ok: bool)
      requires self in nodes
      modifies this`links, this`events
      ensures links == SendFrom(old(links), self, nodes[self].neighbors, p, curTime).links
      ensures events == InsertAll(hash, old(events), SendFrom(old(links), self, nodes[self].neighbors, p, curTime).arrivals)
      ensures ok == !SendFrom(old(links), self, nodes[self].neighbors, p, curTime).crashed
    {
      var nbs := nodes[self].neighbors;
      var nex := p.Hdr().nex;
      var ls, evs, now := links, events, curTime;
      var i := 0;
      assert nbs[..0] == [];
      ghost var fo := SendFrom(ls, self, nbs[..0], p, now);
      while i < |nbs|
        invariant 0 <= i <= |nbs|
        invariant fo == SendFrom(old(links), self, nbs[..i], p, now) && !fo.crashed
        invariant links == old(links) && events == old(events)
        invariant ls == fo.links && evs == InsertAll(hash, old(events), fo.arrivals)
      {
        var nb := nbs[i];
        SendStep(old(links), self, nbs, i, p, now);
        if nb != nex && BROADCAST_ID != nex {
          i := i + 1;
          continue;
        }
        if (self, nb) !in ls {
          CrashSticky(old(links), self, nbs, i + 1, p, now);
          links, events := ls, evs;
          return false;
        }
        var l := ls[(self, nb)];
        if !CanTransmit(l, SizeArg(p)) {
          i := i + 1;
          continue;
        }
        ls := ls[(self, nb) := Reserve(l, SizeArg(p))];
        var t := AddU32(now, l.latency);
        InsertAllSnoc(hash, old(events), fo.arrivals, Event(t, RecvEv(self, nb, p)));
        evs := Insert(hash, evs, Event(t, RecvEv(self, nb, p)));
        fo := FanOut(ls, fo.arrivals + [Event(t, RecvEv(self, nb, p))], false);
        i := i + 1;
      }
      assert nbs[..i] == nbs;
      links, events := ls, evs;
      return true;
    }

    /** node::send_handler: schedules a send event now, from preID to nexID, carrying a
        replica (the same packet value, with the same id). */
    method SendHandler(q: Packet)
      modifies this`events
      ensures events == Insert(hash, old(events), Event(curTime, SendEv(q.Hdr().pre, q.Hdr().nex, q)))
    {
      events := Insert(hash, events, Event(curTime, SendEv(q.Hdr().pre, q.Hdr().nex, q)));
    }

    /** TRA_ctrl_pkt_gen_event::trigger: a fresh control packet from src, advertising src,
        received by src itself at the event's time. The source is not looked up. */
    method TriggerCtrlGen(e: Event) returns (ok: bool)
      requires e.kind.CtrlGen? && Valid()
      modifies this`lastPacketId, this`events
      ensures Valid()
      ensures State() == Fire(hash, old(State()), e).w && ok == Fire(hash, old(State()), e).ok
    {
      assert Fire(hash, State(), e) == FireCtrlGen(hash, State(), e);
      var src := e.kind.src;
      var p := NewCtrlPacket(lastPacketId, src, e.kind.dst, e.kind.size, e.kind.msg);
      lastPacketId := AddU32(lastPacketId, 1);
      events := Insert(hash, events, Event(e.time, RecvEv(src, src, p)));
      return true;
    }

    /** TRA_data_pkt_gen_event::trigger: when src exists and dst exists or is BROCAST_ID, a
        fresh data packet received by src itself at the event's time. */
    method TriggerDataGen(e: Event) returns (ok: bool)
      requires e.kind.DataGen? && Valid()
      modifies this`lastPacketId, this`events
      ensures Valid()
      ensures State() == Fire(hash, old(State()), e).w && ok == Fire(hash, old(State()), e).ok
    {
      assert Fire(hash, State(), e) == FireDataGen(hash, State(), e);
      var src, dst := e.kind.src, e.kind.dst;
      if src !in nodes || (dst != BROADCAST_ID && dst !in nodes) {
        return true;
      }
      var p := NewDataPacket(lastPacketId, src, dst, e.kind.size, e.kind.msg);
      lastPacketId := AddU32(lastPacketId, 1);
      events := Insert(hash, events, Event(e.time, RecvEv(src, src, p)));
      return true;
    }

    /** send_event::trigger: the sender sends the packet, when it exists. */
    method TriggerSend(e: Event) returns (ok: bool)
      requires e.kind.SendEv? && Valid()
      modifies this`links, this`events
      ensures Valid()
      ensures State() == Fire(hash, old(State()), e).w && ok == Fire(hash, old(State()), e).ok
    {
      assert Fire(hash, State(), e) == FireSend(hash, State(), e);
      var s := e.kind.sender;
      if s !in nodes {
        return true;
      }
      ok := Send(s, e.kind.pkt);
    }

    /** The second half of recv_event::trigger, once the receiver's switch has handled
        the packet with outcome h: `tables` catches up with the switch, and a forwarded
        copy goes to send_handler. */
    method Install(r: NodeId, fwd: Option<Packet>, ghost h: Handled)
      requires r in nodes && nodes.Keys == tables.Keys
      requires forall a, b :: a in nodes && b in nodes && a != b ==> nodes[a] != nodes[b]
      requires forall id :: id in nodes && id != r ==> nodes[id].Tables() == tables[id]
      requires h.Handled? && nodes[r].Tables() == h.sw && fwd == h.fwd
      modifies this`tables, this`events
      ensures Valid()
      ensures State() == Deliver(hash, old(State()), r, h).w
    {
      tables := tables[r := nodes[r].Tables()];
      assert Valid();
      if fwd.Some? {
        SendHandler(fwd.value);
      }
    }

    /** recv_event::trigger: the receiver, when it exists, handles the packet. */
    method TriggerRecv(e: Event) returns (ok: bool)
      requires e.kind.RecvEv? && Valid()
      modifies this`tables, this`events, nodes.Values
      ensures Valid()
      ensures State() == Fire(hash, old(State()), e).w && ok == Fire(hash, old(State()), e).ok
    {
      var r, p := e.kind.receiver, e.kind.pkt;
      if r !in nodes {
        return true;
      }
      var sw := nodes[r];
      assert |nodes| == |nodes.Keys| == |tables.Keys| == |tables|;
      ghost var w0 := State();
      ghost var h := Receive(tables[r], links, |tables|, p);
      assert Fire(hash, w0, e) == Deliver(hash, w0, r, h);
      var fwd;
      fwd, ok := sw.RecvHandler(links, |nodes|, p, h);
      if !ok {
        return;
      }
      Install(r, fwd, h);
    }

    /** trigger() of an event already popped from the queue. */
    method Trigger(e: Event) returns (ok: bool)
      requires Valid()
      modifies this`lastPacketId, this`links, this`tables, this`events, nodes.Values
      ensures Valid()
      ensures State() == Fire(hash, old(State()), e).w && ok == Fire(hash, old(State()), e).ok
    {
      match e.kind
      case CtrlGen(_, _, _, _) => ok := TriggerCtrlGen(e);
      case DataGen(_, _, _, _) => ok := TriggerDataGen(e);
      case SendEv(_, _, _) => ok := TriggerSend(e);
      case RecvEv(_, _, _) => ok := TriggerRecv(e);
    }

    /** One round of start_simulate's loop: pops the next event and triggers it, unless
        the queue is empty, the event is later than the end time or earlier than the clock,
        or the trigger crashes; `stop` says which. */
    method Step(ghost f: nat) returns (stop: Option<Stop>)
      requires Valid() && f > 0
      modifies this`lastPacketId, this`links, this`tables, this`events, this`curTime, nodes.Values
      ensures Valid()
      ensures Run(hash, old(State()), f) == if stop.Some? then Outcome(State(), stop.value) else Run(hash, State(), f - 1)
    {
      var e := GetNextEvent();
      if e.None? {
        return Some(Drained);
      }
      var ev := e.value;
      if ev.time > endTime {
        return Some(PastEnd);
      }
      if curTime > ev.time {
        return Some(TimeWentBack);
      }
      curTime := ev.time;
      ghost var w1 := State();
      assert Run(hash, old(State()), f) == var r := Fire(hash, w1, ev); if r.ok then Run(hash, r.w, f - 1) else Outcome(r.w, Fault);
      var ok := Trigger(ev);
      return if ok then None else Some(Fault);
    }

    /** The end-time assignment that opens start_simulate. */
    method SetEndTime(endT: Uint)
      requires Valid()
      modifies this`endTime
      ensures Valid() && State() == old(State()).(endTime := endT)
    {
      endTime := endT;
    }

    /** event::start_simulate with a bound of `fuel` rounds: sets the end time, then pops
        and triggers events in queue order until the queue is empty, the next event is later
        than the end time or earlier than the clock, or a trigger crashes. */
    method StartSimulate(endT: Uint, fuel: nat) returns (stop: Stop)
      requires Valid()
      modifies this`lastPacketId, this`links, this`tables, this`events, this`curTime, this`endTime, nodes.Values
      ensures Valid()
      ensures Outcome(State(), stop) == Run(hash, old(State()).(endTime := endT), fuel)
    {
      SetEndTime(endT);
      ghost var goal := Run(hash, State(), fuel);
      var f := fuel;
      while f > 0
        invariant Valid() && goal == Run(hash, State(), f)
      {
        ghost var w0 := State();
        var s := Step(f);
        assert Run(hash, w0, f) == if s.Some? then Outcome(State(), s.value) else Run(hash, State(), f - 1);
        if s.Some? {
          return s.value;
        }
        f := f - 1;
      }
      return OutOfFuel;
    }
  }
}
