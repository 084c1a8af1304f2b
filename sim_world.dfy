/** The whole simulator as a value: the node table, the link table, the packet-id counter,
    the clock, the end time and the event queue; what one event's trigger() does to it,
    and the run loop of start_simulate. The class Simulator.Simulation is proved to follow
    these functions step by step. */
module Scheduler {
  import opened Wrappers
  import opened SimBase
  import opened Packets
  import opened Links
  import opened EventQueue
  import opened Routing
  import opened Transmit

  datatype World = World(
    nodes: map<NodeId, Switch>,
    links: map<LinkKey, Link>,
    lastPacketId: Uint,
    curTime: Uint,
    endTime: Uint,
    events: seq<Event>)

  /** The world after a trigger, and false when the trigger crashed the program. */
  datatype Fired = Fired(w: World, ok: bool)

  /** Why start_simulate returned: no events left, the next event is later than the end
      time, the next event is earlier than the clock, a crash, or the step bound ran out. */
  datatype Stop = Drained | PastEnd | TimeWentBack | Fault | OutOfFuel

  datatype Outcome = Outcome(w: World, stop: Stop)

  /** A fresh control packet from TRA_ctrl_pkt_gen_event::trigger: the advertiser is the
      source, the network information is empty. */
  function NewCtrlPacket(id: Uint, src: NodeId, dst: NodeId, size: Uint, msg: string): Packet
  {
    CtrlPacket(id, size, Header(src, dst, src, src), CtrlPayload(src, map[], msg))
  }

  /** A fresh data packet from TRA_data_pkt_gen_event::trigger: no labels, nothing visited. */
  function NewDataPacket(id: Uint, src: NodeId, dst: NodeId, size: Uint, msg: string): Packet
  {
    DataPacket(id, size, DataHeader(Header(src, dst, src, src), [], 0, {}), msg)
  }

  /** TRA_ctrl_pkt_gen_event::trigger: a fresh control packet, received by its source at
      the event's time; the source is not looked up. */
  function FireCtrlGen(hash: string -> Uint, w: World, e: Event): Fired
    requires e.kind.CtrlGen?
  {
    var src := e.kind.src;
    var p := NewCtrlPacket(w.lastPacketId, src, e.kind.dst, e.kind.size, e.kind.msg);
    Fired(w.(lastPacketId := AddU32(w.lastPacketId, 1),
             events := Insert(hash, w.events, Event(e.time, RecvEv(src, src, p)))), true)
  }

  /** TRA_data_pkt_gen_event::trigger: nothing unless the source exists and the destination
      exists or is BROCAST_ID; otherwise a fresh data packet received by its source. */
  function FireDataGen(hash: string -> Uint, w: World, e: Event): Fired
    requires e.kind.DataGen?
  {
    var src, dst := e.kind.src, e.kind.dst;
    if src !in w.nodes || (dst != BROADCAST_ID && dst !in w.nodes) then Fired(w, true)
    else
      var p := NewDataPacket(w.lastPacketId, src, dst, e.kind.size, e.kind.msg);
      Fired(w.(lastPacketId := AddU32(w.lastPacketId, 1),
               events := Insert(hash, w.events, Event(e.time, RecvEv(src, src, p)))), true)
  }

  /** send_event::trigger: the fan-out from the sender, when it exists. */
  function FireSend(hash: string -> Uint, w: World, e: Event): Fired
    requires e.kind.SendEv?
  {
    var s := e.kind.sender;
    if s !in w.nodes then Fired(w, true)
    else
      var f := SendFrom(w.links, s, w.nodes[s].neighbors, e.kind.pkt, w.curTime);
      Fired(w.(links := f.links, events := InsertAll(hash, w.events, f.arrivals)), !f.crashed)
  }

  /** The receiver r's handling outcome h applied to the world: a crash stops the run, a
      handled packet installs the switch's new tables, and a forwarded copy becomes a send
      event now, from preID to nexID. */
  function Deliver(hash: string -> Uint, w: World, r: NodeId, h: Handled): Fired
  {
    match h
    case Crashed => Fired(w, false)
    case Handled(sw, None) => Fired(w.(nodes := w.nodes[r := sw]), true)
    case Handled(sw, Some(q)) =>
      Fired(w.(nodes := w.nodes[r := sw],
               events := Insert(hash, w.events, Event(w.curTime, SendEv(q.Hdr().pre, q.Hdr().nex, q)))), true)
  }

  /** recv_event::trigger: the receiver's recv_handler, when it exists. */
  function FireRecv(hash: string -> Uint, w: World, e: Event): Fired
    requires e.kind.RecvEv?
  {
    var r := e.kind.receiver;
    if r !in w.nodes then Fired(w, true)
    else Deliver(hash, w, r, Receive(w.nodes[r], w.links, |w.nodes|, e.kind.pkt))
  }

  /** The trigger() of an event already popped from the queue. */
  function Fire(hash: string -> Uint, w: World, e: Event): Fired
  {
    match e.kind
    case CtrlGen(_, _, _, _) => FireCtrlGen(hash, w, e)
    case DataGen(_, _, _, _) => FireDataGen(hash, w, e)
    case SendEv(_, _, _) => FireSend(hash, w, e)
    case RecvEv(_, _, _) => FireRecv(hash, w, e)
  }

  /** The run loop of start_simulate, bounded by `fuel` triggers. The event that stops the
      loop is popped and not triggered. */
  function Run(hash: string -> Uint, w: World, fuel: nat): Outcome
    decreases fuel
  {
    if fuel == 0 then Outcome(w, OutOfFuel)
    else if w.events == [] then Outcome(w, Drained)
    else
      var e := w.events[0];
      var w1 := w.(events := w.events[1..]);
      if e.time > w.endTime then Outcome(w1, PastEnd)
      else if w.curTime > e.time then Outcome(w1, TimeWentBack)
      else
        var f := Fire(hash, w1.(curTime := e.time), e);
        if !f.ok then Outcome(f.w, Fault) else Run(hash, f.w, fuel - 1)
  }

  // ------------------------------------------------------------------ invariant

  /** A control packet names its source as the advertiser. */
  predicate PacketOk(p: Packet)
  {
    p.CtrlPacket? ==> p.payload.nid == p.ctrlHdr.src
  }

  predicate EventOk(e: Event)
  {
    match e.kind
    case SendEv(_, _, p) => PacketOk(p)
    case RecvEv(_, _, p) => PacketOk(p)
    case _ => true
  }

  /** The simulator's invariant: the queue is in pop order and holds well-formed packets,
      no link is over capacity, and every switch is stored under its id with consistent
      tables. */
  ghost predicate WorldInv(hash: string -> Uint, w: World)
  {
    InPopOrder(hash, w.events) &&
    (forall i :: 0 <= i < |w.events| ==> EventOk(w.events[i])) &&
    AllWithinCapacity(w.links) &&
    forall id :: id in w.nodes ==>
      w.nodes[id].id == id && SwitchInv(w.nodes[id]) && Consistent(w.nodes[id])
  }

  /** Inserting well-formed events keeps the queue in order and well-formed. */
  lemma {:induction false} InsertAllOk(hash: string -> Uint, q: seq<Event>, es: seq<Event>)
    requires InPopOrder(hash, q) && (forall i :: 0 <= i < |q| ==> EventOk(q[i]))
    requires forall i :: 0 <= i < |es| ==> EventOk(es[i])
    ensures InPopOrder(hash, InsertAll(hash, q, es))
    ensures forall i :: 0 <= i < |InsertAll(hash, q, es)| ==> EventOk(InsertAll(hash, q, es)[i])
  {
    InsertAllKeepsOrder(hash, q, es);
    var r := InsertAll(hash, q, es);
    forall i | 0 <= i < |r| ensures EventOk(r[i]) {
      assert r[i] in multiset(r);
      if r[i] in multiset(q) {
        var k :| 0 <= k < |q| && q[k] == r[i];
      } else {
        assert r[i] in multiset(es);
        var k :| 0 <= k < |es| && es[k] == r[i];
      }
    }
  }

  /** Inserting one well-formed event keeps the queue in order and well-formed. */
  lemma {:induction false} InsertOk(hash: string -> Uint, q: seq<Event>, e: Event)
    requires InPopOrder(hash, q) && (forall i :: 0 <= i < |q| ==> EventOk(q[i])) && EventOk(e)
    ensures InPopOrder(hash, Insert(hash, q, e))
    ensures forall i :: 0 <= i < |Insert(hash, q, e)| ==> EventOk(Insert(hash, q, e)[i])
  {
    InsertKeepsOrder(hash, q, e);
    var r := Insert(hash, q, e);
    forall i | 0 <= i < |r| ensures EventOk(r[i]) {
      assert r[i] in multiset(r);
      if r[i] != e {
        assert r[i] in multiset(q);
        var k :| 0 <= k < |q| && q[k] == r[i];
      }
    }
  }

  /** A send event keeps the invariant. */
  lemma FireSendKeepsInv(hash: string -> Uint, w: World, e: Event)
    requires WorldInv(hash, w) && EventOk(e) && e.kind.SendEv?
    ensures WorldInv(hash, Fire(hash, w, e).w)
  {
    var s, p := e.kind.sender, e.kind.pkt;
    if s in w.nodes {
      var f := SendFrom(w.links, s, w.nodes[s].neighbors, p, w.curTime);
      SendFromCapacity(w.links, s, w.nodes[s].neighbors, p, w.curTime);
      SendFromArrivals(w.links, s, w.nodes[s].neighbors, p, w.curTime);
      forall i | 0 <= i < |f.arrivals| ensures EventOk(f.arrivals[i]) {
        assert f.arrivals[i] in f.arrivals;
      }
      InsertAllOk(hash, w.events, f.arrivals);
    }
  }

  /** Installing well-formed tables for a switch and scheduling a well-formed forwarded
      copy keeps the invariant. */
  lemma DeliverKeepsInv(hash: string -> Uint, w: World, r: NodeId, h: Handled)
    requires WorldInv(hash, w) && r in w.nodes
    requires h.Handled? ==> h.sw.id == r && SwitchInv(h.sw) && Consistent(h.sw)
    requires h.Handled? && h.fwd.Some? ==> PacketOk(h.fwd.value)
    ensures WorldInv(hash, Deliver(hash, w, r, h).w)
  {
    if h.Handled? && h.fwd.Some? {
      var q := h.fwd.value;
      InsertOk(hash, w.events, Event(w.curTime, SendEv(q.Hdr().pre, q.Hdr().nex, q)));
    }
  }

  /** A receive event keeps the invariant; a control packet never crashes a switch. */
  lemma FireRecvKeepsInv(hash: string -> Uint, w: World, e: Event)
    requires WorldInv(hash, w) && EventOk(e) && e.kind.RecvEv?
    ensures WorldInv(hash, Fire(hash, w, e).w)
    ensures e.kind.pkt.CtrlPacket? ==> Fire(hash, w, e).ok
  {
    var r, p := e.kind.receiver, e.kind.pkt;
    if r in w.nodes {
      var sw := w.nodes[r];
      var h := Receive(sw, w.links, |w.nodes|, p);
      if p.CtrlPacket? {
        CtrlRecvKeepsInv(sw, w.links, p);
        FloodIffNew(sw, w.links, p);
      } else {
        DataForwarded(sw, |w.nodes|, p);
      }
      assert h.Handled? && h.fwd.Some? ==> PacketOk(h.fwd.value);
      DeliverKeepsInv(hash, w, r, h);
    }
  }

  /** One trigger keeps the invariant; control packets never crash a switch. */
  lemma FireKeepsInv(hash: string -> Uint, w: World, e: Event)
    requires WorldInv(hash, w) && EventOk(e)
    ensures WorldInv(hash, Fire(hash, w, e).w)
    ensures e.kind.RecvEv? && e.kind.pkt.CtrlPacket? ==> Fire(hash, w, e).ok
  {
    match e.kind
    case CtrlGen(src, dst, size, msg) =>
      InsertOk(hash, w.events, Event(e.time, RecvEv(src, src, NewCtrlPacket(w.lastPacketId, src, dst, size, msg))));
    case DataGen(src, dst, size, msg) =>
      InsertOk(hash, w.events, Event(e.time, RecvEv(src, src, NewDataPacket(w.lastPacketId, src, dst, size, msg))));
    case SendEv(_, _, _) => FireSendKeepsInv(hash, w, e);
    case RecvEv(_, _, _) => FireRecvKeepsInv(hash, w, e);
  }

  /** The run loop keeps the invariant, never moves the clock back, never frees link
      bandwidth, and never removes a link. */
  lemma {:induction false} RunKeepsInv(hash: string -> Uint, w: World, fuel: nat)
    requires WorldInv(hash, w)
    ensures var o := Run(hash, w, fuel);
      WorldInv(hash, o.w) && o.w.curTime >= w.curTime && o.w.endTime == w.endTime &&
      o.w.links.Keys == w.links.Keys &&
      forall k :: k in w.links ==> o.w.links[k].occupied >= w.links[k].occupied
    decreases fuel
  {
    if fuel > 0 && w.events != [] {
      var e := w.events[0];
      var w1 := w.(events := w.events[1..]);
      PopKeepsOrder(hash, w.events);
      assert EventOk(e);
      assert WorldInv(hash, w1) by {
        assert forall i :: 0 <= i < |w1.events| ==> w1.events[i] == w.events[i + 1];
      }
      if e.time <= w.endTime && w.curTime <= e.time {
        var w2 := w1.(curTime := e.time);
        FireKeepsInv(hash, w2, e);
        FireLinks(hash, w2, e);
        var f := Fire(hash, w2, e);
        if f.ok {
          RunKeepsInv(hash, f.w, fuel - 1);
        }
      }
    }
  }

  /** A trigger keeps the clock, the end time and the set of links, and never frees link
      bandwidth. */
  lemma FireLinks(hash: string -> Uint, w: World, e: Event)
    ensures var f := Fire(hash, w, e);
      f.w.curTime == w.curTime && f.w.endTime == w.endTime && f.w.links.Keys == w.links.Keys &&
      forall k :: k in w.links ==> f.w.links[k].occupied >= w.links[k].occupied
  {
    if e.kind.SendEv? && e.kind.sender in w.nodes {
      SendFromFrame(w.links, e.kind.sender, w.nodes[e.kind.sender].neighbors, e.kind.pkt, w.curTime);
    }
  }

  /** Every event the loop triggers is one that no pending event precedes under mycomp,
      and the clock is set to its time. */
  lemma RunPopsTop(hash: string -> Uint, w: World, fuel: nat)
    requires WorldInv(hash, w) && fuel > 0 && w.events != []
    requires w.events[0].time <= w.endTime && w.curTime <= w.events[0].time
    ensures forall x :: x in w.events ==> !MyComp(hash, w.events[0], x, false)
    ensures Run(hash, w, fuel) ==
      var f := Fire(hash, w.(events := w.events[1..], curTime := w.events[0].time), w.events[0]);
      if !f.ok then Outcome(f.w, Fault) else Run(hash, f.w, fuel - 1)
  {
    HeadIsTop(hash, w.events);
  }
}
