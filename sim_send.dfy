/** node::send: the fan-out of a packet from a node over its links, in ascending
    neighbour order. Each neighbour addressed by nexID (or every neighbour, when nexID is
    BROCAST_ID) whose link admits the packet gets the bandwidth reserved and a receive
    event at now + latency (unsigned). A missing link is dereferenced as a null pointer:
    the fan-out stops there with `crashed` set. */
module Transmit {
  import opened SimBase
  import opened Packets
  import opened Links
  import opened EventQueue
  import opened Routing

  /** The link table after the fan-out, the receive events it created (in creation order),
      and whether it stopped on a missing link. */
  datatype FanOut = FanOut(links: map<LinkKey, Link>, arrivals: seq<Event>, crashed: bool)

  /** Whether a neighbour receives a packet addressed to nex. */
  predicate Addressed(nb: NodeId, nex: NodeId)
  {
    nb == nex || nex == BROADCAST_ID
  }

  /** The `{{"pkt_size", size}}` argument of canTransmit and reserve. */
  function SizeArg(p: Packet): LinkArgs
  {
    map["pkt_size" := p.size]
  }

  /** node::send over the neighbours nbs, at time now. */
  function SendFrom(links: map<LinkKey, Link>, self: NodeId, nbs: seq<NodeId>, p: Packet, now: Uint): (r: FanOut)
    ensures |r.arrivals| <= |nbs|
  {
    if nbs == [] then FanOut(links, [], false)
    else
      var prev := SendFrom(links, self, nbs[..|nbs| - 1], p, now);
      var nb := nbs[|nbs| - 1];
      if prev.crashed || !Addressed(nb, p.Hdr().nex) then prev
      else if (self, nb) !in prev.links then prev.(crashed := true)
      else
        var l := prev.links[(self, nb)];
        if !CanTransmit(l, SizeArg(p)) then prev
        else FanOut(prev.links[(self, nb) := Reserve(l, SizeArg(p))],
                    prev.arrivals + [Event(AddU32(now, l.latency), RecvEv(self, nb, p))],
                    false)
  }

  /** The receiving node of a send or receive event. */
  function Receiver(e: Event): NodeId
  {
    if e.kind.SendEv? || e.kind.RecvEv? then e.kind.receiver else BROADCAST_ID
  }

  /** Every link is within its capacity. */
  ghost predicate AllWithinCapacity(links: map<LinkKey, Link>)
  {
    forall k :: k in links ==> WithinCapacity(links[k])
  }

  /** The fan-out keeps the set of links, only ever adds to the occupied bandwidth of a
      link, changes nothing else about it, and changes only links from `self` to addressed
      neighbours. */
  lemma {:induction false} SendFromFrame(links: map<LinkKey, Link>, self: NodeId, nbs: seq<NodeId>, p: Packet, now: Uint)
    ensures SendFrom(links, self, nbs, p, now).links.Keys == links.Keys
    ensures forall k :: k in links ==>
      SendFrom(links, self, nbs, p, now).links[k].occupied >= links[k].occupied &&
      SendFrom(links, self, nbs, p, now).links[k] ==
        links[k].(occupied := SendFrom(links, self, nbs, p, now).links[k].occupied) &&
      (SendFrom(links, self, nbs, p, now).links[k] != links[k] ==>
         k.0 == self && k.1 in nbs && Addressed(k.1, p.Hdr().nex))
  {
    if nbs != [] {
      var init := nbs[..|nbs| - 1];
      SendFromFrame(links, self, init, p, now);
      var prev := SendFrom(links, self, init, p, now);
      var r := SendFrom(links, self, nbs, p, now);
      forall k | k in links && r.links[k] != links[k]
        ensures k.0 == self && k.1 in nbs && Addressed(k.1, p.Hdr().nex)
      {
        if prev.links[k] != links[k] {
          assert k.1 in init;
        }
      }
    }
  }

  /** The fan-out never takes a link over its capacity. */
  lemma {:induction false} SendFromCapacity(links: map<LinkKey, Link>, self: NodeId, nbs: seq<NodeId>, p: Packet, now: Uint)
    requires AllWithinCapacity(links)
    ensures AllWithinCapacity(SendFrom(links, self, nbs, p, now).links)
  {
    if nbs != [] {
      var init := nbs[..|nbs| - 1];
      SendFromCapacity(links, self, init, p, now);
      var prev := SendFrom(links, self, init, p, now);
      var nb := nbs[|nbs| - 1];
      if !prev.crashed && Addressed(nb, p.Hdr().nex) && (self, nb) in prev.links
         && CanTransmit(prev.links[(self, nb)], SizeArg(p)) {
        ReserveAdmitted(prev.links[(self, nb)], p.size);
      }
    }
  }

  /** Every receive event of the fan-out carries the packet unchanged, from `self` to an
      addressed neighbour, at now plus that link's latency; the receivers come in
      ascending order when the neighbours do. */
  lemma {:induction false} SendFromArrivals(links: map<LinkKey, Link>, self: NodeId, nbs: seq<NodeId>, p: Packet, now: Uint)
    requires StrictlyAscending(nbs)
    ensures forall e :: e in SendFrom(links, self, nbs, p, now).arrivals ==>
      e.kind == RecvEv(self, Receiver(e), p) &&
      Receiver(e) in nbs && Addressed(Receiver(e), p.Hdr().nex) && (self, Receiver(e)) in links &&
      e.time == AddU32(now, links[(self, Receiver(e))].latency)
    ensures forall i, j :: 0 <= i < j < |SendFrom(links, self, nbs, p, now).arrivals| ==>
      Receiver(SendFrom(links, self, nbs, p, now).arrivals[i]) < Receiver(SendFrom(links, self, nbs, p, now).arrivals[j])
  {
    if nbs != [] {
      var init := nbs[..|nbs| - 1];
      var nb := nbs[|nbs| - 1];
      assert StrictlyAscending(init);
      SendFromArrivals(links, self, init, p, now);
      SendFromFrame(links, self, init, p, now);
      var prev := SendFrom(links, self, init, p, now);
      if !prev.crashed && Addressed(nb, p.Hdr().nex) && (self, nb) in prev.links
         && CanTransmit(prev.links[(self, nb)], SizeArg(p)) {
        assert nb !in init;
        assert prev.links[(self, nb)].latency == links[(self, nb)].latency;
        forall i | 0 <= i < |prev.arrivals| ensures Receiver(prev.arrivals[i]) < nb {
          assert prev.arrivals[i] in prev.arrivals;
        }
      }
    }
  }

  /** Without a crash, every addressed neighbour has a link, and a neighbour receives the
      packet exactly when it is addressed and its link (untouched by the earlier
      neighbours) admits the packet. */
  lemma {:induction false} SendFromReceivers(links: map<LinkKey, Link>, self: NodeId, nbs: seq<NodeId>, p: Packet, now: Uint)
    requires StrictlyAscending(nbs)
    ensures !SendFrom(links, self, nbs, p, now).crashed ==>
      forall nb :: nb in nbs ==>
        (Addressed(nb, p.Hdr().nex) ==> (self, nb) in links) &&
        ((exists e :: e in SendFrom(links, self, nbs, p, now).arrivals && Receiver(e) == nb) <==>
         Addressed(nb, p.Hdr().nex) && (self, nb) in links && CanTransmit(links[(self, nb)], SizeArg(p)))
  {
    if nbs != [] {
      var init := nbs[..|nbs| - 1];
      var nb := nbs[|nbs| - 1];
      assert StrictlyAscending(init);
      SendFromReceivers(links, self, init, p, now);
      SendFromArrivals(links, self, init, p, now);
      SendFromFrame(links, self, init, p, now);
      var prev := SendFrom(links, self, init, p, now);
      var r := SendFrom(links, self, nbs, p, now);
      if !r.crashed {
        assert !prev.crashed;
        assert nb !in init;
        assert forall e :: e in prev.arrivals ==> e in r.arrivals;
        assert forall e :: e in r.arrivals ==> e in prev.arrivals || Receiver(e) == nb;
        forall x | x in nbs
          ensures (Addressed(x, p.Hdr().nex) ==> (self, x) in links) &&
                  ((exists e :: e in r.arrivals && Receiver(e) == x) <==>
                   Addressed(x, p.Hdr().nex) && (self, x) in links && CanTransmit(links[(self, x)], SizeArg(p)))
        {
          if x == nb {
            if Addressed(nb, p.Hdr().nex) {
              assert prev.links[(self, nb)] == links[(self, nb)];
              if CanTransmit(links[(self, nb)], SizeArg(p)) {
                assert r.arrivals[|prev.arrivals|] in r.arrivals;
              } else {
                assert r.arrivals == prev.arrivals;
              }
            } else {
              assert r.arrivals == prev.arrivals;
            }
          } else {
            assert x in init;
          }
        }
      }
    }
  }
}
