/** simple_link: a directed link with a capacity, the bandwidth occupied so far and a latency.
    Capacity and occupied are doubles in the source but are only ever set from unsigned
    values and increased by unsigned packet sizes, so they are naturals here. */
module Links {
  import opened SimBase

  datatype Link = Link(from: NodeId, to: NodeId, capacity: nat, occupied: nat, latency: Uint)

  /** The `map<string, double>` argument of canTransmit, reserve and the link generator,
      with values already read through uint. */
  type LinkArgs = map<string, Uint>

  /** Default capacity of a simple link when no "capacity" argument is given. */
  const DEFAULT_CAPACITY: nat := 100

  /** simple_link_generator::generate: a link with occupied 0 and the given or default
      capacity and latency. */
  function NewSimpleLink(from: NodeId, to: NodeId, args: LinkArgs): (l: Link)
    ensures l.from == from && l.to == to && l.occupied == 0
    ensures l.capacity == (if "capacity" in args then args["capacity"] else DEFAULT_CAPACITY)
    ensures l.latency == (if "latency" in args then args["latency"] else ONE_HOP_DELAY)
  {
    Link(from, to,
         if "capacity" in args then args["capacity"] else DEFAULT_CAPACITY,
         0,
         if "latency" in args then args["latency"] else ONE_HOP_DELAY)
  }

  /** canTransmit: false without a "pkt_size" argument, otherwise whether the packet fits. */
  predicate CanTransmit(l: Link, args: LinkArgs)
  {
    "pkt_size" in args && l.occupied + args["pkt_size"] <= l.capacity
  }

  /** reserve: adds the packet size to occupied when a "pkt_size" argument is given. */
  function Reserve(l: Link, args: LinkArgs): (r: Link)
    ensures r.from == l.from && r.to == l.to && r.capacity == l.capacity && r.latency == l.latency
    ensures r.occupied >= l.occupied
    ensures "pkt_size" in args ==> r.occupied == l.occupied + args["pkt_size"]
    ensures "pkt_size" !in args ==> r == l
  {
    if "pkt_size" in args then l.(occupied := l.occupied + args["pkt_size"]) else l
  }

  /** The link invariant of the simulator: occupied never exceeds capacity. */
  predicate WithinCapacity(l: Link)
  {
    l.occupied <= l.capacity
  }

  /** Admission control: reserving what canTransmit admitted keeps occupied within capacity,
      and the reservation adds exactly the packet size. */
  lemma ReserveAdmitted(l: Link, size: Uint)
    requires CanTransmit(l, map["pkt_size" := size])
    ensures WithinCapacity(Reserve(l, map["pkt_size" := size]))
    ensures Reserve(l, map["pkt_size" := size]).occupied == l.occupied + size
  {
  }

  /** A reservation without a packet size leaves the link as it was; a link refuses every
      transmission without one. */
  lemma NoSizeNoEffect(l: Link, args: LinkArgs)
    requires "pkt_size" !in args
    ensures Reserve(l, args) == l && !CanTransmit(l, args)
  {
  }
}
