/** Headers, payloads and packets of the simulator, as values.
    A packet owns its header and payload; replicating a packet (for a retransmission)
    copies both and keeps the packet id, so a replica is the same value. */
module Packets {
  import opened SimBase

  /** The fields every header carries (class `header`). */
  datatype Header = Header(src: NodeId, dst: NodeId, pre: NodeId, nex: NodeId)

  /** A freshly constructed header: every field is BROCAST_ID. */
  const BLANK_HEADER: Header := Header(BROADCAST_ID, BROADCAST_ID, BROADCAST_ID, BROADCAST_ID)

  /** TRA_data_header: the common fields, a label stack whose top is its last element,
      the label-cost counter `used_labels` and the visited set `hi`. */
  datatype DataHeader = DataHeader(base: Header, labels: seq<Uint>, usedLabels: Uint, visits: set<NodeId>)
  {
    /** get_label: the top label, or 0 on an empty stack. */
    function GetLabel(): (l: Uint)
      ensures |labels| == 0 ==> l == 0
      ensures |labels| > 0 ==> l == labels[|labels| - 1]
    {
      if |labels| > 0 then labels[|labels| - 1] else 0
    }

    /** The cost of pushing `id`: 1 when it repeats the source, the current top,
        or when the next hop is the current top; 2 otherwise. */
    function LabelCost(id: Uint): (c: Uint)
      ensures c == 1 <==> (id == base.src || id == GetLabel() || base.nex == GetLabel())
      ensures c == 1 || c == 2
    {
      if id == base.src || id == GetLabel() || base.nex == GetLabel() then 1 else 2
    }

    /** push_label: `id` becomes the top and its cost is added (unsigned) to used_labels. */
    function PushLabel(id: Uint): (h: DataHeader)
      ensures h.GetLabel() == id && h.labels == labels + [id]
      ensures h.usedLabels == AddU32(usedLabels, LabelCost(id))
      ensures h.base == base && h.visits == visits
    {
      this.(labels := labels + [id], usedLabels := AddU32(usedLabels, LabelCost(id)))
    }

    /** pop_label (std::stack::pop needs a non-empty stack). */
    function PopLabel(): (h: DataHeader)
      requires |labels| > 0
      ensures h.labels + [GetLabel()] == labels
      ensures h.base == base && h.usedLabels == usedLabels && h.visits == visits
    {
      this.(labels := labels[..|labels| - 1])
    }

    /** visit: records a node in `hi`. */
    function Visit(id: NodeId): (h: DataHeader)
      ensures forall x :: h.Visited(x) <==> x == id || Visited(x)
      ensures h.base == base && h.labels == labels && h.usedLabels == usedLabels
    {
      this.(visits := visits + {id})
    }

    /** visited: whether `visit` was called with this id. */
    predicate Visited(id: NodeId)
    {
      id in visits
    }
  }

  /** A fresh TRA_data_header (header(): all ids BROCAST_ID; no labels; nothing visited). */
  const BLANK_DATA_HEADER: DataHeader := DataHeader(BLANK_HEADER, [], 0, {})

  /** A (capacity, occupied) pair as stored in a TRA_ctrl_payload or a switch's network table. */
  datatype LinkInfo = LinkInfo(capacity: nat, occupied: nat)

  /** TRA_ctrl_payload: the advertiser id, its neighbours' (capacity, occupied) and the debug text. */
  datatype CtrlPayload = CtrlPayload(nid: NodeId, netwInfo: map<NodeId, LinkInfo>, msg: string)

  /** The two packet kinds, TRA_data_packet and TRA_ctrl_packet. `size` is read through uint. */
  datatype Packet =
    | DataPacket(id: Uint, size: Uint, hdr: DataHeader, msg: string)
    | CtrlPacket(id: Uint, size: Uint, ctrlHdr: Header, payload: CtrlPayload)
  {
    /** getHeader() seen as a plain header. */
    function Hdr(): Header
    {
      if DataPacket? then hdr.base else ctrlHdr
    }

    /** The packet with its common header fields replaced; labels, visits and payload kept. */
    function WithHdr(h: Header): (p: Packet)
      ensures p.Hdr() == h && p.id == id && p.size == size
      ensures p.DataPacket? == DataPacket?
      ensures DataPacket? ==> p.hdr.labels == hdr.labels && p.hdr.visits == hdr.visits
                              && p.hdr.usedLabels == hdr.usedLabels && p.msg == msg
      ensures CtrlPacket? ==> p.payload == payload
    {
      if DataPacket? then this.(hdr := hdr.(base := h)) else this.(ctrlHdr := h)
    }
  }
}
