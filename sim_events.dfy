/** Events and the global event queue (a std::priority_queue ordered by `mycomp`).
    The queue is a sequence kept in pop order; the tie-breaking priority of an event is
    `hash(key)` where `hash` stands for std::hash<string> and is never computed: every
    result here holds for any hash function. */
module EventQueue {
  import opened SimBase
  import opened Packets

  /** The four event kinds: the two packet-generation events, send_event and recv_event. */
  datatype EventKind =
    | CtrlGen(src: NodeId, dst: NodeId, size: Uint, msg: string)
    | DataGen(src: NodeId, dst: NodeId, size: Uint, msg: string)
    | SendEv(sender: NodeId, receiver: NodeId, pkt: Packet)
    | RecvEv(sender: NodeId, receiver: NodeId, pkt: Packet)

  datatype Event = Event(time: Uint, kind: EventKind)

  /** The string each event_priority() hashes: trigger time, then src and dst for the
      generation events, or sender, receiver and packet id for send and receive events,
      written in decimal and concatenated without separators. */
  function HashKey(e: Event): string
  {
    DecimalString(e.time) +
    match e.kind
    case CtrlGen(src, dst, _, _) => DecimalString(src) + DecimalString(dst)
    case DataGen(src, dst, _, _) => DecimalString(src) + DecimalString(dst)
    case SendEv(s, r, p) => DecimalString(s) + DecimalString(r) + DecimalString(p.id)
    case RecvEv(s, r, p) => DecimalString(s) + DecimalString(r) + DecimalString(p.id)
  }

  /** event_priority(). */
  function Priority(hash: string -> Uint, e: Event): Uint
  {
    hash(HashKey(e))
  }

  /** mycomp::operator(): with `reverse` false, true when lhs has a later trigger time, or the
      same time and a larger priority; the priority_queue then pops the smallest first. */
  predicate MyComp(hash: string -> Uint, lhs: Event, rhs: Event, reverse: bool)
  {
    var lp := Priority(hash, lhs);
    var rp := Priority(hash, rhs);
    if reverse then
      (if lhs.time == rhs.time then lp < rp else lhs.time < rhs.time)
    else
      (if lhs.time == rhs.time then lp > rp else lhs.time > rhs.time)
  }

  /** The (trigger time, priority) pair as one number. */
  function Rank(hash: string -> Uint, e: Event): (r: nat)
    ensures r == e.time * U32_LIMIT + Priority(hash, e)
  {
    e.time * U32_LIMIT + Priority(hash, e)
  }

  /** mycomp orders events exactly by rank: lhs comes after rhs iff its rank is larger. */
  lemma MyCompIsRankOrder(hash: string -> Uint, lhs: Event, rhs: Event)
    ensures MyComp(hash, lhs, rhs, false) <==> Rank(hash, rhs) < Rank(hash, lhs)
    ensures MyComp(hash, lhs, rhs, true) <==> Rank(hash, lhs) < Rank(hash, rhs)
  {
    var lp, rp := Priority(hash, lhs), Priority(hash, rhs);
    if lhs.time < rhs.time {
      assert lhs.time * U32_LIMIT + lp < (lhs.time + 1) * U32_LIMIT <= rhs.time * U32_LIMIT + rp;
    } else if rhs.time < lhs.time {
      assert rhs.time * U32_LIMIT + rp < (rhs.time + 1) * U32_LIMIT <= lhs.time * U32_LIMIT + lp;
    }
  }

  /** The queue is in pop order: no event is mycomp-after an event behind it. */
  ghost predicate InPopOrder(hash: string -> Uint, q: seq<Event>)
  {
    forall i, j :: 0 <= i < j < |q| ==> Rank(hash, q[i]) <= Rank(hash, q[j])
  }

  /** push: the new event goes behind every event that does not come after it. */
  function Insert(hash: string -> Uint, q: seq<Event>, e: Event): (r: seq<Event>)
    ensures |r| == |q| + 1
  {
    if q == [] then [e]
    else if Rank(hash, e) < Rank(hash, q[0]) then [e] + q
    else [q[0]] + Insert(hash, q[1..], e)
  }

  /** push adds exactly the new event. */
  lemma {:induction false} InsertContents(hash: string -> Uint, q: seq<Event>, e: Event)
    ensures multiset(Insert(hash, q, e)) == multiset(q) + multiset{e}
  {
    if q != [] && Rank(hash, q[0]) <= Rank(hash, e) {
      InsertContents(hash, q[1..], e);
      assert q == [q[0]] + q[1..];
    }
  }

  /** A lower bound on every rank of the queue and of the new event bounds every rank after push. */
  lemma {:induction false} InsertBounded(hash: string -> Uint, q: seq<Event>, e: Event, lo: nat)
    requires forall k :: 0 <= k < |q| ==> lo <= Rank(hash, q[k])
    requires lo <= Rank(hash, e)
    ensures forall k :: 0 <= k < |Insert(hash, q, e)| ==> lo <= Rank(hash, Insert(hash, q, e)[k])
  {
    if q != [] && Rank(hash, q[0]) <= Rank(hash, e) {
      InsertBounded(hash, q[1..], e, lo);
    }
  }

  /** push keeps the queue in pop order and adds exactly the new event. */
  lemma {:induction false} InsertKeepsOrder(hash: string -> Uint, q: seq<Event>, e: Event)
    requires InPopOrder(hash, q)
    ensures InPopOrder(hash, Insert(hash, q, e))
    ensures multiset(Insert(hash, q, e)) == multiset(q) + multiset{e}
  {
    InsertContents(hash, q, e);
    if q == [] {
    } else if Rank(hash, e) < Rank(hash, q[0]) {
    } else {
      var rest := Insert(hash, q[1..], e);
      InsertKeepsOrder(hash, q[1..], e);
      InsertBounded(hash, q[1..], e, Rank(hash, q[0]));
      var r := Insert(hash, q, e);
      assert r == [q[0]] + rest;
      assert forall k :: 0 < k < |r| ==> r[k] == rest[k - 1];
    }
  }

  /** Pushes several events, in order. */
  function InsertAll(hash: string -> Uint, q: seq<Event>, es: seq<Event>): (r: seq<Event>)
    ensures |r| == |q| + |es|
  {
    if es == [] then q else Insert(hash, InsertAll(hash, q, es[..|es| - 1]), es[|es| - 1])
  }

  lemma {:induction false} InsertAllKeepsOrder(hash: string -> Uint, q: seq<Event>, es: seq<Event>)
    requires InPopOrder(hash, q)
    ensures InPopOrder(hash, InsertAll(hash, q, es))
    ensures multiset(InsertAll(hash, q, es)) == multiset(q) + multiset(es)
  {
    if es != [] {
      var init, last := es[..|es| - 1], es[|es| - 1];
      InsertAllKeepsOrder(hash, q, init);
      var mid := InsertAll(hash, q, init);
      InsertKeepsOrder(hash, mid, last);
      assert InsertAll(hash, q, es) == Insert(hash, mid, last);
      assert es == init + [last];
      assert multiset(es) == multiset(init) + multiset{last};
    }
  }

  /** top(): the first event of a queue in pop order is one that no other event precedes
      under mycomp, i.e. the one the priority_queue pops. */
  lemma {:induction false} HeadIsTop(hash: string -> Uint, q: seq<Event>)
    requires InPopOrder(hash, q) && q != []
    ensures forall x :: x in q ==> !MyComp(hash, q[0], x, false)
  {
    forall x | x in q ensures !MyComp(hash, q[0], x, false) {
      MyCompIsRankOrder(hash, q[0], x);
    }
  }

  /** pop() keeps the rest in pop order. */
  lemma PopKeepsOrder(hash: string -> Uint, q: seq<Event>)
    requires InPopOrder(hash, q) && q != []
    ensures InPopOrder(hash, q[1..])
  {
  }
}
