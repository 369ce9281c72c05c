/**
 Packets of the Richards benchmark: records that carry data and form singly linked worklists through
 their `link` fields.  A reference to a packet is its number in the pool of packets; NULL is no packet.
 */
module RichardsPackets {

  const DATA_SIZE := 4
  const NULL := -1

  datatype Kind = Device | Work

  /** A packet as it is stored.  In `a2`, 0 stands for `undefined`. */
  datatype Packet = Packet(link: int, id: int, kind: Kind, a1: int, a2: seq<int>)

  /** A packet as a value, without its link; `ref` is its identity. */
  datatype PacketValue = PacketValue(ref: nat, id: int, kind: Kind, a1: int, a2: seq<int>)

  /** Where a packet is; a packet that is in no list and in no slot is in flight. */
  datatype Place = InQueue(task: int) | InV1(task: int) | InV2(task: int) | InFlight

  function ValueOf(pool: seq<Packet>, p: nat): PacketValue
    requires p < |pool|
  {
    PacketValue(p, pool[p].id, pool[p].kind, pool[p].a1, pool[p].a2)
  }

  ghost predicate Stands(pool: seq<Packet>, places: seq<Place>, v: PacketValue, place: Place) {
    v.ref < |pool| == |places| && ValueOf(pool, v.ref) == v && places[v.ref] == place
  }

  ghost function Next(q: seq<PacketValue>, i: nat): int
    requires i < |q|
  {
    if i + 1 < |q| then q[i + 1].ref else NULL
  }

  /** From `head` on, the links run through exactly the packets `q`, in order, and end in NULL. */
  ghost predicate Linked(pool: seq<Packet>, places: seq<Place>, head: int, q: seq<PacketValue>, place: Place) {
    && (q == [] ==> head == NULL)
    && (q != [] ==> head == q[0].ref)
    && (forall i :: 0 <= i < |q| ==> Stands(pool, places, q[i], place))
    && (forall i :: 0 <= i < |q| ==> pool[q[i].ref].link == Next(q, i))
  }

  /** At most one packet, whose link is of no account. */
  ghost predicate Slot(pool: seq<Packet>, places: seq<Place>, head: int, held: seq<PacketValue>, place: Place) {
    && |held| <= 1
    && (held == [] ==> head == NULL)
    && (held != [] ==> head == held[0].ref && Stands(pool, places, held[0], place))
  }

  /** A worklist is acyclic: no packet occurs in it twice. */
  lemma {:induction false} LinkedNoDup(pool: seq<Packet>, places: seq<Place>, head: int, q: seq<PacketValue>,
                                       place: Place, i: nat, j: nat)
    requires Linked(pool, places, head, q, place) && i < j < |q|
    ensures q[i].ref != q[j].ref
    decreases |q| - j
  {
    SameLink(pool, places, head, q, place, i, j);
    hide Linked;
    if j + 1 < |q| {
      LinkedNoDup(pool, places, head, q, place, i + 1, j + 1);
    }
  }

  lemma SameLink(pool: seq<Packet>, places: seq<Place>, head: int, q: seq<PacketValue>, place: Place, i: nat, j: nat)
    requires Linked(pool, places, head, q, place) && i < j < |q|
    ensures q[i].ref == q[j].ref ==> Next(q, i) == Next(q, j)
  {
    assert pool[q[i].ref].link == Next(q, i) && pool[q[j].ref].link == Next(q, j);
  }

  lemma LinkedHead(pool: seq<Packet>, places: seq<Place>, head: int, q: seq<PacketValue>, place: Place)
    requires Linked(pool, places, head, q, place)
    ensures head == NULL <==> q == []
    ensures q != [] ==> head == q[0].ref && Stands(pool, places, q[0], place)
  {
  }

  /** Without its first packet, which is in flight from then on, a worklist is a worklist. */
  lemma PopLinked(pool: seq<Packet>, places: seq<Place>, head: int, q: seq<PacketValue>, place: Place)
    requires Linked(pool, places, head, q, place) && q != []
    ensures 0 <= head < |pool| == |places| && head == q[0].ref && Stands(pool, places, q[0], place)
    ensures Linked(pool, places[head := InFlight], pool[head].link, q[1..], place)
  {
    assert Stands(pool, places, q[0], place);
    var places' := places[head := InFlight];
    forall i | 0 <= i < |q| - 1
      ensures Stands(pool, places', q[1..][i], place) && pool[q[1..][i].ref].link == Next(q[1..], i)
    {
      assert Stands(pool, places, q[i + 1], place);
      LinkedNoDup(pool, places, head, q, place, 0, i + 1);
      assert Next(q[1..], i) == Next(q, i + 1);
    }
    assert pool[head].link == Next(q, 0);
  }

  /** Writing `a1` of the first packet of a worklist. */
  lemma RaiseHead(pool: seq<Packet>, places: seq<Place>, head: int, q: seq<PacketValue>, place: Place, a1: int)
    requires Linked(pool, places, head, q, place) && q != []
    ensures 0 <= head < |pool|
    ensures Linked(pool[head := pool[head].(a1 := a1)], places, head, [q[0].(a1 := a1)] + q[1..], place)
  {
    assert Stands(pool, places, q[0], place);
    var pool', q' := pool[head := pool[head].(a1 := a1)], [q[0].(a1 := a1)] + q[1..];
    forall i | 0 <= i < |q|
      ensures Stands(pool', places, q'[i], place) && pool'[q'[i].ref].link == Next(q', i)
    {
      assert Stands(pool, places, q[i], place);
      if i > 0 {
        LinkedNoDup(pool, places, head, q, place, 0, i);
      }
      assert Next(q', i) == Next(q, i);
    }
  }

  /** Appends packet `p`, which is in flight, to the worklist that starts at `queue`; only the links of
      `p` and of the last packet of the worklist are written. */
  method AddTo(pool: seq<Packet>, p: nat, queue: int,
               ghost places: seq<Place>, ghost q: seq<PacketValue>, ghost place: Place)
    returns (pool': seq<Packet>, list: int)
    requires Linked(pool, places, queue, q, place) && p < |pool| == |places|
    requires places[p] == InFlight && place != InFlight
    ensures |pool'| == |pool| && forall k :: 0 <= k < |pool| ==> ValueOf(pool', k) == ValueOf(pool, k)
    ensures forall k :: 0 <= k < |pool| && places[k] != place && k != p ==> pool'[k] == pool[k]
    ensures Linked(pool', places[p := place], list, q + [ValueOf(pool, p)], place)
  {
    pool' := pool[p := pool[p].(link := NULL)];
    if queue == NULL {
      return pool', p;
    }
    var next: nat := queue;
    var peek := pool'[next].link;
    ghost var k := 0;
    while peek != NULL
      invariant 0 <= k < |q| && next == q[k].ref && peek == Next(q, k)
      decreases |q| - k
    {
      next := peek;
      k := k + 1;
      assert Stands(pool, places, q[k], place);
      peek := pool'[next].link;
    }
    forall i | 0 <= i < k
      ensures q[i].ref != next
    {
      LinkedNoDup(pool, places, queue, q, place, i, k);
    }
    pool' := pool'[next := pool'[next].(link := p)];
    list := queue;
  }

  /** Allocates `n` packets in front of each other, as the benchmark does to fill a task's queue. */
  method NewQueue(pool: seq<Packet>, n: nat, id: int, kind: Kind, ghost places: seq<Place>, ghost place: Place)
    returns (pool': seq<Packet>, head: int, ghost places': seq<Place>, ghost q: seq<PacketValue>)
    requires |pool| == |places|
    ensures |pool'| == |places'| == |pool| + n && pool <= pool' && places <= places'
    ensures |q| == n && Linked(pool', places', head, q, place)
    ensures forall k :: 0 <= k < n ==> q[k] == PacketValue(|pool| + n - 1 - k, id, kind, 0, [0, 0, 0, 0])
  {
    pool', head, places', q := pool, NULL, places, [];
    for i := 0 to n
      invariant |pool'| == |places'| == |pool| + i && pool <= pool' && places <= places'
      invariant |q| == i && Linked(pool', places', head, q, place)
      invariant forall k :: 0 <= k < i ==> q[k] == PacketValue(|pool| + i - 1 - k, id, kind, 0, [0, 0, 0, 0])
    {
      ghost var v := PacketValue(|pool'|, id, kind, 0, [0, 0, 0, 0]);
      ghost var pool0, places0, q0 := pool', places', q;
      pool', head, places', q := pool' + [Packet(head, id, kind, 0, [0, 0, 0, 0])], |pool'|, places' + [place], [v] + q;
      forall k | 0 <= k < i + 1
        ensures Stands(pool', places', q[k], place) && pool'[q[k].ref].link == Next(q, k)
      {
        if k > 0 {
          assert Stands(pool0, places0, q0[k - 1], place);
          assert Next(q, k) == Next(q0, k - 1);
        }
      }
    }
  }

  lemma LinkedGrows(pool: seq<Packet>, pool': seq<Packet>, places: seq<Place>, places': seq<Place>,
                    head: int, q: seq<PacketValue>, place: Place)
    requires Linked(pool, places, head, q, place) && pool <= pool' && places <= places' && |pool'| == |places'|
    ensures Linked(pool', places', head, q, place)
  {
    forall i | 0 <= i < |q|
      ensures Stands(pool', places', q[i], place)
    {
      assert Stands(pool, places, q[i], place);
    }
  }
}
