/**
 The Richards scheduler as it runs: task control blocks, tasks and linked packets updated in place.
 Every method is proved to carry out the corresponding step of `RichardsModel`.
 */
module RichardsScheduler {
  import opened RichardsPackets
  import M = RichardsModel
  import L = RichardsLaws

  const STATE_RUNNING: bv3 := 0
  const STATE_RUNNABLE: bv3 := 1
  const STATE_SUSPENDED: bv3 := 2
  const STATE_HELD: bv3 := 4
  const STATE_SUSPENDED_RUNNABLE: bv3 := STATE_SUSPENDED | STATE_RUNNABLE
  const STATE_NOT_HELD: bv3 := !STATE_HELD

  datatype Task =
    | Idle(seed: bv16, count: int)
    | Worker(destination: int, letter: int)
    | Handler(v1: int, v2: int)
    | Device(v1: int)

  datatype Tcb = Tcb(link: int, id: int, priority: int, queue: int, state: bv3, task: Task)

  function MarkAsNotHeld(state: bv3): bv3 {
    state & STATE_NOT_HELD
  }

  function MarkAsHeld(state: bv3): bv3 {
    state | STATE_HELD
  }

  function MarkAsSuspended(state: bv3): bv3 {
    state | STATE_SUSPENDED
  }

  function MarkAsRunnable(state: bv3): bv3 {
    state | STATE_RUNNABLE
  }

  predicate IsHeldOrSuspended(state: bv3) {
    state & STATE_HELD != 0 || state == STATE_SUSPENDED
  }

  predicate IsSuspendedRunnable(state: bv3) {
    state == STATE_SUSPENDED_RUNNABLE
  }

  /** The constructor of a task control block. */
  function NewTcb(link: int, id: int, priority: int, queue: int, task: Task): Tcb {
    Tcb(link, id, priority, queue, if queue == NULL then STATE_SUSPENDED else STATE_SUSPENDED_RUNNABLE, task)
  }

  ghost function StateWord(b: M.Block): bv3 {
    (if b.held then STATE_HELD else 0) | (if b.suspended then STATE_SUSPENDED else 0)
    | (if b.runnable then STATE_RUNNABLE else 0)
  }

  /** The bit operations of a task control block set, clear and test the flags, whatever the block holds. */
  lemma StateBits(b: M.Block, q: seq<PacketValue>)
    ensures MarkAsNotHeld(StateWord(b)) == StateWord(b.(held := false))
    ensures MarkAsHeld(StateWord(b)) == StateWord(b.(held := true))
    ensures MarkAsSuspended(StateWord(b)) == StateWord(b.(suspended := true))
    ensures MarkAsRunnable(StateWord(b)) == StateWord(b.(runnable := true, queue := q))
    ensures StateWord(b) == StateWord(b.(queue := q))
    ensures IsHeldOrSuspended(StateWord(b)) <==> M.IsHeldOrSuspended(b)
    ensures IsSuspendedRunnable(StateWord(b)) <==> b.suspended && b.runnable && !b.held
    ensures STATE_RUNNING == StateWord(b.(held := false, suspended := false, runnable := false, queue := q))
    ensures STATE_RUNNABLE == StateWord(b.(held := false, suspended := false, runnable := true, queue := q))
  {
  }

  lemma SameState(b: M.Block, b': M.Block)
    requires b.held == b'.held && b.suspended == b'.suspended && b.runnable == b'.runnable
    ensures StateWord(b) == StateWord(b')
  {
  }

  // ----- the lists -----

  /** The field from which the packets at a place are reached. */
  ghost function Head(blocks: seq<Tcb>, place: Place): int {
    match place
    case InQueue(i) => if 0 <= i < |blocks| then blocks[i].queue else NULL
    case InV1(i) =>
      if 0 <= i < |blocks| && (blocks[i].task.Handler? || blocks[i].task.Device?) then blocks[i].task.v1 else NULL
    case InV2(i) => if 0 <= i < |blocks| && blocks[i].task.Handler? then blocks[i].task.v2 else NULL
    case InFlight => NULL
  }

  ghost function Content(bs: seq<M.Block>, place: Place): seq<PacketValue> {
    match place
    case InQueue(i) => if 0 <= i < |bs| then bs[i].queue else []
    case InV1(i) => if 0 <= i < |bs| then bs[i].v1 else []
    case InV2(i) => if 0 <= i < |bs| then bs[i].v2 else []
    case InFlight => []
  }

  ghost predicate IsSlot(place: Place) {
    place.InV1? && M.ID_DEVICE_A <= place.task <= M.ID_DEVICE_B
  }

  ghost predicate ListRep(pool: seq<Packet>, places: seq<Place>, head: int, q: seq<PacketValue>, place: Place) {
    if IsSlot(place) then Slot(pool, places, head, q, place) else Linked(pool, places, head, q, place)
  }

  ghost predicate Lists(pool: seq<Packet>, places: seq<Place>, blocks: seq<Tcb>, bs: seq<M.Block>) {
    forall place :: place != InFlight ==> ListRep(pool, places, Head(blocks, place), Content(bs, place), place)
  }

  /** Of all the places only `changed` was written to. */
  ghost predicate OnlyChanges(changed: Place, pool: seq<Packet>, pool': seq<Packet>, places: seq<Place>,
                              places': seq<Place>, blocks: seq<Tcb>, blocks': seq<Tcb>, bs: seq<M.Block>,
                              bs': seq<M.Block>) {
    && |pool| == |pool'| == |places| == |places'|
    && (forall k :: 0 <= k < |pool| && places[k] != changed && places[k] != InFlight ==>
          pool'[k] == pool[k] && places'[k] == places[k])
    && (forall place :: place != changed ==> Head(blocks', place) == Head(blocks, place))
    && (forall place :: place != changed ==> Content(bs', place) == Content(bs, place))
  }

  lemma OtherLists(changed: Place, pool: seq<Packet>, pool': seq<Packet>, places: seq<Place>, places': seq<Place>,
                   blocks: seq<Tcb>, blocks': seq<Tcb>, bs: seq<M.Block>, bs': seq<M.Block>)
    requires Lists(pool, places, blocks, bs)
    requires OnlyChanges(changed, pool, pool', places, places', blocks, blocks', bs, bs')
    requires changed != InFlight ==> ListRep(pool', places', Head(blocks', changed), Content(bs', changed), changed)
    ensures Lists(pool', places', blocks', bs')
  {
    forall place | place != InFlight && place != changed
      ensures ListRep(pool', places', Head(blocks', place), Content(bs', place), place)
    {
      assert ListRep(pool, places, Head(blocks, place), Content(bs, place), place);
    }
  }

  lemma StateChanged(pool: seq<Packet>, places: seq<Place>, blocks: seq<Tcb>, i: int, tcb: Tcb, bs: seq<M.Block>,
                     b: M.Block)
    requires Lists(pool, places, blocks, bs) && 0 <= i < |blocks| == |bs| && |pool| == |places|
    requires tcb.queue == blocks[i].queue && tcb.task == blocks[i].task
    requires b.queue == bs[i].queue && b.v1 == bs[i].v1 && b.v2 == bs[i].v2
    ensures Lists(pool, places, blocks[i := tcb], bs[i := b])
  {
    hide Lists, Linked;
    OtherLists(InFlight, pool, pool, places, places, blocks, blocks[i := tcb], bs, bs[i := b]);
  }

  lemma QueueAt(pool: seq<Packet>, places: seq<Place>, blocks: seq<Tcb>, bs: seq<M.Block>, t: int)
    requires Lists(pool, places, blocks, bs) && 0 <= t < |blocks| == |bs|
    ensures Linked(pool, places, blocks[t].queue, bs[t].queue, InQueue(t))
    ensures blocks[t].queue == NULL <==> bs[t].queue == []
  {
    assert ListRep(pool, places, Head(blocks, InQueue(t)), Content(bs, InQueue(t)), InQueue(t));
  }

  lemma QueueChanged(pool: seq<Packet>, pool': seq<Packet>, places: seq<Place>, places': seq<Place>,
                     blocks: seq<Tcb>, t: int, tcb: Tcb, bs: seq<M.Block>, b: M.Block)
    requires Lists(pool, places, blocks, bs) && 0 <= t < |blocks| == |bs|
    requires |pool| == |pool'| == |places| == |places'|
    requires forall k :: 0 <= k < |pool| && places[k] != InQueue(t) && places[k] != InFlight ==>
      pool'[k] == pool[k] && places'[k] == places[k]
    requires tcb.task == blocks[t].task && b.v1 == bs[t].v1 && b.v2 == bs[t].v2
    requires Linked(pool', places', tcb.queue, b.queue, InQueue(t))
    ensures Lists(pool', places', blocks[t := tcb], bs[t := b])
  {
    hide Lists, Linked;
    OtherLists(InQueue(t), pool, pool', places, places', blocks, blocks[t := tcb], bs, bs[t := b]);
  }

  lemma SlotAt(pool: seq<Packet>, places: seq<Place>, blocks: seq<Tcb>, bs: seq<M.Block>, i: int)
    requires Lists(pool, places, blocks, bs) && 0 <= i < |blocks| == |bs| && IsSlot(InV1(i)) && blocks[i].task.Device?
    ensures Slot(pool, places, blocks[i].task.v1, bs[i].v1, InV1(i))
  {
    assert ListRep(pool, places, Head(blocks, InV1(i)), Content(bs, InV1(i)), InV1(i));
  }

  /** Taking the packet out of a device's slot. */
  lemma SlotEmptied(pool: seq<Packet>, places: seq<Place>, blocks: seq<Tcb>, i: int, tcb: Tcb, bs: seq<M.Block>,
                    b: M.Block)
    requires Lists(pool, places, blocks, bs) && 0 <= i < |blocks| == |bs| && |pool| == |places|
    requires IsSlot(InV1(i)) && blocks[i].task.Device? && 0 <= blocks[i].task.v1 < |pool|
    requires bs[i].v1 != [] && b == bs[i].(v1 := []) && tcb == blocks[i].(task := Task.Device(NULL))
    ensures var places' := places[blocks[i].task.v1 := InFlight];
      Lists(pool, places', blocks[i := tcb], bs[i := b]) && Stands(pool, places', bs[i].v1[0], InFlight)
  {
    hide Lists, Linked;
    SlotAt(pool, places, blocks, bs, i);
    OtherLists(InV1(i), pool, pool, places, places[blocks[i].task.v1 := InFlight], blocks, blocks[i := tcb], bs,
               bs[i := b]);
  }

  /** Putting a packet in flight into a device's slot. */
  lemma SlotFilled(pool: seq<Packet>, places: seq<Place>, p: nat, blocks: seq<Tcb>, i: int, tcb: Tcb, bs: seq<M.Block>,
                   b: M.Block)
    requires Lists(pool, places, blocks, bs) && 0 <= i < |blocks| == |bs| && p < |pool| == |places|
    requires places[p] == InFlight
    requires IsSlot(InV1(i)) && blocks[i].task.Device? && tcb == blocks[i].(task := Task.Device(p))
    requires b == bs[i].(v1 := [ValueOf(pool, p)])
    ensures Lists(pool, places[p := InV1(i)], blocks[i := tcb], bs[i := b])
  {
    hide Lists, Linked;
    OtherLists(InV1(i), pool, pool, places, places[p := InV1(i)], blocks, blocks[i := tcb], bs, bs[i := b]);
  }

  lemma HandlerAt(pool: seq<Packet>, places: seq<Place>, blocks: seq<Tcb>, bs: seq<M.Block>, i: int)
    requires Lists(pool, places, blocks, bs) && 0 <= i < |blocks| == |bs| && blocks[i].task.Handler?
    requires M.ID_HANDLER_A <= i <= M.ID_HANDLER_B
    ensures Linked(pool, places, blocks[i].task.v1, bs[i].v1, InV1(i))
    ensures Linked(pool, places, blocks[i].task.v2, bs[i].v2, InV2(i))
  {
    assert ListRep(pool, places, Head(blocks, InV1(i)), Content(bs, InV1(i)), InV1(i));
    assert ListRep(pool, places, Head(blocks, InV2(i)), Content(bs, InV2(i)), InV2(i));
  }

  /** A change to the handler's list of work packets alone. */
  lemma V1Changed(pool: seq<Packet>, pool': seq<Packet>, places: seq<Place>, places': seq<Place>,
                  blocks: seq<Tcb>, i: int, v1: int, bs: seq<M.Block>, b: M.Block)
    requires Lists(pool, places, blocks, bs) && 0 <= i < |blocks| == |bs| && blocks[i].task.Handler?
    requires M.ID_HANDLER_A <= i <= M.ID_HANDLER_B
    requires |pool| == |pool'| == |places| == |places'|
    requires forall k :: 0 <= k < |pool| && places[k] != InV1(i) && places[k] != InFlight ==>
      pool'[k] == pool[k] && places'[k] == places[k]
    requires b.queue == bs[i].queue && b.v2 == bs[i].v2
    requires Linked(pool', places', v1, b.v1, InV1(i))
    ensures Lists(pool', places', blocks[i := blocks[i].(task := blocks[i].task.(v1 := v1))], bs[i := b])
  {
    hide Lists, Linked;
    OtherLists(InV1(i), pool, pool', places, places', blocks,
               blocks[i := blocks[i].(task := blocks[i].task.(v1 := v1))], bs, bs[i := b]);
  }

  /** A change to the handler's list of device packets alone. */
  lemma V2Changed(pool: seq<Packet>, pool': seq<Packet>, places: seq<Place>, places': seq<Place>,
                  blocks: seq<Tcb>, i: int, v2: int, bs: seq<M.Block>, b: M.Block)
    requires Lists(pool, places, blocks, bs) && 0 <= i < |blocks| == |bs| && blocks[i].task.Handler?
    requires M.ID_HANDLER_A <= i <= M.ID_HANDLER_B
    requires |pool| == |pool'| == |places| == |places'|
    requires forall k :: 0 <= k < |pool| && places[k] != InV2(i) && places[k] != InFlight ==>
      pool'[k] == pool[k] && places'[k] == places[k]
    requires b.queue == bs[i].queue && b.v1 == bs[i].v1
    requires Linked(pool', places', v2, b.v2, InV2(i))
    ensures Lists(pool', places', blocks[i := blocks[i].(task := blocks[i].task.(v2 := v2))], bs[i := b])
  {
    hide Lists, Linked;
    OtherLists(InV2(i), pool, pool', places, places', blocks,
               blocks[i := blocks[i].(task := blocks[i].task.(v2 := v2))], bs, bs[i := b]);
  }

  /** Writing to a packet in flight. */
  lemma WriteFlight(pool: seq<Packet>, p: nat, packet: Packet, places: seq<Place>, blocks: seq<Tcb>, bs: seq<M.Block>)
    requires Lists(pool, places, blocks, bs) && p < |pool| == |places| && places[p] == InFlight
    ensures Lists(pool[p := packet], places, blocks, bs)
  {
    OtherLists(InFlight, pool, pool[p := packet], places, places, blocks, blocks, bs, bs);
  }

  // ----- the scheduler -----

  class Scheduler {
    var queueCount: int
    var holdCount: int
    var blocks: seq<Tcb>
    var list: int
    var currentTcb: int
    var currentId: int
    var packets: seq<Packet>
    ghost var places: seq<Place>
    ghost var abs: M.State

    constructor ()
      ensures queueCount == holdCount == 0 && blocks == [] && packets == [] && places == []
      ensures list == currentTcb == currentId == NULL
    {
      queueCount, holdCount, blocks, packets, places := 0, 0, [], [], [];
      list, currentTcb, currentId := NULL, NULL, NULL;
    }

    /** Adds a task in front of the list of blocks; the benchmark adds its tasks in the order of their ids. */
    method AddTask(id: int, priority: int, queue: int, task: Task)
      requires id == |blocks|
      modifies `blocks, `list, `currentTcb
      ensures blocks == old(blocks) + [NewTcb(old(list), id, priority, queue, task)] && list == currentTcb == id
    {
      blocks := blocks + [NewTcb(list, id, priority, queue, task)];
      list := id;
      currentTcb := id;
    }

    method AddTasks(count: int, work: int, mailA: int, mailB: int)
      requires blocks == [] && list == NULL
      modifies `blocks, `list, `currentTcb
      ensures blocks == InitialBlocks(count, work, mailA, mailB) && list == M.ID_DEVICE_B
    {
      AddTask(M.ID_IDLE, 0, NULL, Idle(1, count));
      blocks := blocks[0 := blocks[0].(state := STATE_RUNNING)];
      AddTask(M.ID_WORKER, 1000, work, Worker(M.ID_HANDLER_A, 0));
      AddTask(M.ID_HANDLER_A, 2000, mailA, Handler(NULL, NULL));
      AddTask(M.ID_HANDLER_B, 3000, mailB, Handler(NULL, NULL));
      AddTask(M.ID_DEVICE_A, 4000, NULL, Task.Device(NULL));
      AddTask(M.ID_DEVICE_B, 5000, NULL, Task.Device(NULL));
    }

    ghost predicate Wiring()
      reads this
    {
      && |blocks| == |abs.blocks| == M.NUMBER_OF_IDS && |places| == |packets|
      && forall i :: 0 <= i < M.NUMBER_OF_IDS ==>
        blocks[i].link == i - 1 && blocks[i].id == i && blocks[i].priority == 1000 * i
        && blocks[i].state == StateWord(abs.blocks[i])
    }

    ghost predicate Fields()
      requires Wiring()
      reads this
    {
      && queueCount == abs.queueCount && holdCount == abs.holdCount && currentId == abs.currentId
      && blocks[0].task == Idle(abs.seed, abs.count) && blocks[1].task == Worker(abs.destination, abs.letter)
      && blocks[2].task.Handler? && blocks[3].task.Handler? && blocks[4].task.Device? && blocks[5].task.Device?
    }

    /** The fields represent `abs`. */
    ghost predicate Valid()
      reads this
    {
      && Wiring() && Fields() && Lists(packets, places, blocks, abs.blocks)
      && forall k :: 0 <= k < |abs.flight| ==> Stands(packets, places, abs.flight[k], InFlight)
    }

    /** A task is at work, and `packet` is what is in flight. */
    ghost predicate Running(packet: int)
      reads this
    {
      && Valid() && M.Active(abs) && currentTcb == abs.current
      && abs.flight == if 0 <= packet < |packets| then [ValueOf(packets, packet)] else []
    }

    method Release(id: int) returns (next: int)
      requires Valid() && M.Active(abs) && currentTcb == abs.current
      modifies this
      ensures Valid() && currentTcb == old(currentTcb) && abs == M.Release(old(abs), id) && next == abs.current
    {
      hide Lists, StateWord, MarkAsNotHeld, MarkAsHeld, MarkAsSuspended, MarkAsRunnable;
      if !(0 <= id < |blocks|) {
        abs := M.Release(abs, id);
        return NULL;
      }
      StateBits(abs.blocks[id], []);
      var tcb := blocks[id];
      blocks := blocks[id := tcb.(state := MarkAsNotHeld(tcb.state))];
      abs := M.Release(abs, id);
      StateChanged(packets, places, old(blocks), id, blocks[id], old(abs.blocks), abs.blocks[id]);
      return if tcb.priority > blocks[currentTcb].priority then id else currentTcb;
    }

    method HoldCurrent() returns (next: int)
      requires Valid() && M.Active(abs) && currentTcb == abs.current
      modifies this
      ensures Valid() && currentTcb == old(currentTcb) && abs == M.HoldCurrent(old(abs)) && next == abs.current
    {
      hide Lists, StateWord, MarkAsNotHeld, MarkAsHeld, MarkAsSuspended, MarkAsRunnable;
      StateBits(abs.blocks[currentTcb], []);
      holdCount := holdCount + 1;
      var tcb := blocks[currentTcb];
      blocks := blocks[currentTcb := tcb.(state := MarkAsHeld(tcb.state))];
      abs := M.HoldCurrent(abs);
      StateChanged(packets, places, old(blocks), currentTcb, blocks[currentTcb], old(abs.blocks),
                   abs.blocks[currentTcb]);
      return tcb.link;
    }

    method SuspendCurrent() returns (next: int)
      requires Valid() && M.Active(abs) && currentTcb == abs.current
      modifies this
      ensures Valid() && currentTcb == old(currentTcb) && abs == M.SuspendCurrent(old(abs)) && next == abs.current
    {
      hide Lists, StateWord, MarkAsNotHeld, MarkAsHeld, MarkAsSuspended, MarkAsRunnable;
      StateBits(abs.blocks[currentTcb], []);
      var tcb := blocks[currentTcb];
      blocks := blocks[currentTcb := tcb.(state := MarkAsSuspended(tcb.state))];
      abs := M.SuspendCurrent(abs);
      StateChanged(packets, places, old(blocks), currentTcb, blocks[currentTcb], old(abs.blocks),
                   abs.blocks[currentTcb]);
      return currentTcb;
    }

    /** The packet in flight goes to the end of the queue of block `t`. */
    method Append(t: int, p: nat)
      requires Running(p) && p < |packets| && 0 <= t < M.NUMBER_OF_IDS
      modifies `blocks, `packets, `places, `abs
      ensures Valid() && blocks[t].priority == old(blocks)[t].priority
      ensures var b := old(abs).blocks[t];
        abs == M.SetBlock(old(abs), t, b.(queue := b.queue + old(abs).flight)).(flight := [])
    {
      hide Lists, Linked, StateWord;
      ghost var b := abs.blocks[t];
      QueueAt(packets, places, blocks, abs.blocks, t);
      assert Stands(packets, places, abs.flight[0], InFlight);
      var pool, queue := AddTo(packets, p, blocks[t].queue, places, b.queue, InQueue(t));
      blocks := blocks[t := blocks[t].(queue := queue)];
      packets, places := pool, places[p := InQueue(t)];
      abs := M.SetBlock(abs, t, b.(queue := b.queue + abs.flight)).(flight := []);
      SameState(b, abs.blocks[t]);
      QueueChanged(old(packets), packets, old(places), places, old(blocks), t, blocks[t], old(abs.blocks),
                   abs.blocks[t]);
    }

    /** Block `t` becomes runnable. */
    method MakeRunnable(t: int)
      requires Valid() && 0 <= t < M.NUMBER_OF_IDS
      modifies `blocks, `abs
      ensures Valid() && blocks[t].priority == old(blocks)[t].priority
      ensures abs == M.SetBlock(old(abs), t, old(abs).blocks[t].(runnable := true))
    {
      hide Lists, StateWord, MarkAsNotHeld, MarkAsHeld, MarkAsSuspended, MarkAsRunnable;
      StateBits(abs.blocks[t], abs.blocks[t].queue);
      blocks := blocks[t := blocks[t].(state := MarkAsRunnable(blocks[t].state))];
      abs := M.SetBlock(abs, t, abs.blocks[t].(runnable := true));
      StateChanged(packets, places, old(blocks), t, blocks[t], old(abs.blocks), abs.blocks[t]);
    }

    /** Appends packet `p` to the queue of block `t` and returns the block of higher priority, if `p` is the
        first packet there. */
    method CheckPriorityAdd(t: int, task: int, p: nat) returns (next: int)
      requires Running(p) && p < |packets| && 0 <= t < M.NUMBER_OF_IDS && task == currentTcb
      modifies this
      ensures Valid() && currentTcb == old(currentTcb)
      ensures abs == M.CheckPriorityAdd(old(abs), t) && next == abs.current
    {
      hide Lists, Linked, StateWord;
      QueueAt(packets, places, blocks, abs.blocks, t);
      var empty := blocks[t].queue == NULL;
      Append(t, p);
      next := task;
      if empty {
        MakeRunnable(t);
        if blocks[t].priority > blocks[task].priority {
          next := t;
        }
      }
      abs := abs.(current := next);
    }

    method Queue(p: nat) returns (next: int)
      requires Running(p) && p < |packets|
      modifies this
      ensures Valid() && currentTcb == old(currentTcb) && abs == M.Queue(old(abs)) && next == abs.current
    {
      hide Lists, StateWord, M.CheckPriorityAdd;
      if !(0 <= packets[p].id < |blocks|) {
        abs := M.Queue(abs);
        return NULL;
      }
      var t := packets[p].id;
      queueCount := queueCount + 1;
      assert Stands(packets, places, abs.flight[0], InFlight);
      WriteFlight(packets, p, packets[p].(link := NULL, id := currentId), places, blocks, abs.blocks);
      packets := packets[p := packets[p].(link := NULL, id := currentId)];
      abs := abs.(queueCount := queueCount, flight := [abs.flight[0].(id := currentId)]);
      next := CheckPriorityAdd(t, currentTcb, p);
    }

    method IdleRun() returns (next: int)
      requires Valid() && M.Active(abs) && currentTcb == abs.current == M.ID_IDLE
      modifies this
      ensures Valid() && currentTcb == old(currentTcb) && abs == M.IdleRun(old(abs)) && next == abs.current
    {
      hide Lists, StateWord;
      var task := blocks[0].task.(count := blocks[0].task.count - 1);
      ghost var counted := abs.(count := task.count);
      if task.count == 0 {
        SetTask(0, task, counted);
        next := HoldCurrent();
      } else if task.seed & 1 == 0 {
        task := task.(seed := task.seed >> 1);
        SetTask(0, task, counted.(seed := task.seed));
        next := Release(M.ID_DEVICE_A);
      } else {
        task := task.(seed := (task.seed >> 1) ^ 0xd008);
        SetTask(0, task, counted.(seed := task.seed));
        next := Release(M.ID_DEVICE_B);
      }
    }

    /** Writes the fields of the idle task or of the worker task. */
    method SetTask(i: int, task: Task, ghost s: M.State)
      requires Valid() && 0 <= i <= 1
      requires if i == 0 then task == Idle(s.seed, s.count) else task == Worker(s.destination, s.letter)
      requires s == if i == 0 then abs.(seed := s.seed, count := s.count)
                    else abs.(destination := s.destination, letter := s.letter)
      modifies `blocks, `abs
      ensures Valid() && abs == s
    {
      hide Lists, StateWord;
      blocks := blocks[i := blocks[i].(task := task)];
      abs := s;
      assert forall place :: Head(blocks, place) == Head(old(blocks), place);
      OtherLists(InFlight, packets, packets, places, places, old(blocks), blocks, abs.blocks, abs.blocks);
    }

    method DeviceRun(packet: int) returns (next: int)
      requires Running(packet) && M.ID_DEVICE_A <= currentTcb <= M.ID_DEVICE_B && NULL <= packet < |packets|
      modifies this
      ensures |old(abs.blocks)[old(currentTcb)].v1| <= 1
      ensures Valid() && currentTcb == old(currentTcb) && abs == M.DeviceRun(old(abs)) && next == abs.current
    {
      hide Lists, StateWord, M.Queue;
      var i := currentTcb;
      var tcb := blocks[i];
      ghost var b := abs.blocks[i];
      SlotAt(packets, places, blocks, abs.blocks, i);
      if packet == NULL {
        if tcb.task.v1 == NULL {
          next := SuspendCurrent();
        } else {
          var v: nat := tcb.task.v1;
          blocks := blocks[i := tcb.(task := Task.Device(NULL))];
          abs := M.SetBlock(abs, i, b.(v1 := [])).(flight := b.v1);
          SameState(b, abs.blocks[i]);
          SlotEmptied(packets, places, old(blocks), i, blocks[i], old(abs.blocks), abs.blocks[i]);
          places := places[v := InFlight];
          next := Queue(v);
        }
      } else {
        assert Stands(packets, places, abs.flight[0], InFlight);
        blocks := blocks[i := tcb.(task := Task.Device(packet))];
        abs := M.SetBlock(abs, i, b.(v1 := abs.flight)).(flight := []);
        SameState(b, abs.blocks[i]);
        SlotFilled(packets, places, packet, old(blocks), i, blocks[i], old(abs.blocks), abs.blocks[i]);
        places := places[packet := InV1(i)];
        next := HoldCurrent();
      }
    }

    method WorkerRun(packet: int) returns (next: int)
      requires Running(packet) && currentTcb == M.ID_WORKER && NULL <= packet < |packets|
      modifies this
      ensures Valid() && currentTcb == old(currentTcb) && abs == M.WorkerRun(old(abs)) && next == abs.current
    {
      hide Lists, StateWord;
      if packet == NULL {
        next := SuspendCurrent();
        return;
      }
      var task := blocks[1].task;
      var destination := if task.destination == M.ID_HANDLER_A then M.ID_HANDLER_B else M.ID_HANDLER_A;
      var letter := task.letter;
      var a2 := [];
      for k := 0 to DATA_SIZE
        modifies {}
        invariant a2 == M.Letters(task.letter, k) && letter == M.LetterAfter(task.letter, k)
      {
        M.LettersUnroll(task.letter, k);
        letter := letter + 1;
        if letter > 26 {
          letter := 1;
        }
        a2 := a2 + [letter];
      }
      assert Stands(packets, places, abs.flight[0], InFlight);
      WriteFlight(packets, packet, packets[packet].(id := destination, a1 := 0, a2 := a2), places, blocks, abs.blocks);
      packets := packets[packet := packets[packet].(id := destination, a1 := 0, a2 := a2)];
      abs := abs.(flight := [abs.flight[0].(id := destination, a1 := 0, a2 := a2)]);
      SetTask(1, Worker(destination, letter), abs.(destination := destination, letter := letter));
      next := Queue(packet);
    }

    method StoreWork(packet: nat)
      requires Running(packet) && M.ID_HANDLER_A <= currentTcb <= M.ID_HANDLER_B && packet < |packets|
      modifies this
      ensures Valid() && currentTcb == old(currentTcb)
      ensures var b := old(abs).blocks[currentTcb];
        abs == M.SetBlock(old(abs), currentTcb, b.(v1 := b.v1 + old(abs).flight)).(flight := [])
    {
      hide Lists, Linked, StateWord;
      var i := currentTcb;
      ghost var b := abs.blocks[i];
      HandlerAt(packets, places, blocks, abs.blocks, i);
      assert Stands(packets, places, abs.flight[0], InFlight);
      var pool, v1 := AddTo(packets, packet, blocks[i].task.v1, places, b.v1, InV1(i));
      blocks := blocks[i := blocks[i].(task := blocks[i].task.(v1 := v1))];
      packets, places := pool, places[packet := InV1(i)];
      abs := M.SetBlock(abs, i, b.(v1 := b.v1 + abs.flight)).(flight := []);
      SameState(b, abs.blocks[i]);
      V1Changed(old(packets), packets, old(places), places, old(blocks), i, v1, old(abs.blocks), abs.blocks[i]);
    }

    method StoreDevice(packet: nat)
      requires Running(packet) && M.ID_HANDLER_A <= currentTcb <= M.ID_HANDLER_B && packet < |packets|
      modifies this
      ensures Valid() && currentTcb == old(currentTcb)
      ensures var b := old(abs).blocks[currentTcb];
        abs == M.SetBlock(old(abs), currentTcb, b.(v2 := b.v2 + old(abs).flight)).(flight := [])
    {
      hide Lists, Linked, StateWord;
      var i := currentTcb;
      ghost var b := abs.blocks[i];
      HandlerAt(packets, places, blocks, abs.blocks, i);
      assert Stands(packets, places, abs.flight[0], InFlight);
      var pool, v2 := AddTo(packets, packet, blocks[i].task.v2, places, b.v2, InV2(i));
      blocks := blocks[i := blocks[i].(task := blocks[i].task.(v2 := v2))];
      packets, places := pool, places[packet := InV2(i)];
      abs := M.SetBlock(abs, i, b.(v2 := b.v2 + abs.flight)).(flight := []);
      SameState(b, abs.blocks[i]);
      V2Changed(old(packets), packets, old(places), places, old(blocks), i, v2, old(abs.blocks), abs.blocks[i]);
    }

    /** The first device packet leaves its list. */
    method TakeDevicePacket() returns (v: nat)
      requires Running(NULL) && M.ID_HANDLER_A <= currentTcb <= M.ID_HANDLER_B
      requires abs.blocks[currentTcb].v2 != []
      modifies this
      ensures Running(v) && v < |packets| && currentTcb == old(currentTcb)
      ensures var b := old(abs).blocks[currentTcb];
        abs == M.SetBlock(old(abs), currentTcb, b.(v2 := b.v2[1..])).(flight := [b.v2[0]])
    {
      hide Lists, Linked, StateWord;
      var i := currentTcb;
      ghost var b := abs.blocks[i];
      HandlerAt(packets, places, blocks, abs.blocks, i);
      PopLinked(packets, places, blocks[i].task.v2, b.v2, InV2(i));
      v := blocks[i].task.v2;
      blocks := blocks[i := blocks[i].(task := blocks[i].task.(v2 := packets[v].link))];
      places := places[v := InFlight];
      V2Changed(packets, packets, old(places), places, old(blocks), i, packets[v].link, old(abs.blocks),
                b.(v2 := b.v2[1..]));
      SameState(b, b.(v2 := b.v2[1..]));
      abs := M.SetBlock(abs, i, b.(v2 := b.v2[1..])).(flight := [b.v2[0]]);
    }

    /** The packet in flight gets a letter. */
    method WriteLetter(v: nat, letter: int)
      requires Running(v) && v < |packets|
      modifies `packets, `abs
      ensures Running(v) && v < |packets|
      ensures abs == old(abs).(flight := [old(abs).flight[0].(a1 := letter)])
    {
      hide Lists, StateWord;
      assert Stands(packets, places, abs.flight[0], InFlight);
      WriteFlight(packets, v, packets[v].(a1 := letter), places, blocks, abs.blocks);
      packets := packets[v := packets[v].(a1 := letter)];
      abs := abs.(flight := [abs.flight[0].(a1 := letter)]);
    }

    /** One more letter of the first work packet is used up, while packet `v` is in flight. */
    method CountLetter(ghost v: nat)
      requires Running(v) && v < |packets| && M.ID_HANDLER_A <= currentTcb <= M.ID_HANDLER_B
      requires abs.blocks[currentTcb].v1 != []
      modifies `packets, `abs
      ensures Running(v) && v < |packets|
      ensures var b := old(abs).blocks[currentTcb];
        abs == M.SetBlock(old(abs), currentTcb, b.(v1 := [b.v1[0].(a1 := b.v1[0].a1 + 1)] + b.v1[1..]))
    {
      hide Lists, Linked, StateWord;
      var i := currentTcb;
      var w := blocks[i].task.v1;
      ghost var b := abs.blocks[i];
      ghost var after := b.(v1 := [b.v1[0].(a1 := b.v1[0].a1 + 1)] + b.v1[1..]);
      assert Stands(packets, places, abs.flight[0], InFlight);
      HandlerAt(packets, places, blocks, abs.blocks, i);
      LinkedHead(packets, places, w, b.v1, InV1(i));
      RaiseHead(packets, places, w, b.v1, InV1(i), packets[w].a1 + 1);
      packets := packets[w := packets[w].(a1 := packets[w].a1 + 1)];
      V1Changed(old(packets), packets, places, places, blocks, i, w, abs.blocks, after);
      assert blocks[i := blocks[i].(task := blocks[i].task.(v1 := w))] == blocks;
      SameState(b, after);
      abs := M.SetBlock(abs, i, after);
    }

    /** The first device packet leaves its list with the next letter of the first work packet. */
    method SendLetter() returns (v: nat)
      requires Running(NULL) && M.ID_HANDLER_A <= currentTcb <= M.ID_HANDLER_B
      requires abs.blocks[currentTcb].v1 != [] && abs.blocks[currentTcb].v2 != []
      modifies this
      ensures Running(v) && v < |packets| && currentTcb == old(currentTcb)
      ensures var b := old(abs).blocks[currentTcb];
        abs == M.SetBlock(old(abs), currentTcb, M.ConsumeLetter(b)).(
          flight := [b.v2[0].(a1 := M.At(b.v1[0].a2, b.v1[0].a1))])
    {
      hide Lists, Linked, StateWord;
      v := TakeDevicePacket();
      var w := blocks[currentTcb].task.v1;
      HandlerAt(packets, places, blocks, abs.blocks, currentTcb);
      LinkedHead(packets, places, w, abs.blocks[currentTcb].v1, InV1(currentTcb));
      WriteLetter(v, M.At(packets[w].a2, packets[w].a1));
      CountLetter(v);
    }

    /** The first work packet leaves its list. */
    method ReturnWork() returns (v: nat)
      requires Running(NULL) && M.ID_HANDLER_A <= currentTcb <= M.ID_HANDLER_B
      requires abs.blocks[currentTcb].v1 != []
      modifies this
      ensures Running(v) && v < |packets| && currentTcb == old(currentTcb)
      ensures var b := old(abs).blocks[currentTcb];
        abs == M.SetBlock(old(abs), currentTcb, b.(v1 := b.v1[1..])).(flight := [b.v1[0]])
    {
      hide Lists, Linked, StateWord;
      var i := currentTcb;
      ghost var b := abs.blocks[i];
      HandlerAt(packets, places, blocks, abs.blocks, i);
      PopLinked(packets, places, blocks[i].task.v1, b.v1, InV1(i));
      v := blocks[i].task.v1;
      blocks := blocks[i := blocks[i].(task := blocks[i].task.(v1 := packets[v].link))];
      places := places[v := InFlight];
      abs := M.SetBlock(abs, i, b.(v1 := b.v1[1..])).(flight := [b.v1[0]]);
      SameState(b, abs.blocks[i]);
      V1Changed(packets, packets, old(places), places, old(blocks), i, packets[v].link, old(abs.blocks), abs.blocks[i]);
    }

    method HandlerRun(packet: int) returns (next: int)
      requires Running(packet) && M.ID_HANDLER_A <= currentTcb <= M.ID_HANDLER_B && NULL <= packet < |packets|
      modifies this
      ensures Valid() && currentTcb == old(currentTcb) && abs == M.HandlerRun(old(abs)) && next == abs.current
    {
      hide Lists, Linked, StateWord, M.Queue, M.SuspendCurrent, M.ConsumeLetter;
      var i := currentTcb;
      if packet != NULL {
        if packets[packet].kind == Work {
          StoreWork(packet);
        } else {
          StoreDevice(packet);
        }
      }
      assert abs == M.SetBlock(old(abs), i, M.HandlerStore(old(abs).blocks[i], old(abs).flight)).(flight := []);
      HandlerAt(packets, places, blocks, abs.blocks, i);
      LinkedHead(packets, places, blocks[i].task.v1, abs.blocks[i].v1, InV1(i));
      LinkedHead(packets, places, blocks[i].task.v2, abs.blocks[i].v2, InV2(i));
      var task := blocks[i].task;
      if task.v1 != NULL {
        if packets[task.v1].a1 < DATA_SIZE {
          if task.v2 != NULL {
            var v := SendLetter();
            next := Queue(v);
            return;
          }
        } else {
          var v := ReturnWork();
          next := Queue(v);
          return;
        }
      }
      next := SuspendCurrent();
    }

    /** Runs the current task on its first packet, if it is suspended and has one. */
    method Run() returns (next: int)
      requires Valid() && M.Active(abs) && M.Inv(abs) && currentTcb == abs.current == currentId
      requires !M.IsHeldOrSuspended(abs.blocks[currentTcb])
      modifies this
      ensures Valid() && currentTcb == old(currentTcb) && abs == M.Step(old(abs)) && next == abs.current
    {
      hide Lists, Linked, StateWord, IsSuspendedRunnable, M.BlockInv, M.IdleRun, M.WorkerRun, M.HandlerRun, M.DeviceRun;
      M.TakeKeepsInv(abs);
      assert abs == abs.(currentId := abs.current);
      var packet := TakePacket();
      if currentTcb == M.ID_IDLE {
        next := IdleRun();
      } else if currentTcb == M.ID_WORKER {
        next := WorkerRun(packet);
      } else if currentTcb <= M.ID_HANDLER_B {
        next := HandlerRun(packet);
      } else {
        next := DeviceRun(packet);
      }
    }

    method TakePacket() returns (packet: int)
      requires Valid() && M.Active(abs) && M.Inv(abs) && currentTcb == abs.current
      modifies this
      ensures Running(packet) && NULL <= packet < |packets| && currentTcb == old(currentTcb)
      ensures currentId == old(currentId)
      ensures M.BlockInv(old(abs.current), old(abs.blocks)[old(abs.current)])
      ensures abs == M.Take(old(abs))
    {
      hide Lists, Linked, StateWord, IsSuspendedRunnable;
      ghost var b := abs.blocks[currentTcb];
      assert M.BlockInv(currentTcb, b);
      StateBits(b, []);
      if IsSuspendedRunnable(blocks[currentTcb].state) {
        packet := PopPacket();
      } else {
        packet := NULL;
        abs := M.Take(abs);
      }
    }

    /** The first packet of the current task, which becomes running, or runnable if there are more. */
    method PopPacket() returns (packet: nat)
      requires Valid() && M.Active(abs) && currentTcb == abs.current && abs.flight == []
      requires var b := abs.blocks[currentTcb]; b.suspended && b.runnable && !b.held && b.queue != []
      modifies `blocks, `places, `abs
      ensures Running(packet) && packet < |packets| && abs == M.Take(old(abs))
    {
      hide Lists, Linked, StateWord;
      var i := currentTcb;
      ghost var b := abs.blocks[i];
      QueueAt(packets, places, blocks, abs.blocks, i);
      StateBits(b, b.queue[1..]);
      PopLinked(packets, places, blocks[i].queue, b.queue, InQueue(i));
      packet := blocks[i].queue;
      var rest := packets[packet].link;
      LinkedHead(packets, places[packet := InFlight], rest, b.queue[1..], InQueue(i));
      blocks := blocks[i := blocks[i].(queue := rest, state := if rest == NULL then STATE_RUNNING else STATE_RUNNABLE)];
      places := places[packet := InFlight];
      abs := M.Take(abs);
      QueueChanged(packets, packets, old(places), places, old(blocks), i, blocks[i], old(abs.blocks), abs.blocks[i]);
    }

    /** One turn of the loop: skips a block that is held or suspended, and runs the task of any other. */
    method Turn()
      requires Valid() && M.Inv(abs) && M.Active(abs) && currentTcb == abs.current
      modifies this
      ensures Valid() && currentTcb == abs.current && abs == M.Step(old(abs))
    {
      hide Lists, Linked, StateWord, IsHeldOrSuspended, M.BlockInv, M.RunTask, M.Take;
      StateBits(abs.blocks[currentTcb], []);
      if IsHeldOrSuspended(blocks[currentTcb].state) {
        currentTcb := blocks[currentTcb].link;
        abs := abs.(current := abs.current - 1);
      } else {
        M.StepSetsCurrentId(abs);
        currentId := blocks[currentTcb].id;
        abs := abs.(currentId := currentId);
        var next := Run();
        currentTcb := next;
      }
    }

    /** Runs until the list of blocks is exhausted: the final state is one the machine reaches, and it is
        the state in which the idle task has used up its count and holds itself. */
    method Schedule() returns (ghost turns: nat)
      requires Valid() && M.Inv(abs) && M.Active(abs) && abs.current == list && abs.count >= 1
      modifies this
      ensures Valid() && M.Inv(abs) && currentTcb == NULL
      ensures abs == M.Run(old(abs), turns) && abs.count == 0 && abs.blocks[M.ID_IDLE].held
    {
      hide Lists, Linked, StateWord, M.Step, M.BlockInv, M.RankOf;
      currentTcb := list;
      turns := 0;
      while currentTcb != NULL
        invariant Valid() && M.Inv(abs) && currentTcb == abs.current
        invariant abs.current != M.NO_TASK ==> abs.count >= 1
        invariant abs == M.Run(old(abs), turns)
        decreases abs.count, M.RankOf(abs).devices, M.RankOf(abs).mail, M.RankOf(abs).phase, M.RankOf(abs).queued,
                  M.RankOf(abs).awake, abs.current + 1
      {
        M.StepDescends(abs);
        M.StepCounts(abs);
        M.RunUnroll(old(abs), turns);
        Turn();
        turns := turns + 1;
      }
    }
  }

  /** The blocks of the benchmark, with the three queues that are not empty. */
  function InitialBlocks(count: int, work: int, mailA: int, mailB: int): seq<Tcb> {
    [NewTcb(NULL, M.ID_IDLE, 0, NULL, Idle(1, count)).(state := STATE_RUNNING),
     NewTcb(M.ID_IDLE, M.ID_WORKER, 1000, work, Worker(M.ID_HANDLER_A, 0)),
     NewTcb(M.ID_WORKER, M.ID_HANDLER_A, 2000, mailA, Handler(NULL, NULL)),
     NewTcb(M.ID_HANDLER_A, M.ID_HANDLER_B, 3000, mailB, Handler(NULL, NULL)),
     NewTcb(M.ID_HANDLER_B, M.ID_DEVICE_A, 4000, NULL, Task.Device(NULL)),
     NewTcb(M.ID_DEVICE_A, M.ID_DEVICE_B, 5000, NULL, Task.Device(NULL))]
  }

  lemma InitialLists(pool: seq<Packet>, places: seq<Place>, count: int, heads: (int, int, int),
                     w: seq<PacketValue>, a: seq<PacketValue>, b: seq<PacketValue>)
    requires Linked(pool, places, heads.0, w, InQueue(1))
    requires Linked(pool, places, heads.1, a, InQueue(2))
    requires Linked(pool, places, heads.2, b, InQueue(3))
    ensures Lists(pool, places, InitialBlocks(count, heads.0, heads.1, heads.2), M.Initial(count, w, a, b).blocks)
    ensures heads.0 == NULL <==> w == []
    ensures heads.1 == NULL <==> a == []
    ensures heads.2 == NULL <==> b == []
  {
  }

  lemma InitialStates(count: int, heads: (int, int, int), w: seq<PacketValue>, a: seq<PacketValue>, b: seq<PacketValue>)
    requires heads.0 == NULL <==> w == []
    requires heads.1 == NULL <==> a == []
    requires heads.2 == NULL <==> b == []
    ensures var blocks, bs := InitialBlocks(count, heads.0, heads.1, heads.2), M.Initial(count, w, a, b).blocks;
      forall i :: 0 <= i < M.NUMBER_OF_IDS ==>
        && blocks[i].link == i - 1 && blocks[i].id == i && blocks[i].priority == 1000 * i
        && blocks[i].state == StateWord(bs[i])
    ensures var blocks, s := InitialBlocks(count, heads.0, heads.1, heads.2), M.Initial(count, w, a, b);
      && |blocks| == |s.blocks| == M.NUMBER_OF_IDS
      && s.queueCount == s.holdCount == 0 && s.currentId == NULL && s.flight == []
      && blocks[0].task == Idle(s.seed, s.count) && blocks[1].task == Worker(s.destination, s.letter)
      && blocks[2].task.Handler? && blocks[3].task.Handler? && blocks[4].task.Device? && blocks[5].task.Device?
  {
  }

  /** The three queues that the benchmark starts with, in one pool of packets. */
  method NewQueues(work: nat, mailA: nat, mailB: nat)
    returns (pool: seq<Packet>, heads: (int, int, int), ghost places: seq<Place>,
             ghost w: seq<PacketValue>, ghost a: seq<PacketValue>, ghost b: seq<PacketValue>)
    ensures |w| == work && |a| == mailA && |b| == mailB && M.Wired(w, a, b) && M.Numbered(w, a, b)
    ensures |pool| == |places| == work + mailA + mailB
    ensures Linked(pool, places, heads.0, w, InQueue(1))
    ensures Linked(pool, places, heads.1, a, InQueue(2))
    ensures Linked(pool, places, heads.2, b, InQueue(3))
  {
    hide Linked;
    var pool1, queue1, pool2, queue2, queue3;
    ghost var places1, places2;
    pool1, queue1, places1, w := NewQueue([], work, M.ID_WORKER, Work, [], InQueue(1));
    pool2, queue2, places2, a := NewQueue(pool1, mailA, M.ID_DEVICE_A, Kind.Device, places1, InQueue(2));
    pool, queue3, places, b := NewQueue(pool2, mailB, M.ID_DEVICE_B, Kind.Device, places2, InQueue(3));
    heads := (queue1, queue2, queue3);
    LinkedGrows(pool1, pool, places1, places, queue1, w, InQueue(1));
    LinkedGrows(pool2, pool, places2, places, queue2, a, InQueue(2));
  }

  /** The benchmark's wiring, for any count and any numbers of packets: every packet is in exactly one
      place from the start on, however long the machine runs. */
  method Wire(count: int, work: nat, mailA: nat, mailB: nat)
    returns (scheduler: Scheduler, ghost w: seq<PacketValue>, ghost a: seq<PacketValue>, ghost b: seq<PacketValue>)
    ensures |w| == work && |a| == mailA && |b| == mailB && M.Wired(w, a, b) && M.Numbered(w, a, b)
    ensures M.Inv(M.Initial(count, w, a, b)) && M.EachInOnePlace(M.Initial(count, w, a, b), work + mailA + mailB)
    ensures fresh(scheduler) && scheduler.Valid() && scheduler.abs == M.Initial(count, w, a, b)
    ensures scheduler.list == M.ID_DEVICE_B
  {
    hide Lists, Linked, StateWord, InitialBlocks, M.Initial, M.Inv, M.EachInOnePlace, M.Wired, M.Numbered;
    var pool, heads;
    ghost var places;
    pool, heads, places, w, a, b := NewQueues(work, mailA, mailB);
    M.WholeRun(count, w, a, b);
    InitialLists(pool, places, count, heads, w, a, b);
    InitialStates(count, heads, w, a, b);

    scheduler := new Scheduler();
    scheduler.AddTasks(count, heads.0, heads.1, heads.2);
    scheduler.packets, scheduler.places, scheduler.abs := pool, places, M.Initial(count, w, a, b);
  }

  /** The benchmark, for any count of at least one and any numbers of packets: it comes to an end, in the
      final state of the machine's run. */
  method RunRichards(count: int, work: nat, mailA: nat, mailB: nat)
    returns (scheduler: Scheduler, ghost w: seq<PacketValue>, ghost a: seq<PacketValue>, ghost b: seq<PacketValue>,
             ghost turns: nat)
    requires count >= 1
    ensures |w| == work && |a| == mailA && |b| == mailB && M.Wired(w, a, b) && M.Numbered(w, a, b)
    ensures M.Inv(M.Initial(count, w, a, b)) && M.EachInOnePlace(M.Initial(count, w, a, b), work + mailA + mailB)
    ensures scheduler.Valid() && scheduler.abs == M.Run(M.Initial(count, w, a, b), turns)
    ensures scheduler.currentTcb == NULL && scheduler.abs.current == M.NO_TASK
    ensures scheduler.queueCount ==
      L.Queued(scheduler.abs) - (work + mailA + mailB) + L.TakenIn(M.Initial(count, w, a, b), turns)
    ensures scheduler.holdCount == L.HoldsIn(M.Initial(count, w, a, b), turns)
  {
    hide M.EachInOnePlace, M.Numbered, M.Wired, M.BlockInv, Lists, Linked, StateWord, L.TakenIn, L.HoldsIn, L.Queued;
    scheduler, w, a, b := Wire(count, work, mailA, mailB);
    turns := scheduler.Schedule();
    L.BenchmarkCounters(count, w, a, b, turns);
  }
}
