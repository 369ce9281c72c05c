/**
 The Richards task dispatcher as a state machine over values.

 Six task control blocks are scheduled in the order of their list (5, 4, 3, 2, 1, 0).  A block owns a
 queue of packets and the lists or slot its task keeps; a packet that has been taken out of one place
 and not yet put into another is in `flight`.
 */
module RichardsModel {
  import opened RichardsPackets

  const ID_IDLE := 0
  const ID_WORKER := 1
  const ID_HANDLER_A := 2
  const ID_HANDLER_B := 3
  const ID_DEVICE_A := 4
  const ID_DEVICE_B := 5
  const NUMBER_OF_IDS := 6
  const NO_TASK := -1

  /** A task control block together with the packets its task holds.  A handler keeps work packets in
      `v1` and device packets in `v2`; a device keeps at most one packet in `v1`. */
  datatype Block = Block(held: bool, suspended: bool, runnable: bool,
                         queue: seq<PacketValue>, v1: seq<PacketValue>, v2: seq<PacketValue>)

  /** `current` is NO_TASK once the list of blocks is exhausted. */
  datatype State = State(blocks: seq<Block>, flight: seq<PacketValue>, current: int, currentId: int,
                         queueCount: int, holdCount: int,
                         count: int, seed: bv16, destination: int, letter: int)

  ghost predicate Shape(s: State) {
    |s.blocks| == NUMBER_OF_IDS && NO_TASK <= s.current < NUMBER_OF_IDS
  }

  ghost predicate Active(s: State) {
    Shape(s) && s.current != NO_TASK
  }

  ghost function SetBlock(s: State, i: int, b: Block): State
    requires 0 <= i < |s.blocks|
  {
    s.(blocks := s.blocks[i := b])
  }

  // ----- the scheduler's services -----

  ghost function HoldCurrent(s: State): State
    requires Active(s)
  {
    SetBlock(s, s.current, s.blocks[s.current].(held := true)).(
      holdCount := s.holdCount + 1, current := s.current - 1)
  }

  ghost function SuspendCurrent(s: State): State
    requires Active(s)
  {
    SetBlock(s, s.current, s.blocks[s.current].(suspended := true))
  }

  /** An id without a task stops the scheduler. */
  ghost function Release(s: State, id: int): State
    requires Active(s)
  {
    if !(0 <= id < NUMBER_OF_IDS) then s.(current := NO_TASK)
    else SetBlock(s, id, s.blocks[id].(held := false)).(current := if id > s.current then id else s.current)
  }

  /** Appends the packet in flight to the queue of block `t`; the block takes over when its queue was
      empty and its priority is higher. */
  ghost function CheckPriorityAdd(s: State, t: int): State
    requires Active(s) && |s.flight| == 1 && 0 <= t < NUMBER_OF_IDS
  {
    var b := s.blocks[t];
    SetBlock(s, t, b.(queue := b.queue + s.flight, runnable := b.queue == [] || b.runnable)).(
      flight := [], current := if b.queue == [] && t > s.current then t else s.current)
  }

  /** Sends the packet in flight to the task its id names, stamping it with the sender's id.  An id
      without a task stops the scheduler. */
  ghost function Queue(s: State): State
    requires Active(s) && |s.flight| == 1
  {
    var p := s.flight[0];
    if !(0 <= p.id < NUMBER_OF_IDS) then s.(current := NO_TASK)
    else CheckPriorityAdd(s.(flight := [p.(id := s.currentId)], queueCount := s.queueCount + 1), p.id)
  }

  // ----- the four kinds of task -----

  ghost function IdleRun(s: State): State
    requires Active(s)
  {
    var s' := s.(count := s.count - 1);
    if s'.count == 0 then HoldCurrent(s')
    else Release(s'.(seed := NextSeed(s.seed)), if IsOdd(s.seed) then ID_DEVICE_B else ID_DEVICE_A)
  }

  predicate IsOdd(seed: bv16) {
    seed & 1 != 0
  }

  /** The random bits after one shift. */
  function NextSeed(seed: bv16): bv16 {
    if IsOdd(seed) then (seed >> 1) ^ 0xd008 else seed >> 1
  }

  ghost function DeviceRun(s: State): State
    requires Active(s) && |s.flight| <= 1 && |s.blocks[s.current].v1| <= 1
  {
    var b := s.blocks[s.current];
    if s.flight == [] then
      if b.v1 == [] then SuspendCurrent(s)
      else Queue(SetBlock(s, s.current, b.(v1 := [])).(flight := b.v1))
    else HoldCurrent(SetBlock(s, s.current, b.(v1 := s.flight)).(flight := []))
  }

  function NextLetter(v: int): int {
    if v + 1 > 26 then 1 else v + 1
  }

  function Letters(v: int, n: nat): seq<int>
    decreases n
  {
    if n == 0 then [] else [NextLetter(v)] + Letters(NextLetter(v), n - 1)
  }

  function LetterAfter(v: int, n: nat): int
    decreases n
  {
    if n == 0 then v else LetterAfter(NextLetter(v), n - 1)
  }

  lemma {:induction false} LettersUnroll(v: int, n: nat)
    ensures LetterAfter(v, n + 1) == NextLetter(LetterAfter(v, n))
    ensures Letters(v, n + 1) == Letters(v, n) + [LetterAfter(v, n + 1)]
    decreases n
  {
    if n > 0 {
      LettersUnroll(NextLetter(v), n - 1);
    }
  }

  ghost function WorkerRun(s: State): State
    requires Active(s) && |s.flight| <= 1
  {
    if s.flight == [] then SuspendCurrent(s)
    else
      var destination := if s.destination == ID_HANDLER_A then ID_HANDLER_B else ID_HANDLER_A;
      var p := s.flight[0].(id := destination, a1 := 0, a2 := Letters(s.letter, DATA_SIZE));
      Queue(s.(destination := destination, letter := LetterAfter(s.letter, DATA_SIZE), flight := [p]))
  }

  /** What an array access yields; 0 stands for `undefined`. */
  function At(a: seq<int>, i: int): int {
    if 0 <= i < |a| then a[i] else 0
  }

  ghost function HandlerStore(b: Block, flight: seq<PacketValue>): Block {
    if flight == [] then b
    else if flight[0].kind.Work? then b.(v1 := b.v1 + [flight[0]])
    else b.(v2 := b.v2 + [flight[0]])
  }

  /** The first work packet gives up its next letter to the first device packet. */
  ghost function ConsumeLetter(b: Block): Block
    requires b.v1 != [] && b.v2 != []
  {
    b.(v1 := [b.v1[0].(a1 := b.v1[0].a1 + 1)] + b.v1[1..], v2 := b.v2[1..])
  }

  ghost function HandlerRun(s: State): State
    requires Active(s) && |s.flight| <= 1
  {
    var b := HandlerStore(s.blocks[s.current], s.flight);
    var s' := SetBlock(s, s.current, b).(flight := []);
    if b.v1 == [] then SuspendCurrent(s')
    else
      var w := b.v1[0];
      if w.a1 < DATA_SIZE then
        if b.v2 == [] then SuspendCurrent(s')
        else
          Queue(SetBlock(s', s.current, ConsumeLetter(b)).(flight := [b.v2[0].(a1 := At(w.a2, w.a1))]))
      else
        Queue(SetBlock(s', s.current, b.(v1 := b.v1[1..])).(flight := [w]))
  }

  // ----- one turn of the scheduler's loop -----

  /** Takes the first queued packet when the block is exactly suspended and runnable. */
  ghost function Take(s: State): State
    requires Active(s)
    requires var b := s.blocks[s.current]; b.suspended && b.runnable && !b.held ==> b.queue != []
  {
    var b := s.blocks[s.current];
    if b.suspended && b.runnable && !b.held then
      SetBlock(s, s.current, b.(queue := b.queue[1..], suspended := false, runnable := b.queue[1..] != [])).(
        flight := [b.queue[0]])
    else s.(flight := [])
  }

  ghost function RunTask(s: State): State
    requires Active(s) && |s.flight| <= 1
    requires s.current > ID_HANDLER_B ==> |s.blocks[s.current].v1| <= 1
  {
    if s.current == ID_IDLE then IdleRun(s)
    else if s.current == ID_WORKER then WorkerRun(s)
    else if s.current <= ID_HANDLER_B then HandlerRun(s)
    else DeviceRun(s)
  }

  predicate IsHeldOrSuspended(b: Block) {
    b.held || (b.suspended && !b.runnable)
  }

  ghost function Step(s: State): State
    requires Active(s) && Inv(s)
  {
    if IsHeldOrSuspended(s.blocks[s.current]) then s.(current := s.current - 1)
    else RunTask(Take(s.(currentId := s.current)))
  }

  // ----- the invariant -----

  predicate DevicePacket(p: PacketValue, id: int) {
    p.kind.Device? && p.id == id
  }

  /** A work packet on its way through a handler: it goes back to the worker and its letters are
      defined. */
  predicate WorkPacket(p: PacketValue) {
    p.kind.Work? && p.id == ID_WORKER && 0 <= p.a1 <= DATA_SIZE && GoodLetters(p.a2)
  }

  predicate GoodLetters(a: seq<int>) {
    |a| == DATA_SIZE && forall i :: 0 <= i < DATA_SIZE ==> 1 <= a[i] <= 26
  }

  predicate HandlerMail(p: PacketValue, handler: int) {
    WorkPacket(p) || DevicePacket(p, handler + 2)
  }

  ghost predicate BlockInv(i: int, b: Block) {
    && (b.runnable <==> b.queue != [])
    && (i == ID_IDLE ==> b.queue == [] && b.v1 == [] && b.v2 == [] && !b.suspended)
    && (i == ID_WORKER ==>
          && !b.held && b.v1 == [] && b.v2 == []
          && forall k :: 0 <= k < |b.queue| ==> b.queue[k].kind.Work?)
    && (ID_HANDLER_A <= i <= ID_HANDLER_B ==>
          && !b.held
          && (forall k :: 0 <= k < |b.queue| ==> HandlerMail(b.queue[k], i))
          && (forall k :: 0 <= k < |b.v1| ==> WorkPacket(b.v1[k]))
          && (forall k :: 0 <= k < |b.v2| ==> DevicePacket(b.v2[k], i + 2)))
    && (ID_DEVICE_A <= i <= ID_DEVICE_B ==>
          && b.v2 == [] && |b.v1| <= 1
          && (forall k :: 0 <= k < |b.queue| ==> DevicePacket(b.queue[k], i - 2))
          && (forall k :: 0 <= k < |b.v1| ==> DevicePacket(b.v1[k], i - 2))
          && (b.v1 != [] ==> !b.suspended)
          && (b.held ==> b.v1 != []))
  }

  /** What holds while a task runs; the packet in flight is unconstrained. */
  ghost predicate MidInv(s: State) {
    && Active(s)
    && (forall i :: 0 <= i < NUMBER_OF_IDS ==> BlockInv(i, s.blocks[i]))
    && 0 <= s.letter <= 26
    && !s.blocks[ID_IDLE].held
  }

  /** What holds whenever the scheduler's loop tests its condition. */
  ghost predicate Inv(s: State) {
    && Shape(s)
    && s.flight == []
    && (forall i :: 0 <= i < NUMBER_OF_IDS ==> BlockInv(i, s.blocks[i]))
    && 0 <= s.letter <= 26
    && (s.blocks[ID_IDLE].held ==> s.count == 0)
    && (s.blocks[ID_IDLE].held <==> s.current == NO_TASK)
  }

  // ----- every step keeps the invariant -----

  lemma {:induction false} LettersAreGood(v: int, n: nat)
    requires 0 <= v <= 26
    ensures |Letters(v, n)| == n && forall i :: 0 <= i < n ==> 1 <= Letters(v, n)[i] <= 26
    ensures 0 <= LetterAfter(v, n) <= 26
    decreases n
  {
    if n > 0 {
      LettersAreGood(NextLetter(v), n - 1);
    }
  }

  /** Whether task `i` may find `p` in its queue. */
  predicate Accepts(i: int, p: PacketValue) {
    if i == ID_WORKER then p.kind.Work?
    else if ID_HANDLER_A <= i <= ID_HANDLER_B then HandlerMail(p, i)
    else ID_DEVICE_A <= i <= ID_DEVICE_B && DevicePacket(p, i - 2)
  }

  lemma QueueKeepsInv(s: State)
    requires MidInv(s) && |s.flight| == 1
    requires Accepts(s.flight[0].id, s.flight[0].(id := s.currentId))
    ensures Inv(Queue(s))
  {
    var p := s.flight[0];
    var b' := Queue(s).blocks[p.id];
    assert BlockInv(p.id, b');
  }

  lemma TakeKeepsInv(s: State)
    requires Active(s) && Inv(s) && !IsHeldOrSuspended(s.blocks[s.current])
    ensures MidInv(Take(s)) && Take(s).current == s.current && |Take(s).flight| <= 1
    ensures !Take(s).blocks[s.current].suspended && !Take(s).blocks[s.current].held
    ensures Take(s).flight != [] ==> Accepts(s.current, Take(s).flight[0]) && s.blocks[s.current].suspended
    ensures Take(s).flight == [] ==> !s.blocks[s.current].suspended && Take(s) == s
    ensures Take(s).blocks[s.current].v1 == s.blocks[s.current].v1
  {
    var b := s.blocks[s.current];
    assert BlockInv(s.current, b);
    assert BlockInv(s.current, Take(s).blocks[s.current]);
  }

  lemma IdleKeepsInv(s: State)
    requires MidInv(s) && s.current == ID_IDLE && s.flight == []
    ensures Inv(IdleRun(s))
  {
    forall i | 0 <= i < NUMBER_OF_IDS
      ensures BlockInv(i, IdleRun(s).blocks[i])
    {
      assert BlockInv(i, s.blocks[i]);
    }
  }

  lemma WorkerKeepsInv(s: State)
    requires MidInv(s) && s.current == s.currentId == ID_WORKER && |s.flight| <= 1
    requires s.flight != [] ==> Accepts(ID_WORKER, s.flight[0])
    ensures Inv(WorkerRun(s))
  {
    LettersAreGood(s.letter, DATA_SIZE);
    if s.flight != [] {
      var destination := if s.destination == ID_HANDLER_A then ID_HANDLER_B else ID_HANDLER_A;
      var p := s.flight[0].(id := destination, a1 := 0, a2 := Letters(s.letter, DATA_SIZE));
      QueueKeepsInv(s.(destination := destination, letter := LetterAfter(s.letter, DATA_SIZE), flight := [p]));
    }
  }

  lemma DeviceKeepsInv(s: State)
    requires MidInv(s) && ID_DEVICE_A <= s.current == s.currentId && |s.flight| <= 1
    requires s.flight != [] ==> Accepts(s.current, s.flight[0]) && s.blocks[s.current].v1 == []
    requires !s.blocks[s.current].suspended && !s.blocks[s.current].held
    ensures Inv(DeviceRun(s))
  {
    var b := s.blocks[s.current];
    assert BlockInv(s.current, b);
    if s.flight == [] && b.v1 != [] {
      assert BlockInv(s.current, b.(v1 := []));
      QueueKeepsInv(SetBlock(s, s.current, b.(v1 := [])).(flight := b.v1));
    } else {
      assert BlockInv(s.current, DeviceRun(s).blocks[s.current]);
    }
  }

  lemma HandlerStoreKeepsInv(i: int, b: Block, flight: seq<PacketValue>)
    requires ID_HANDLER_A <= i <= ID_HANDLER_B && BlockInv(i, b) && |flight| <= 1
    requires flight != [] ==> Accepts(i, flight[0])
    ensures BlockInv(i, HandlerStore(b, flight))
  {
  }

  lemma ConsumeLetterKeepsInv(i: int, b: Block)
    requires ID_HANDLER_A <= i <= ID_HANDLER_B && BlockInv(i, b)
    requires b.v1 != [] && b.v2 != [] && b.v1[0].a1 < DATA_SIZE
    ensures BlockInv(i, ConsumeLetter(b))
  {
  }

  lemma HandlerKeepsInv(s: State)
    requires MidInv(s) && ID_HANDLER_A <= s.current == s.currentId <= ID_HANDLER_B && |s.flight| <= 1
    requires s.flight != [] ==> Accepts(s.current, s.flight[0])
    ensures Inv(HandlerRun(s))
  {
    hide Queue, HandlerStore, ConsumeLetter;
    HandlerStoreKeepsInv(s.current, s.blocks[s.current], s.flight);
    var b := HandlerStore(s.blocks[s.current], s.flight);
    var s' := SetBlock(s, s.current, b).(flight := []);
    if b.v1 == [] || (b.v1[0].a1 < DATA_SIZE && b.v2 == []) {
      assert BlockInv(s.current, b.(suspended := true));
    } else if b.v1[0].a1 < DATA_SIZE {
      ConsumeLetterKeepsInv(s.current, b);
      QueueKeepsInv(SetBlock(s', s.current, ConsumeLetter(b)).(
          flight := [b.v2[0].(a1 := At(b.v1[0].a2, b.v1[0].a1))]));
    } else {
      assert BlockInv(s.current, b.(v1 := b.v1[1..]));
      QueueKeepsInv(SetBlock(s', s.current, b.(v1 := b.v1[1..])).(flight := [b.v1[0]]));
    }
  }

  /** Safety of one turn of the loop: routing, the runnable bit, the device slot and the letters. */
  lemma StepKeepsInv(s: State)
    requires Active(s) && Inv(s)
    ensures Inv(Step(s))
  {
    if !IsHeldOrSuspended(s.blocks[s.current]) {
      var s' := s.(currentId := s.current);
      TakeKeepsInv(s');
      var t := Take(s');
      if s.current == ID_IDLE {
        IdleKeepsInv(t);
      } else if s.current == ID_WORKER {
        WorkerKeepsInv(t);
      } else if s.current <= ID_HANDLER_B {
        HandlerKeepsInv(t);
      } else {
        assert BlockInv(s.current, s.blocks[s.current]);
        DeviceKeepsInv(t);
      }
    }
  }

  // ----- conservation: a packet is in exactly one place -----

  ghost function Sum(q: seq<PacketValue>, w: PacketValue -> nat): nat {
    if q == [] then 0 else w(q[0]) + Sum(q[1..], w)
  }

  lemma {:induction false} SumAppend(q: seq<PacketValue>, p: PacketValue, w: PacketValue -> nat)
    ensures Sum(q + [p], w) == Sum(q, w) + w(p)
  {
    if q == [] {
      assert Sum([p], w) == w(p) + Sum([], w);
    } else {
      assert (q + [p])[1..] == q[1..] + [p];
      SumAppend(q[1..], p, w);
    }
  }

  lemma SumOne(p: PacketValue, w: PacketValue -> nat)
    ensures Sum([p], w) == w(p)
  {
    assert Sum([p][1..], w) == 0;
  }

  lemma SumNone(w: PacketValue -> nat)
    ensures Sum([], w) == 0
  {
  }

  ghost function IsPacket(ref: nat): PacketValue -> nat {
    (p: PacketValue) => if p.ref == ref then 1 else 0
  }

  ghost function Places(b: Block, ref: nat): nat {
    Sum(b.queue, IsPacket(ref)) + Sum(b.v1, IsPacket(ref)) + Sum(b.v2, IsPacket(ref))
  }

  /** The number of places, over all queues, lists, slots and the hand of the running task, that hold
      the packet `ref`. */
  ghost function Census(s: State, ref: nat): nat
    requires Shape(s)
  {
    Sum(s.flight, IsPacket(ref))
    + Places(s.blocks[0], ref) + Places(s.blocks[1], ref) + Places(s.blocks[2], ref)
    + Places(s.blocks[3], ref) + Places(s.blocks[4], ref) + Places(s.blocks[5], ref)
  }

  lemma SetBlockCensus(s: State, i: int, b: Block, ref: nat)
    requires Shape(s) && 0 <= i < NUMBER_OF_IDS
    ensures Census(SetBlock(s, i, b), ref) == Census(s, ref) - Places(s.blocks[i], ref) + Places(b, ref)
  {
  }

  lemma QueueConserves(s: State, ref: nat)
    requires Active(s) && |s.flight| == 1
    ensures Census(Queue(s), ref) == Census(s, ref)
  {
    hide Sum;
    SumNone(IsPacket(ref));
    var p := s.flight[0];
    if 0 <= p.id < NUMBER_OF_IDS {
      SumAppend(s.blocks[p.id].queue, p.(id := s.currentId), IsPacket(ref));
      SetBlockCensus(s, p.id, Queue(s).blocks[p.id], ref);
      assert s.flight == [p];
      SumOne(p, IsPacket(ref));
    }
  }

  lemma TakeConserves(s: State, ref: nat)
    requires Active(s) && Inv(s) && !IsHeldOrSuspended(s.blocks[s.current])
    ensures Census(Take(s), ref) == Census(s, ref)
  {
    assert BlockInv(s.current, s.blocks[s.current]);
    hide BlockInv;
    var b := s.blocks[s.current];
    SetBlockCensus(s, s.current, Take(s).blocks[s.current], ref);
    if Take(s).flight != [] {
      SumOne(b.queue[0], IsPacket(ref));
      assert Sum(b.queue, IsPacket(ref)) == IsPacket(ref)(b.queue[0]) + Sum(b.queue[1..], IsPacket(ref));
      hide Sum;
      SumNone(IsPacket(ref));
      assert Places(b, ref) == Places(Take(s).blocks[s.current], ref) + Sum(Take(s).flight, IsPacket(ref));
    }
  }

  lemma DeviceConserves(s: State, ref: nat)
    requires Active(s) && |s.flight| <= 1 && |s.blocks[s.current].v1| <= 1
    requires s.flight != [] ==> s.blocks[s.current].v1 == []
    ensures Census(DeviceRun(s), ref) == Census(s, ref)
  {
    hide Queue, Sum;
    SumNone(IsPacket(ref));
    var b := s.blocks[s.current];
    if s.flight == [] && b.v1 != [] {
      SetBlockCensus(s, s.current, b.(v1 := []), ref);
      QueueConserves(SetBlock(s, s.current, b.(v1 := [])).(flight := b.v1), ref);
    } else {
      SetBlockCensus(s, s.current, DeviceRun(s).blocks[s.current], ref);
    }
  }

  lemma HandlerStoreConserves(b: Block, flight: seq<PacketValue>, ref: nat)
    requires |flight| <= 1
    ensures Places(HandlerStore(b, flight), ref) == Places(b, ref) + Sum(flight, IsPacket(ref))
  {
    if flight != [] {
      var p := flight[0];
      assert flight == [p];
      SumOne(p, IsPacket(ref));
      SumAppend(if p.kind.Work? then b.v1 else b.v2, p, IsPacket(ref));
    }
  }

  lemma HandlerSendConserves(b: Block, letter: int, ref: nat)
    ensures Places(b.(suspended := true), ref) == Places(b, ref)
    ensures b.v1 != [] && b.v2 != [] ==>
      Places(ConsumeLetter(b), ref) + Sum([b.v2[0].(a1 := letter)], IsPacket(ref)) == Places(b, ref)
    ensures b.v1 != [] ==> Places(b.(v1 := b.v1[1..]), ref) + Sum([b.v1[0]], IsPacket(ref)) == Places(b, ref)
  {
    if b.v1 != [] {
      SumOne(b.v1[0], IsPacket(ref));
      if b.v2 != [] {
        SumOne(b.v2[0].(a1 := letter), IsPacket(ref));
        assert ConsumeLetter(b).v1[1..] == b.v1[1..];
      }
    }
  }

  lemma HandlerConserves(s: State, ref: nat)
    requires Active(s) && |s.flight| <= 1
    ensures Census(HandlerRun(s), ref) == Census(s, ref)
  {
    hide Queue, Places, Sum, HandlerStore, ConsumeLetter;
    SumNone(IsPacket(ref));
    var b := HandlerStore(s.blocks[s.current], s.flight);
    HandlerStoreConserves(s.blocks[s.current], s.flight, ref);
    SetBlockCensus(s, s.current, b, ref);
    var s' := SetBlock(s, s.current, b).(flight := []);
    if b.v1 == [] || (b.v1[0].a1 < DATA_SIZE && b.v2 == []) {
      HandlerSendConserves(b, 0, ref);
      SetBlockCensus(s', s.current, b.(suspended := true), ref);
    } else {
      var w := b.v1[0];
      HandlerSendConserves(b, At(w.a2, w.a1), ref);
      var sent := if w.a1 < DATA_SIZE then ConsumeLetter(b) else b.(v1 := b.v1[1..]);
      SetBlockCensus(s', s.current, sent, ref);
      QueueConserves(SetBlock(s', s.current, sent).(
          flight := [if w.a1 < DATA_SIZE then b.v2[0].(a1 := At(w.a2, w.a1)) else w]), ref);
    }
  }

  lemma WorkerConserves(s: State, ref: nat)
    requires Active(s) && |s.flight| <= 1
    ensures Census(WorkerRun(s), ref) == Census(s, ref)
  {
    if s.flight == [] {
      SetBlockCensus(s, s.current, s.blocks[s.current].(suspended := true), ref);
    } else {
      var destination := if s.destination == ID_HANDLER_A then ID_HANDLER_B else ID_HANDLER_A;
      var p := s.flight[0].(id := destination, a1 := 0, a2 := Letters(s.letter, DATA_SIZE));
      assert s.flight == [s.flight[0]];
      SumOne(s.flight[0], IsPacket(ref));
      SumOne(p, IsPacket(ref));
      QueueConserves(s.(destination := destination, letter := LetterAfter(s.letter, DATA_SIZE), flight := [p]), ref);
    }
  }

  lemma IdleConserves(s: State, ref: nat)
    requires Active(s)
    ensures Census(IdleRun(s), ref) == Census(s, ref)
  {
    var i := if s.count == 1 then s.current else if IsOdd(s.seed) then ID_DEVICE_B else ID_DEVICE_A;
    SetBlockCensus(s, i, IdleRun(s).blocks[i], ref);
  }

  lemma RunTaskConserves(s: State, ref: nat)
    requires Active(s) && |s.flight| <= 1
    requires s.current > ID_HANDLER_B ==>
      |s.blocks[s.current].v1| <= 1 && (s.flight != [] ==> s.blocks[s.current].v1 == [])
    ensures Census(RunTask(s), ref) == Census(s, ref)
  {
    hide IdleRun, WorkerRun, HandlerRun, DeviceRun, Census;
    if s.current == ID_IDLE {
      IdleConserves(s, ref);
    } else if s.current == ID_WORKER {
      WorkerConserves(s, ref);
    } else if s.current <= ID_HANDLER_B {
      HandlerConserves(s, ref);
    } else {
      DeviceConserves(s, ref);
    }
  }

  /** No step duplicates or loses a packet; in particular a full device slot is never overwritten. */
  lemma StepConserves(s: State, ref: nat)
    requires Active(s) && Inv(s)
    ensures Inv(Step(s)) && Census(Step(s), ref) == Census(s, ref)
  {
    hide RunTask, Take, Places, Sum;
    StepKeepsInv(s);
    assert BlockInv(s.current, s.blocks[s.current]);
    if !IsHeldOrSuspended(s.blocks[s.current]) {
      var s' := s.(currentId := s.current);
      TakeKeepsInv(s');
      TakeConserves(s', ref);
      RunTaskConserves(Take(s'), ref);
    }
  }

  // ----- termination -----

  ghost function DeviceWeight(p: PacketValue): nat {
    if p.kind.Device? then 1 else 0
  }

  /** A work packet at a handler weighs 2 once its letters are used up; one at the worker weighs 1. */
  ghost function PhaseWeight(p: PacketValue): nat {
    if p.kind.Work? && p.a1 >= DATA_SIZE then 2 else 0
  }

  ghost function DeviceRank(b: Block): nat {
    if b.held then 0 else if b.suspended then 1 else if b.v1 == [] then 2 else 3
  }

  ghost function Mail(b: Block): nat {
    Sum(b.queue, DeviceWeight) + Sum(b.v2, DeviceWeight)
  }

  ghost function Phase(b: Block): nat {
    Sum(b.queue, PhaseWeight) + Sum(b.v1, PhaseWeight)
  }

  ghost function Awake(b: Block): nat {
    if b.suspended then 0 else 1
  }

  /** The termination measure, compared lexicographically. */
  datatype Rank = Rank(runs: int, devices: nat, mail: nat, phase: nat, queued: nat, awake: nat, position: int)

  ghost function RankOf(s: State): (r: Rank)
    requires Shape(s)
    ensures r.runs == s.count && r.position == s.current + 1
  {
    var b := s.blocks;
    Rank(s.count, DeviceRank(b[4]) + DeviceRank(b[5]),
         Mail(b[2]) + Mail(b[3]),
         |b[1].queue| + Phase(b[2]) + Phase(b[3]),
         |b[1].queue| + |b[2].queue| + |b[3].queue|,
         Awake(b[1]) + Awake(b[2]) + Awake(b[3]),
         s.current + 1)
  }

  ghost predicate Below(a: Rank, b: Rank) {
    || a.runs < b.runs
    || (a.runs == b.runs &&
        (|| a.devices < b.devices
         || (a.devices == b.devices &&
             (|| a.mail < b.mail
              || (a.mail == b.mail &&
                  (|| a.phase < b.phase
                   || (a.phase == b.phase &&
                       (|| a.queued < b.queued
                        || (a.queued == b.queued &&
                            (|| a.awake < b.awake
                             || (a.awake == b.awake && a.position < b.position)))))))))))
  }

  lemma DeviceDescends(s: State)
    requires Active(s) && Inv(s) && !IsHeldOrSuspended(s.blocks[s.current]) && ID_DEVICE_A <= s.current
    ensures RankOf(Step(s)).runs == s.count && RankOf(Step(s)).devices < RankOf(s).devices
  {
    hide HandlerRun, WorkerRun, IdleRun, MidInv, Sum, Mail, Phase;
    assert BlockInv(s.current, s.blocks[s.current]);
    StepKeepsInv(s);
    TakeKeepsInv(s.(currentId := s.current));
  }

  lemma WorkerDescends(s: State)
    requires Active(s) && Inv(s) && !IsHeldOrSuspended(s.blocks[s.current]) && s.current == ID_WORKER
    ensures Below(RankOf(Step(s)), RankOf(s))
  {
    hide HandlerRun, DeviceRun, IdleRun, MidInv, Sum;
    StepKeepsInv(s);
    TakeKeepsInv(s.(currentId := s.current));
    var t := Take(s.(currentId := s.current));
    if t.flight != [] {
      var destination := if s.destination == ID_HANDLER_A then ID_HANDLER_B else ID_HANDLER_A;
      var p := t.flight[0].(id := ID_WORKER, a1 := 0, a2 := Letters(s.letter, DATA_SIZE));
      SumAppend(s.blocks[destination].queue, p, DeviceWeight);
      SumAppend(s.blocks[destination].queue, p, PhaseWeight);
      assert Step(s).blocks[destination].queue == s.blocks[destination].queue + [p];
      assert Step(s).blocks[5 - destination] == s.blocks[5 - destination];
    }
  }

  lemma {:induction false} TakeAndStoreRank(i: int, b: Block, b': Block, flight: seq<PacketValue>)
    requires ID_HANDLER_A <= i <= ID_HANDLER_B && BlockInv(i, b) && |flight| <= 1
    requires flight == [] ==> b' == b
    requires flight != [] ==> b.queue != [] && flight[0] == b.queue[0]
                              && b'.queue == b.queue[1..] && b'.v1 == b.v1 && b'.v2 == b.v2
    ensures Mail(HandlerStore(b', flight)) == Mail(b) && Phase(HandlerStore(b', flight)) == Phase(b)
  {
    if flight != [] {
      var p := flight[0];
      assert HandlerMail(p, i);
      SumAppend(b.v1, p, PhaseWeight);
      SumAppend(b.v2, p, DeviceWeight);
    }
  }

  /** The handler's block after it stored the packet it took. */
  ghost function Stored(s: State): Block
    requires Active(s) && Inv(s) && !IsHeldOrSuspended(s.blocks[s.current])
  {
    var t := Take(s.(currentId := s.current));
    HandlerStore(t.blocks[s.current], t.flight)
  }

  lemma StoredRank(s: State)
    requires Active(s) && Inv(s) && !IsHeldOrSuspended(s.blocks[s.current])
    requires ID_HANDLER_A <= s.current <= ID_HANDLER_B
    ensures var b, b' := s.blocks[s.current], Stored(s);
      && BlockInv(s.current, b') && Mail(b') == Mail(b) && Phase(b') == Phase(b)
      && |b'.queue| <= |b.queue| && (|b'.queue| == |b.queue| ==> Awake(b) == 1)
  {
    var i := s.current;
    TakeKeepsInv(s.(currentId := i));
    var t := Take(s.(currentId := i));
    TakeAndStoreRank(i, s.blocks[i], t.blocks[i], t.flight);
    HandlerStoreKeepsInv(i, t.blocks[i], t.flight);
  }

  lemma ConsumeLetterRank(i: int, b: Block)
    requires ID_HANDLER_A <= i <= ID_HANDLER_B && BlockInv(i, b) && b.v1 != [] && b.v2 != []
    ensures Mail(ConsumeLetter(b)) == Mail(b) - 1
  {
    assert DevicePacket(b.v2[0], i + 2);
  }

  lemma ReturnWorkRank(i: int, b: Block)
    requires ID_HANDLER_A <= i <= ID_HANDLER_B && BlockInv(i, b) && b.v1 != [] && b.v1[0].a1 >= DATA_SIZE
    ensures var b' := b.(v1 := b.v1[1..]); Mail(b') == Mail(b) && Phase(b') == Phase(b) - 2
  {
    assert WorkPacket(b.v1[0]);
  }

  /** How a handler's turn changes the blocks: `b` is the handler's block after storing. */
  ghost predicate HandlerEffect(s: State, s': State, i: int, b: Block)
    requires |s.blocks| == |s'.blocks| == NUMBER_OF_IDS && ID_HANDLER_A <= i <= ID_HANDLER_B
  {
    && s'.count == s.count
    && s'.blocks[5 - i] == s.blocks[5 - i]
    && DeviceRank(s'.blocks[4]) == DeviceRank(s.blocks[4]) && DeviceRank(s'.blocks[5]) == DeviceRank(s.blocks[5])
    && (if b.v1 == [] || (b.v1[0].a1 < DATA_SIZE && b.v2 == []) then
          s'.blocks[i] == b.(suspended := true) && s'.blocks[1] == s.blocks[1]
        else if b.v1[0].a1 < DATA_SIZE then
          s'.blocks[i] == ConsumeLetter(b)
        else
          s'.blocks[i] == b.(v1 := b.v1[1..]) && |s'.blocks[1].queue| == |s.blocks[1].queue| + 1)
  }

  lemma HandlerHasEffect(s: State)
    requires Active(s) && Inv(s) && !IsHeldOrSuspended(s.blocks[s.current])
    requires ID_HANDLER_A <= s.current <= ID_HANDLER_B
    requires BlockInv(s.current, Stored(s))
    ensures |Step(s).blocks| == NUMBER_OF_IDS && HandlerEffect(s, Step(s), s.current, Stored(s))
  {
    hide HandlerStore, ConsumeLetter, HandlerRun, HandlerEffect, Took;
    var t, b := Take(s.(currentId := s.current)), Stored(s);
    HandlerTakes(s);
    if b.v1 == [] || (b.v1[0].a1 < DATA_SIZE && b.v2 == []) {
      HandlerSuspends(s, t, b);
    } else if b.v1[0].a1 < DATA_SIZE {
      HandlerSendsLetter(s, t, b);
    } else {
      HandlerReturnsWork(s, t, b);
    }
  }

  /** `t` is the state after a handler took its packet, and `b` its block after storing it. */
  ghost predicate Took(s: State, t: State, b: Block) {
    && Active(s) && Active(t) && |t.flight| <= 1 && t.currentId == t.current
    && ID_HANDLER_A <= s.current == t.current <= ID_HANDLER_B
    && b == HandlerStore(t.blocks[t.current], t.flight) && BlockInv(s.current, b) && t.count == s.count
    && forall k :: 0 <= k < NUMBER_OF_IDS && k != s.current ==> t.blocks[k] == s.blocks[k]
  }

  lemma HandlerTakes(s: State)
    requires Active(s) && Inv(s) && !IsHeldOrSuspended(s.blocks[s.current])
    requires ID_HANDLER_A <= s.current <= ID_HANDLER_B && BlockInv(s.current, Stored(s))
    ensures var t := Take(s.(currentId := s.current)); Took(s, t, Stored(s)) && Step(s) == HandlerRun(t)
  {
    hide HandlerRun, HandlerStore, BlockInv, MidInv;
    TakeKeepsInv(s.(currentId := s.current));
  }

  lemma HandlerSuspends(s: State, t: State, b: Block)
    requires Took(s, t, b) && (b.v1 == [] || (b.v1[0].a1 < DATA_SIZE && b.v2 == []))
    ensures |HandlerRun(t).blocks| == NUMBER_OF_IDS && HandlerEffect(s, HandlerRun(t), s.current, b)
  {
    hide HandlerStore, BlockInv;
  }

  lemma HandlerSendsLetter(s: State, t: State, b: Block)
    requires Took(s, t, b) && b.v1 != [] && b.v1[0].a1 < DATA_SIZE && b.v2 != []
    ensures |HandlerRun(t).blocks| == NUMBER_OF_IDS && HandlerEffect(s, HandlerRun(t), s.current, b)
  {
    hide HandlerStore, ConsumeLetter;
    assert DevicePacket(b.v2[0], s.current + 2);
  }

  lemma HandlerReturnsWork(s: State, t: State, b: Block)
    requires Took(s, t, b) && b.v1 != [] && b.v1[0].a1 >= DATA_SIZE
    ensures |HandlerRun(t).blocks| == NUMBER_OF_IDS && HandlerEffect(s, HandlerRun(t), s.current, b)
  {
    hide HandlerStore;
    assert WorkPacket(b.v1[0]);
  }

  lemma HandlerEffectDescends(s: State, s': State, i: int, b: Block)
    requires Shape(s) && Shape(s') && ID_HANDLER_A <= i <= ID_HANDLER_B && HandlerEffect(s, s', i, b)
    requires BlockInv(i, b) && Mail(b) == Mail(s.blocks[i]) && Phase(b) == Phase(s.blocks[i])
    requires |b.queue| < |s.blocks[i].queue| || (|b.queue| == |s.blocks[i].queue| && Awake(s.blocks[i]) == 1)
    ensures Below(RankOf(s'), RankOf(s))
  {
    hide BlockInv, Sum, ConsumeLetter;
    if b.v1 == [] || (b.v1[0].a1 < DATA_SIZE && b.v2 == []) {
      assert Mail(s'.blocks[i]) == Mail(b) && Phase(s'.blocks[i]) == Phase(b);
    } else if b.v1[0].a1 < DATA_SIZE {
      ConsumeLetterRank(i, b);
    } else {
      ReturnWorkRank(i, b);
    }
  }

  lemma HandlerDescends(s: State)
    requires Active(s) && Inv(s) && !IsHeldOrSuspended(s.blocks[s.current])
    requires ID_HANDLER_A <= s.current <= ID_HANDLER_B
    ensures Shape(Step(s)) && Below(RankOf(Step(s)), RankOf(s))
  {
    StepKeepsInv(s);
    StoredRank(s);
    HandlerHasEffect(s);
    HandlerEffectDescends(s, Step(s), s.current, Stored(s));
  }

  /** Every turn of the loop moves down in the lexicographic order. */
  lemma StepDescends(s: State)
    requires Active(s) && Inv(s)
    ensures Inv(Step(s)) && Below(RankOf(Step(s)), RankOf(s))
  {
    StepKeepsInv(s);
    if IsHeldOrSuspended(s.blocks[s.current]) {
      assert Step(s).blocks == s.blocks;
    } else if s.current == ID_IDLE {
      assert BlockInv(ID_IDLE, s.blocks[ID_IDLE]);
      assert Step(s).count == s.count - 1;
    } else if s.current == ID_WORKER {
      WorkerDescends(s);
    } else if s.current <= ID_HANDLER_B {
      HandlerDescends(s);
    } else {
      DeviceDescends(s);
    }
  }

  // ----- whole runs -----

  /** The state after at most `n` turns of the loop; the invariant holds at every one of them. */
  ghost function Run(s: State, n: nat): (r: State)
    requires Inv(s)
    ensures Inv(r)
    decreases n
  {
    if n == 0 || s.current == NO_TASK then s
    else
      StepKeepsInv(s);
      Run(Step(s), n - 1)
  }

  lemma {:induction false} RunConserves(s: State, n: nat, ref: nat)
    requires Inv(s)
    ensures Census(Run(s, n), ref) == Census(s, ref)
    decreases n
  {
    hide Step, BlockInv, Census;
    if n > 0 && s.current != NO_TASK {
      StepConserves(s, ref);
      RunConserves(Step(s), n - 1, ref);
    }
  }

  /** The services never touch the idle task's count, and never hold or release the idle task but for
      its own holding. */
  ghost predicate SameIdle(s: State, s': State)
    requires Shape(s)
  {
    |s'.blocks| == NUMBER_OF_IDS && s'.count == s.count && s'.blocks[ID_IDLE].held == s.blocks[ID_IDLE].held
  }

  lemma QueueCounts(s: State)
    requires Active(s) && |s.flight| == 1
    ensures SameIdle(s, Queue(s))
  {
  }

  lemma HandlerCounts(s: State)
    requires Active(s) && |s.flight| <= 1 && s.current != ID_IDLE
    ensures SameIdle(s, HandlerRun(s))
  {
    hide Queue;
    var b := HandlerStore(s.blocks[s.current], s.flight);
    if b.v1 != [] && (b.v1[0].a1 >= DATA_SIZE || b.v2 != []) {
      var w := b.v1[0];
      var s' := SetBlock(s, s.current, b).(flight := []);
      var sent := if w.a1 < DATA_SIZE then ConsumeLetter(b) else b.(v1 := b.v1[1..]);
      QueueCounts(SetBlock(s', s.current, sent).(
          flight := [if w.a1 < DATA_SIZE then b.v2[0].(a1 := At(w.a2, w.a1)) else w]));
    }
  }

  lemma RunTaskCounts(s: State)
    requires Active(s) && |s.flight| <= 1 && !s.blocks[ID_IDLE].held
    requires s.current > ID_HANDLER_B ==> |s.blocks[s.current].v1| <= 1
    ensures |RunTask(s).blocks| == NUMBER_OF_IDS
    ensures RunTask(s).count == if s.current == ID_IDLE then s.count - 1 else s.count
    ensures RunTask(s).blocks[ID_IDLE].held <==> s.current == ID_IDLE && s.count == 1
  {
    hide HandlerRun;
    if ID_HANDLER_A <= s.current <= ID_HANDLER_B {
      HandlerCounts(s);
    }
  }

  lemma StepSetsCurrentId(s: State)
    requires Active(s) && Inv(s) && !IsHeldOrSuspended(s.blocks[s.current])
    ensures Step(s.(currentId := s.current)) == Step(s)
  {
    hide RunTask, Take, BlockInv;
    assert s.(currentId := s.current).(currentId := s.current) == s.(currentId := s.current);
  }

  lemma {:induction false} RunUnroll(s: State, n: nat)
    requires Inv(s) && Run(s, n).current != NO_TASK
    ensures Run(s, n + 1) == Step(Run(s, n))
    decreases n
  {
    hide Step, BlockInv;
    if s.current != NO_TASK {
      StepKeepsInv(s);
      if n == 0 {
        assert Run(Step(s), 0) == Step(s);
      } else {
        RunUnroll(Step(s), n - 1);
      }
    }
  }

  /** Only a turn of the idle task changes its count, and the turn that brings it to zero ends the run. */
  lemma StepCounts(s: State)
    requires Active(s) && Inv(s)
    ensures Step(s).count == if s.current == ID_IDLE then s.count - 1 else s.count
    ensures Step(s).current == NO_TASK <==> s.current == ID_IDLE && s.count == 1
  {
    StepKeepsInv(s);
    hide RunTask;
    assert BlockInv(ID_IDLE, s.blocks[ID_IDLE]);
    if !IsHeldOrSuspended(s.blocks[s.current]) {
      TakeKeepsInv(s.(currentId := s.current));
      assert BlockInv(s.current, s.blocks[s.current]);
      RunTaskCounts(Take(s.(currentId := s.current)));
    }
  }

  ghost function IdleTurns(s: State, n: nat): nat
    requires Inv(s)
    decreases n
  {
    if n == 0 || s.current == NO_TASK then 0
    else
      StepKeepsInv(s);
      (if s.current == ID_IDLE then 1 else 0) + IdleTurns(Step(s), n - 1)
  }

  /** With a positive count the run ends, and it ends at the very turn in which the idle task, having
      run `s.count` times, holds itself. */
  lemma {:induction false} RunEnds(s: State) returns (n: nat)
    requires Inv(s) && Active(s) && s.count >= 1
    ensures Run(s, n).current == NO_TASK && Run(s, n).count == 0 && Run(s, n).blocks[ID_IDLE].held
    ensures forall k: nat :: k < n ==> Run(s, k).current != NO_TASK
    ensures IdleTurns(s, n) == s.count
    decreases s.count, RankOf(s).devices, RankOf(s).mail, RankOf(s).phase, RankOf(s).queued, RankOf(s).awake, s.current
  {
    hide Step, BlockInv, Census;
    StepDescends(s);
    StepCounts(s);
    var t := Step(s);
    if t.current == NO_TASK {
      n := 1;
      assert Run(s, 1) == Run(t, 0);
    } else {
      var m := RunEnds(t);
      n := m + 1;
      assert Run(s, n) == Run(t, m);
      forall k: nat | k < n
        ensures Run(s, k).current != NO_TASK
      {
        if k > 0 {
          assert Run(s, k) == Run(t, k - 1);
        }
      }
    }
  }

  /** Without a positive count the run never ends. */
  lemma {:induction false} RunNeverEnds(s: State, n: nat)
    requires Inv(s) && Active(s) && s.count <= 0
    ensures Run(s, n).current != NO_TASK
    decreases n
  {
    hide Step, BlockInv, Census;
    if n > 0 {
      StepKeepsInv(s);
      StepCounts(s);
      RunNeverEnds(Step(s), n - 1);
    }
  }

  /** `schedule` returns exactly when the idle task was given a positive count. */
  lemma EndsIffCountPositive(s: State)
    requires Inv(s) && Active(s)
    ensures (exists n: nat :: Run(s, n).current == NO_TASK) <==> s.count >= 1
  {
    if s.count >= 1 {
      var n := RunEnds(s);
    } else {
      forall n: nat
        ensures Run(s, n).current != NO_TASK
      {
        RunNeverEnds(s, n);
      }
    }
  }

  // ----- the benchmark's wiring -----

  ghost function QueuedBlock(queue: seq<PacketValue>): Block {
    Block(false, true, queue != [], queue, [], [])
  }

  /** The six tasks as they are wired up, for any packets and any count. */
  ghost function Initial(count: int, work: seq<PacketValue>, mailA: seq<PacketValue>, mailB: seq<PacketValue>): State {
    State([Block(false, false, false, [], [], []), QueuedBlock(work), QueuedBlock(mailA), QueuedBlock(mailB),
           QueuedBlock([]), QueuedBlock([])],
          [], ID_DEVICE_B, NO_TASK, 0, 0, count, 1, ID_HANDLER_A, 0)
  }

  ghost predicate Wired(work: seq<PacketValue>, mailA: seq<PacketValue>, mailB: seq<PacketValue>) {
    && (forall k :: 0 <= k < |work| ==> work[k].kind.Work?)
    && (forall k :: 0 <= k < |mailA| ==> DevicePacket(mailA[k], ID_DEVICE_A))
    && (forall k :: 0 <= k < |mailB| ==> DevicePacket(mailB[k], ID_DEVICE_B))
  }

  lemma InitialInv(count: int, work: seq<PacketValue>, mailA: seq<PacketValue>, mailB: seq<PacketValue>)
    requires Wired(work, mailA, mailB)
    ensures Inv(Initial(count, work, mailA, mailB))
  {
  }

  /** The packets of a queue were created with the numbers from `first` on, each in front of the one before. */
  ghost predicate NumberedFrom(q: seq<PacketValue>, first: nat) {
    forall k :: 0 <= k < |q| ==> q[k].ref == first + |q| - 1 - k
  }

  /** The packets of the three queues are numbered from zero on, one queue after the other. */
  ghost predicate Numbered(work: seq<PacketValue>, mailA: seq<PacketValue>, mailB: seq<PacketValue>) {
    NumberedFrom(work, 0) && NumberedFrom(mailA, |work|) && NumberedFrom(mailB, |work| + |mailA|)
  }

  /** After any number of turns each of the first `total` packets is in one place, and no other is in any. */
  ghost predicate EachInOnePlace(s: State, total: nat)
    requires Inv(s)
  {
    forall n: nat, ref: nat {:trigger Census(Run(s, n), ref)} ::
      Census(Run(s, n), ref) == if ref < total then 1 else 0
  }

  lemma {:induction false} NumberedOnce(q: seq<PacketValue>, first: nat, ref: nat)
    requires NumberedFrom(q, first)
    ensures Sum(q, IsPacket(ref)) == if first <= ref < first + |q| then 1 else 0
  {
    if q != [] {
      assert forall k :: 0 <= k < |q| - 1 ==> q[1..][k] == q[k + 1];
      NumberedOnce(q[1..], first, ref);
    }
  }

  /** The number of places that hold a packet after any number of turns is the number at the start. */
  lemma CensusKept(count: int, work: seq<PacketValue>, mailA: seq<PacketValue>, mailB: seq<PacketValue>, n: nat,
                   ref: nat)
    requires Wired(work, mailA, mailB)
    ensures var s := Initial(count, work, mailA, mailB);
      && Inv(s)
      && Census(Run(s, n), ref) == Sum(work, IsPacket(ref)) + Sum(mailA, IsPacket(ref)) + Sum(mailB, IsPacket(ref))
  {
    var s := Initial(count, work, mailA, mailB);
    InitialInv(count, work, mailA, mailB);
    RunConserves(s, n, ref);
  }

  /** The whole benchmark: after any number of turns every packet that was created is in exactly one place
      and no other packet is in any, and the run ends iff the count is positive. */
  lemma WholeRun(count: int, work: seq<PacketValue>, mailA: seq<PacketValue>, mailB: seq<PacketValue>)
    requires Wired(work, mailA, mailB) && Numbered(work, mailA, mailB)
    ensures var s := Initial(count, work, mailA, mailB);
      && Inv(s) && EachInOnePlace(s, |work| + |mailA| + |mailB|)
      && ((exists n: nat :: Run(s, n).current == NO_TASK) <==> count >= 1)
  {
    hide Step, BlockInv, Census;
    var s := Initial(count, work, mailA, mailB);
    InitialInv(count, work, mailA, mailB);
    forall n: nat, ref: nat
      ensures Census(Run(s, n), ref) == if ref < |work| + |mailA| + |mailB| then 1 else 0
    {
      CensusKept(count, work, mailA, mailB, n, ref);
      NumberedOnce(work, 0, ref);
      NumberedOnce(mailA, |work|, ref);
      NumberedOnce(mailB, |work| + |mailA|, ref);
    }
    EndsIffCountPositive(s);
  }
}
