/**
 What the turns of the Richards scheduler do, field by field, and what that means for whole runs: the counters, the
 random bits, and the letters that the handlers pass on.
 */
module RichardsLaws {
  import opened RichardsPackets
  import opened RichardsModel

  // ----- one turn -----

  /** A task that is held, or suspended without a packet, is passed over. */
  lemma SkippedTurn(s: State)
    requires Active(s) && Inv(s)
    requires var b := s.blocks[s.current]; b.held || (b.suspended && b.queue == [])
    ensures Step(s) == s.(current := s.current - 1)
  {
    assert BlockInv(s.current, s.blocks[s.current]);
  }

  /** The idle task counts down.  In its last turn it holds itself, and before that it releases device A after a zero
      bit and device B after a one. */
  lemma IdleTurn(s: State)
    requires Active(s) && Inv(s) && s.current == 0 && !s.blocks[0].held
    ensures s.count == 1 ==>
      Step(s) == s.(currentId := 0, count := 0, holdCount := s.holdCount + 1, current := -1,
                    blocks := s.blocks[0 := s.blocks[0].(held := true)])
    ensures s.count != 1 ==>
      var d := if IsOdd(s.seed) then 5 else 4;
      Step(s) == s.(currentId := 0, count := s.count - 1, current := d, seed := NextSeed(s.seed),
                    blocks := s.blocks[d := s.blocks[d].(held := false)])
  {
    hide NextSeed, IsOdd;
    assert BlockInv(0, s.blocks[0]);
  }

  /** The bits are shifted, and a one that falls out is mixed in again. */
  lemma SeedTurn(x: bv16)
    ensures IsOdd(x) <==> x % 2 == 1
    ensures NextSeed(x) == if x % 2 == 1 then (x / 2) ^ 53256 else x / 2
  {
  }

  /** From the seed of the benchmark, device B is the first one to be released. */
  lemma FirstSeeds()
    ensures IsOdd(1) && NextSeed(1) == 53256 && !IsOdd(53256) && NextSeed(53256) == 26628
  {
  }

  /** A device keeps a packet that arrives and is held. */
  lemma DeviceStores(s: State)
    requires Active(s) && Inv(s) && 4 <= s.current <= 5
    requires var b := s.blocks[s.current]; !b.held && b.suspended && b.queue != []
    ensures var i, b := s.current, s.blocks[s.current];
      Step(s) == s.(currentId := i, holdCount := s.holdCount + 1, current := i - 1,
                    blocks := s.blocks[i := b.(held := true, suspended := false, runnable := |b.queue| > 1,
                                               queue := b.queue[1..], v1 := [b.queue[0]])])
  {
    assert BlockInv(s.current, s.blocks[s.current]);
  }

  /** A device that was released sends its packet back to its handler; without one it is suspended. */
  lemma DeviceSends(s: State)
    requires Active(s) && Inv(s) && 4 <= s.current <= 5
    requires var b := s.blocks[s.current]; !b.held && !b.suspended
    ensures var i, b := s.current, s.blocks[s.current];
      Step(s) ==
      if b.v1 == [] then s.(currentId := i, blocks := s.blocks[i := b.(suspended := true)])
      else s.(currentId := i, queueCount := s.queueCount + 1,
              blocks := s.blocks[i := b.(v1 := [])]
                                [i - 2 := s.blocks[i - 2].(queue := s.blocks[i - 2].queue + [b.v1[0].(id := i)],
                                                           runnable := true)])
  {
    var i, b := s.current, s.blocks[s.current];
    assert BlockInv(i, b) && BlockInv(i - 2, s.blocks[i - 2]);
    if b.v1 != [] {
      assert DevicePacket(b.v1[0], i - 2) && b.v1 == [b.v1[0]];
    }
  }

  /** The letters that follow `letter` in the alphabet, which starts again after the last one. */
  lemma LettersFollow(letter: int)
    requires 0 <= letter <= 26
    ensures |Letters(letter, 4)| == 4 && LetterAfter(letter, 4) == (letter + 3) % 26 + 1
    ensures forall j :: 0 <= j < 4 ==> Letters(letter, 4)[j] == (letter + j) % 26 + 1
  {
    var a, b := NextLetter(letter), NextLetter(NextLetter(letter));
    var c := NextLetter(b);
    var d := NextLetter(c);
    assert Letters(c, 1) == [d] && Letters(b, 2) == [c, d] && Letters(a, 3) == [b, c, d];
    assert Letters(letter, 4) == [a, b, c, d];
    assert LetterAfter(c, 1) == d && LetterAfter(b, 2) == d && LetterAfter(a, 3) == d;
  }

  /** The worker sends its packet to the other handler, with the next four letters; without one it is suspended. */
  lemma WorkerTurn(s: State) returns (letters: seq<int>)
    requires Active(s) && Inv(s) && s.current == 1
    requires var b := s.blocks[1]; !b.suspended || b.queue != []
    ensures |letters| == 4 && forall j :: 0 <= j < 4 ==> letters[j] == (s.letter + j) % 26 + 1
    ensures var b, d := s.blocks[1], if s.destination == 2 then 3 else 2;
      Step(s) ==
      if !b.suspended then s.(currentId := 1, blocks := s.blocks[1 := b.(suspended := true)])
      else s.(currentId := 1, queueCount := s.queueCount + 1, destination := d, letter := (s.letter + 3) % 26 + 1,
              current := if s.blocks[d].queue == [] then d else 1,
              blocks := s.blocks[1 := b.(suspended := false, runnable := |b.queue| > 1, queue := b.queue[1..])]
                                [d := s.blocks[d].(queue := s.blocks[d].queue
                                                            + [b.queue[0].(id := 1, a1 := 0, a2 := letters)],
                                                   runnable := true)])
  {
    var d := if s.destination == 2 then 3 else 2;
    assert BlockInv(1, s.blocks[1]) && BlockInv(d, s.blocks[d]);
    letters := Letters(s.letter, 4);
    LettersFollow(s.letter);
    hide Letters, LetterAfter;
  }

  /** The block of a handler after it took a packet, if there is one, and put it behind those of its kind. */
  ghost predicate Stores(b: Block, b': Block) {
    if !b.suspended || b.queue == [] then b' == b.(suspended := false)
    else
      var p := b.queue[0];
      b' == b.(suspended := false, runnable := |b.queue| > 1, queue := b.queue[1..],
               v1 := if p.kind == Work then b.v1 + [p] else b.v1,
               v2 := if p.kind == Device then b.v2 + [p] else b.v2)
  }

  /** A handler that has no work, or letters to send and no device packet for them, is suspended. */
  lemma HandlerWaits(s: State, b: Block)
    requires Active(s) && Inv(s) && 2 <= s.current <= 3 && Stores(s.blocks[s.current], b)
    requires !s.blocks[s.current].suspended || s.blocks[s.current].queue != []
    requires b.v1 == [] || (b.v1[0].a1 < 4 && b.v2 == [])
    ensures Step(s) == s.(currentId := s.current, blocks := s.blocks[s.current := b.(suspended := true)])
  {
    assert BlockInv(s.current, s.blocks[s.current]);
  }

  /** A handler with letters to send writes the next letter of its first work packet into its first device packet, and
      sends that to its device. */
  lemma HandlerSends(s: State, b: Block)
    requires Active(s) && Inv(s) && 2 <= s.current <= 3 && Stores(s.blocks[s.current], b)
    requires !s.blocks[s.current].suspended || s.blocks[s.current].queue != []
    requires b.v1 != [] && b.v1[0].a1 < 4 && b.v2 != []
    ensures var i, w, p, d := s.current, b.v1[0], b.v2[0], s.blocks[s.current + 2];
      && 0 <= w.a1 < |w.a2|
      && Step(s) == s.(currentId := i, queueCount := s.queueCount + 1, current := if d.queue == [] then i + 2 else i,
                       blocks := s.blocks[i := b.(v1 := [w.(a1 := w.a1 + 1)] + b.v1[1..], v2 := b.v2[1..])]
                                         [i + 2 := d.(queue := d.queue + [p.(id := i, a1 := w.a2[w.a1])],
                                                      runnable := true)])
  {
    var i := s.current;
    assert BlockInv(i, s.blocks[i]) && BlockInv(i + 2, s.blocks[i + 2]);
    StoredInv(s, b);
    assert WorkPacket(b.v1[0]) && DevicePacket(b.v2[0], i + 2);
    assert s.blocks[i := b][i := ConsumeLetter(b)] == s.blocks[i := ConsumeLetter(b)];
  }

  /** A work packet whose letters are all sent goes back to the worker. */
  lemma HandlerReturns(s: State, b: Block)
    requires Active(s) && Inv(s) && 2 <= s.current <= 3 && Stores(s.blocks[s.current], b)
    requires !s.blocks[s.current].suspended || s.blocks[s.current].queue != []
    requires b.v1 != [] && b.v1[0].a1 >= 4
    ensures var i, w, d := s.current, b.v1[0], s.blocks[1];
      Step(s) == s.(currentId := i, queueCount := s.queueCount + 1,
                    blocks := s.blocks[i := b.(v1 := b.v1[1..])]
                                      [1 := d.(queue := d.queue + [w.(id := i)], runnable := true)])
  {
    var i := s.current;
    assert BlockInv(i, s.blocks[i]) && BlockInv(1, s.blocks[1]);
    StoredInv(s, b);
    assert WorkPacket(b.v1[0]);
    assert s.blocks[i := b][i := b.(v1 := b.v1[1..])] == s.blocks[i := b.(v1 := b.v1[1..])];
  }

  /** All that a handler stores is of the right kind. */
  lemma StoredInv(s: State, b: Block)
    requires Active(s) && Inv(s) && 2 <= s.current <= 3 && Stores(s.blocks[s.current], b)
    ensures forall k :: 0 <= k < |b.v1| ==> WorkPacket(b.v1[k])
    ensures forall k :: 0 <= k < |b.v2| ==> DevicePacket(b.v2[k], s.current + 2)
  {
    assert BlockInv(s.current, s.blocks[s.current]);
    if s.blocks[s.current].queue != [] {
      assert HandlerMail(s.blocks[s.current].queue[0], s.current);
    }
  }

  // ----- the counters -----

  /** The packets in all queues. */
  ghost function Queued(s: State): int
    requires Shape(s)
  {
    |s.blocks[0].queue| + |s.blocks[1].queue| + |s.blocks[2].queue| + |s.blocks[3].queue| + |s.blocks[4].queue|
    + |s.blocks[5].queue|
  }

  /** Whether the next turn takes a packet from a queue. */
  ghost predicate Takes(s: State)
    requires Shape(s)
  {
    s.current != NO_TASK
    && var b := s.blocks[s.current]; !b.held && b.suspended && b.queue != []
  }

  /** The number of blocks that become held from one state to the next. */
  ghost function NewlyHeld(s: State, s': State): int
    requires Shape(s) && Shape(s')
  {
    Rises(s, s', 0) + Rises(s, s', 1) + Rises(s, s', 2) + Rises(s, s', 3) + Rises(s, s', 4) + Rises(s, s', 5)
  }

  ghost function Rises(s: State, s': State, k: nat): int
    requires Shape(s) && Shape(s') && k < NUMBER_OF_IDS
  {
    if !s.blocks[k].held && s'.blocks[k].held then 1 else 0
  }

  /** What a turn does to the counters: one counts the packets that are put into queues, the other one the blocks that
      become held. */
  ghost predicate Counted(s: State, s': State) {
    && Shape(s) && Shape(s')
    && s'.queueCount - s.queueCount == Queued(s') - Queued(s) + (if Takes(s) then 1 else 0)
    && s'.holdCount - s.holdCount == NewlyHeld(s, s')
  }

  lemma StepCounted(s: State)
    requires Active(s) && Inv(s)
    ensures Counted(s, Step(s))
  {
    hide Step;
    var i, b := s.current, s.blocks[s.current];
    assert BlockInv(i, b);
    if b.held || (b.suspended && b.queue == []) {
      SkippedTurn(s);
    } else if i == 0 {
      IdleCounted(s);
    } else if i == 1 {
      WorkerCounted(s);
    } else if i <= 3 {
      HandlerCounted(s);
    } else {
      DeviceCounted(s);
    }
  }

  lemma IdleCounted(s: State)
    requires Active(s) && Inv(s) && s.current == 0 && !s.blocks[0].held
    ensures Counted(s, Step(s))
  {
    hide Step;
    assert BlockInv(0, s.blocks[0]);
    IdleTurn(s);
  }

  lemma WorkerCounted(s: State)
    requires Active(s) && Inv(s) && s.current == 1 && (!s.blocks[1].suspended || s.blocks[1].queue != [])
    ensures Counted(s, Step(s))
  {
    hide Step;
    assert BlockInv(1, s.blocks[1]);
    var letters := WorkerTurn(s);
  }

  lemma DeviceCounted(s: State)
    requires Active(s) && Inv(s) && 4 <= s.current <= 5
    requires var b := s.blocks[s.current]; !b.held && (!b.suspended || b.queue != [])
    ensures Counted(s, Step(s))
  {
    hide Step;
    if s.blocks[s.current].suspended {
      DeviceStores(s);
    } else {
      DeviceSends(s);
    }
  }

  lemma HandlerCounted(s: State)
    requires Active(s) && Inv(s) && 2 <= s.current <= 3
    requires var b := s.blocks[s.current]; !b.held && (!b.suspended || b.queue != [])
    ensures Counted(s, Step(s))
  {
    hide Step, Counted, Inv;
    var i := s.current;
    var b := StoredBlock(s.blocks[i]);
    if b.v1 == [] || (b.v1[0].a1 < 4 && b.v2 == []) {
      HandlerWaits(s, b);
      CountedOne(s, Step(s), i, b.(suspended := true));
    } else if b.v1[0].a1 < 4 {
      HandlerSends(s, b);
      var w, p, d := b.v1[0], b.v2[0], s.blocks[i + 2];
      CountedTwo(s, Step(s), i, b.(v1 := [w.(a1 := w.a1 + 1)] + b.v1[1..], v2 := b.v2[1..]),
                 i + 2, d.(queue := d.queue + [p.(id := i, a1 := w.a2[w.a1])], runnable := true));
    } else {
      HandlerReturns(s, b);
      var d := s.blocks[1];
      CountedTwo(s, Step(s), i, b.(v1 := b.v1[1..]), 1, d.(queue := d.queue + [b.v1[0].(id := i)], runnable := true));
    }
  }

  /** Only the running block changes, and at most takes a packet. */
  lemma CountedOne(s: State, s': State, i: int, b: Block)
    requires Shape(s) && Shape(s') && 0 <= i < 6 && s'.blocks == s.blocks[i := b] && b.held == s.blocks[i].held
    requires |b.queue| == |s.blocks[i].queue| - if Takes(s) then 1 else 0
    requires s'.queueCount == s.queueCount && s'.holdCount == s.holdCount
    ensures Counted(s, s')
  {
  }

  /** The running block at most takes a packet, and another one gets one. */
  lemma CountedTwo(s: State, s': State, i: int, b: Block, j: int, d: Block)
    requires Shape(s) && Shape(s') && 0 <= i < 6 && 0 <= j < 6 && i != j && s'.blocks == s.blocks[i := b][j := d]
    requires b.held == s.blocks[i].held && d.held == s.blocks[j].held
    requires |b.queue| == |s.blocks[i].queue| - if Takes(s) then 1 else 0
    requires |d.queue| == |s.blocks[j].queue| + 1
    requires s'.queueCount == s.queueCount + 1 && s'.holdCount == s.holdCount
    ensures Counted(s, s')
  {
  }

  lemma StoredBlock(b: Block) returns (b': Block)
    ensures Stores(b, b')
    ensures b'.held == b.held && |b'.queue| == |b.queue| - if b.suspended && b.queue != [] then 1 else 0
  {
    if !b.suspended || b.queue == [] {
      b' := b.(suspended := false);
    } else {
      var p := b.queue[0];
      b' := b.(suspended := false, runnable := |b.queue| > 1, queue := b.queue[1..],
               v1 := if p.kind == Work then b.v1 + [p] else b.v1,
               v2 := if p.kind == Device then b.v2 + [p] else b.v2);
    }
  }

  /** How many of the first `n` turns take a packet. */
  ghost function TakenIn(s: State, n: nat): int
    requires Inv(s)
    decreases n
  {
    if n == 0 || s.current == NO_TASK then 0
    else StepKeepsInv(s); (if Takes(s) then 1 else 0) + TakenIn(Step(s), n - 1)
  }

  /** How often a block becomes held in the first `n` turns. */
  ghost function HoldsIn(s: State, n: nat): int
    requires Inv(s)
    decreases n
  {
    if n == 0 || s.current == NO_TASK then 0
    else StepKeepsInv(s); NewlyHeld(s, Step(s)) + HoldsIn(Step(s), n - 1)
  }

  /** Over a run, every packet that is counted is in a queue at the end or was taken from one. */
  lemma {:induction false} RunCounted(s: State, n: nat)
    requires Inv(s)
    ensures Shape(Run(s, n)) && Run(s, n).queueCount - s.queueCount == Queued(Run(s, n)) - Queued(s) + TakenIn(s, n)
    ensures Run(s, n).holdCount - s.holdCount == HoldsIn(s, n)
    decreases n
  {
    hide Step, Queued, NewlyHeld, Takes, BlockInv;
    if n > 0 && s.current != NO_TASK {
      StepKeepsInv(s);
      StepCounted(s);
      RunCounted(Step(s), n - 1);
    }
  }

  // ----- the letters -----

  /** The letters of the work packets in a list that were not yet sent, in order. */
  ghost function Unsent(q: seq<PacketValue>): seq<int> {
    if q == [] then []
    else (if q[0].kind == Work && 0 <= q[0].a1 <= |q[0].a2| then q[0].a2[q[0].a1..] else []) + Unsent(q[1..])
  }

  /** The letters that a handler has yet to send: first those of its own list, then those in its queue. */
  ghost function Pending(b: Block): seq<int> {
    Unsent(b.v1) + Unsent(b.queue)
  }

  lemma {:induction false} UnsentAppend(q: seq<PacketValue>, p: PacketValue)
    ensures Unsent(q + [p]) == Unsent(q) + Unsent([p])
  {
    hide Unsent;
    NoneUnsent();
    if q == [] {
      assert q + [p] == [p];
    } else {
      assert (q + [p])[1..] == q[1..] + [p];
      UnsentAppend(q[1..], p);
      UnsentFirst(q);
      UnsentFirst(q + [p]);
      Regroup(Unsent([q[0]]), Unsent(q[1..]), Unsent([p]));
    }
  }

  lemma NoneUnsent()
    ensures Unsent([]) == []
  {
  }

  lemma Regroup(a: seq<int>, b: seq<int>, c: seq<int>)
    ensures a + (b + c) == (a + b) + c
  {
  }

  lemma UnsentFirst(q: seq<PacketValue>)
    requires q != []
    ensures Unsent(q) == Unsent([q[0]]) + Unsent(q[1..])
  {
    UnsentOne(q[0]);
  }

  lemma UnsentOne(p: PacketValue)
    ensures Unsent([p]) == if p.kind == Work && 0 <= p.a1 <= |p.a2| then p.a2[p.a1..] else []
  {
    assert [p][1..] == [];
  }

  /** The letters that handler `i` sends in the next turn: what the packet carries that its device gets. */
  ghost function Sends(s: State, s': State, i: int): seq<int>
    requires Shape(s) && Shape(s') && 2 <= i <= 3
  {
    var before, after := s.blocks[i + 2].queue, s'.blocks[i + 2].queue;
    if s.current == i && |after| > |before| then [after[|after| - 1].a1] else []
  }

  /** The letters that handler `i` gets in the next turn: those of the packet that the worker puts into its queue. */
  ghost function Gets(s: State, s': State, i: int): seq<int>
    requires Shape(s) && Shape(s') && 2 <= i <= 3
  {
    var before, after := s.blocks[i].queue, s'.blocks[i].queue;
    if s.current == 1 && |after| > |before| then after[|after| - 1].a2 else []
  }

  /** A turn keeps the letters in order: what is sent and what is then pending is what was pending and what is new. */
  ghost predicate InOrder(s: State, s': State, i: int) {
    && Shape(s) && Shape(s') && 2 <= i <= 3
    && Sends(s, s', i) + Pending(s'.blocks[i]) == Pending(s.blocks[i]) + Gets(s, s', i)
  }

  lemma StepInOrder(s: State, i: int)
    requires Active(s) && Inv(s) && 2 <= i <= 3
    ensures InOrder(s, Step(s), i)
  {
    hide Step, InOrder;
    var c, b := s.current, s.blocks[s.current];
    assert BlockInv(c, b);
    if b.held || (b.suspended && b.queue == []) {
      SkippedTurn(s);
      Unmoved(s, Step(s), i);
    } else if c == 0 {
      IdleTurn(s);
      Unmoved(s, Step(s), i);
    } else if c == 1 {
      WorkerInOrder(s, i);
    } else if c <= 3 {
      HandlerInOrder(s, i);
    } else {
      DeviceInOrder(s, i);
    }
  }

  lemma Unmoved(s: State, s': State, i: int)
    requires Shape(s) && Shape(s') && 2 <= i <= 3 && s'.blocks[i] == s.blocks[i]
    requires s'.blocks[i + 2].queue == s.blocks[i + 2].queue || s.current != i
    ensures InOrder(s, s', i)
  {
  }

  lemma WorkerInOrder(s: State, i: int)
    requires Active(s) && Inv(s) && s.current == 1 && (!s.blocks[1].suspended || s.blocks[1].queue != []) && 2 <= i <= 3
    ensures InOrder(s, Step(s), i)
  {
    hide Step, InOrder, Unsent;
    var letters := WorkerTurn(s);
    var b := s.blocks[1];
    var d := if s.destination == 2 then 3 else 2;
    if b.suspended && d == i {
      assert BlockInv(1, b) && b.queue[0].kind == Work;
      Delivered(s, Step(s), i, b.queue[0].(id := 1, a1 := 0, a2 := letters));
    } else {
      Unmoved(s, Step(s), i);
    }
  }

  /** A work packet with all its letters comes to the end of the queue. */
  lemma Delivered(s: State, s': State, i: int, p: PacketValue)
    requires Shape(s) && Shape(s') && 2 <= i <= 3 && s.current == 1 && p.kind == Work && p.a1 == 0
    requires s'.blocks[i] == s.blocks[i].(queue := s.blocks[i].queue + [p], runnable := true)
    ensures InOrder(s, s', i)
  {
    hide Unsent;
    UnsentAppend(s.blocks[i].queue, p);
    UnsentOne(p);
    AppendLast(Unsent(s.blocks[i].v1), Unsent(s.blocks[i].queue), p.a2);
  }

  lemma AppendLast(a: seq<int>, b: seq<int>, c: seq<int>)
    ensures c[0..] == c && [] + (a + (b + c)) == (a + b) + c
  {
  }

  lemma DeviceInOrder(s: State, i: int)
    requires Active(s) && Inv(s) && 4 <= s.current <= 5 && 2 <= i <= 3
    requires var b := s.blocks[s.current]; !b.held && (!b.suspended || b.queue != [])
    ensures InOrder(s, Step(s), i)
  {
    hide Step, InOrder, Unsent;
    var c, b := s.current, s.blocks[s.current];
    if b.suspended {
      DeviceStores(s);
      Unmoved(s, Step(s), i);
    } else {
      DeviceSends(s);
      if b.v1 != [] && i == c - 2 {
        assert BlockInv(c, b) && DevicePacket(b.v1[0], c - 2);
        Returned(s, Step(s), i, b.v1[0].(id := c));
      } else {
        Unmoved(s, Step(s), i);
      }
    }
  }

  /** A device packet at the end of the queue brings no letters to send. */
  lemma Returned(s: State, s': State, i: int, p: PacketValue)
    requires Shape(s) && Shape(s') && 2 <= i <= 3 && s.current > 3 && p.kind == Device
    requires s'.blocks[i] == s.blocks[i].(queue := s.blocks[i].queue + [p], runnable := true)
    ensures InOrder(s, s', i)
  {
    UnsentAppend(s.blocks[i].queue, p);
    UnsentOne(p);
  }

  /** Taking a packet out of the queue keeps what is pending. */
  lemma StoresPending(b: Block, b': Block)
    requires Stores(b, b')
    ensures Pending(b') == Pending(b)
  {
    if b.suspended && b.queue != [] {
      var p := b.queue[0];
      UnsentOne(p);
      if p.kind == Work {
        UnsentAppend(b.v1, p);
      }
      assert Unsent(b.queue) == Unsent([p]) + Unsent(b.queue[1..]);
    }
  }

  lemma HandlerInOrder(s: State, i: int)
    requires Active(s) && Inv(s) && 2 <= s.current <= 3 && 2 <= i <= 3
    requires var b := s.blocks[s.current]; !b.held && (!b.suspended || b.queue != [])
    ensures InOrder(s, Step(s), i)
  {
    hide Step, InOrder, Unsent;
    var c := s.current;
    var b := StoredBlock(s.blocks[c]);
    StoresPending(s.blocks[c], b);
    StoredInv(s, b);
    hide Stores;
    if b.v1 == [] || (b.v1[0].a1 < 4 && b.v2 == []) {
      HandlerWaits(s, b);
      if i == c {
        Waited(s, Step(s), i, b);
      } else {
        Unmoved(s, Step(s), i);
      }
    } else if b.v1[0].a1 < 4 {
      HandlerSends(s, b);
      if i == c {
        SentOne(s, Step(s), i, b);
      } else {
        Unmoved(s, Step(s), i);
      }
    } else {
      HandlerReturns(s, b);
      if i == c {
        AllSent(s, Step(s), i, b);
      } else {
        Unmoved(s, Step(s), i);
      }
    }
  }

  lemma Waited(s: State, s': State, i: int, b: Block)
    requires Shape(s) && Shape(s') && 2 <= i <= 3 && s.current == i && Pending(b) == Pending(s.blocks[i])
    requires s'.blocks[i] == b.(suspended := true) && s'.blocks[i + 2] == s.blocks[i + 2]
    ensures InOrder(s, s', i)
  {
  }

  /** The first pending letter is the one that is sent. */
  lemma SentOne(s: State, s': State, i: int, b: Block)
    requires Shape(s) && Shape(s') && 2 <= i <= 3 && s.current == i && Pending(b) == Pending(s.blocks[i])
    requires b.v1 != [] && b.v2 != [] && b.v1[0].kind == Work && 0 <= b.v1[0].a1 < |b.v1[0].a2|
    requires var w := b.v1[0]; s'.blocks[i] == b.(v1 := [w.(a1 := w.a1 + 1)] + b.v1[1..], v2 := b.v2[1..])
    requires var w, q := b.v1[0], s.blocks[i + 2].queue;
      s'.blocks[i + 2].queue == q + [b.v2[0].(id := i, a1 := w.a2[w.a1])]
    ensures InOrder(s, s', i)
  {
    hide Unsent;
    var w, q := b.v1[0], Unsent(b.queue);
    OneLess(b.v1);
    Regroup([w.a2[w.a1]], Unsent([w.(a1 := w.a1 + 1)] + b.v1[1..]), q);
    assert Sends(s, s', i) == [w.a2[w.a1]] && Gets(s, s', i) == [];
  }

  /** The first work packet after one more of its letters was sent. */
  lemma OneLess(l: seq<PacketValue>)
    requires l != [] && l[0].kind == Work && 0 <= l[0].a1 < |l[0].a2|
    ensures var w := l[0]; Unsent(l) == [w.a2[w.a1]] + Unsent([w.(a1 := w.a1 + 1)] + l[1..])
  {
    hide Unsent;
    var w := l[0];
    var w' := w.(a1 := w.a1 + 1);
    var l' := [w'] + l[1..];
    UnsentFirst(l);
    UnsentFirst(l');
    UnsentOne(w);
    UnsentOne(w');
    assert l'[1..] == l[1..];
    assert w.a2[w.a1..] == [w.a2[w.a1]] + w.a2[w.a1 + 1..];
    Regroup([w.a2[w.a1]], Unsent([w']), Unsent(l[1..]));
  }

  /** A packet whose letters are all sent leaves. */
  lemma AllSent(s: State, s': State, i: int, b: Block)
    requires Shape(s) && Shape(s') && 2 <= i <= 3 && s.current == i && Pending(b) == Pending(s.blocks[i])
    requires b.v1 != [] && b.v1[0].a1 == |b.v1[0].a2|
    requires s'.blocks[i] == b.(v1 := b.v1[1..]) && s'.blocks[i + 2] == s.blocks[i + 2]
    ensures InOrder(s, s', i)
  {
    hide Unsent;
    UnsentFirst(b.v1);
    UnsentOne(b.v1[0]);
    assert Unsent([b.v1[0]]) == [];
    assert Pending(b) == Pending(s'.blocks[i]) && Sends(s, s', i) == [] && Gets(s, s', i) == [];
  }

  /** All letters that handler `i` sends in `n` turns. */
  ghost function Sent(s: State, i: int, n: nat): seq<int>
    requires Inv(s) && 2 <= i <= 3
    decreases n
  {
    if n == 0 || s.current == NO_TASK then []
    else StepKeepsInv(s); Sends(s, Step(s), i) + Sent(Step(s), i, n - 1)
  }

  /** All letters that handler `i` gets in `n` turns. */
  ghost function Got(s: State, i: int, n: nat): seq<int>
    requires Inv(s) && 2 <= i <= 3
    decreases n
  {
    if n == 0 || s.current == NO_TASK then []
    else StepKeepsInv(s); Gets(s, Step(s), i) + Got(Step(s), i, n - 1)
  }

  /** All letters that the worker hands out in `n` turns. */
  ghost function Produced(s: State, n: nat): seq<int>
    requires Inv(s)
    decreases n
  {
    if n == 0 || s.current == NO_TASK then []
    else StepKeepsInv(s); Gets(s, Step(s), 2) + Gets(s, Step(s), 3) + Produced(Step(s), n - 1)
  }

  /** No letter is lost, doubled or overtaken: over any run, a handler sends what was pending and what it gets, in
      order, and the rest is pending at the end. */
  lemma {:induction false} LettersInOrder(s: State, i: int, n: nat)
    requires Inv(s) && 2 <= i <= 3
    ensures Sent(s, i, n) + Pending(Run(s, n).blocks[i]) == Pending(s.blocks[i]) + Got(s, i, n)
    decreases n
  {
    hide Step, Pending, Sends, Gets, BlockInv;
    if n > 0 && s.current != NO_TASK {
      StepKeepsInv(s);
      StepInOrder(s, i);
      LettersInOrder(Step(s), i, n - 1);
      Chained(Sends(s, Step(s), i), Sent(Step(s), i, n - 1), Pending(Run(s, n).blocks[i]), Pending(Step(s).blocks[i]),
              Got(Step(s), i, n - 1), Pending(s.blocks[i]), Gets(s, Step(s), i));
    }
  }

  lemma Chained(a: seq<int>, b: seq<int>, end: seq<int>, mid: seq<int>, c: seq<int>, start: seq<int>, d: seq<int>)
    requires b + end == mid + c && a + mid == start + d
    ensures (a + b) + end == start + (d + c)
  {
    assert (a + b) + end == a + (b + end) == a + (mid + c) == (a + mid) + c;
  }

  /** The worker hands out the letters of the alphabet one after the other. */
  lemma {:induction false} AlphabetProduced(s: State, n: nat)
    requires Inv(s)
    ensures forall k :: 0 <= k < |Produced(s, n)| ==> Produced(s, n)[k] == (s.letter + k) % 26 + 1
    decreases n
  {
    hide Step, Gets, BlockInv;
    if n > 0 && s.current != NO_TASK {
      StepKeepsInv(s);
      AlphabetProduced(Step(s), n - 1);
      var first, rest := Gets(s, Step(s), 2) + Gets(s, Step(s), 3), Produced(Step(s), n - 1);
      StepProduces(s, Step(s));
      assert Produced(s, n) == first + rest;
      FollowingLetters(s.letter, Step(s).letter, first, rest);
    }
  }

  /** The letters after a turn, and those that it gives to a handler. */
  ghost predicate Continues(letter: int, letter': int, first: seq<int>) {
    && (first == [] ==> letter' == letter)
    && (first != [] ==> |first| == 4 && letter' == (letter + 3) % 26 + 1)
    && forall j :: 0 <= j < |first| ==> first[j] == (letter + j) % 26 + 1
  }

  lemma StepProduces(s: State, s': State)
    requires Active(s) && Inv(s) && Shape(s') && s' == Step(s)
    ensures Continues(s.letter, s'.letter, Gets(s, s', 2) + Gets(s, s', 3))
  {
    hide Step, Inv;
    var c, b := s.current, s.blocks[s.current];
    if b.held || (b.suspended && b.queue == []) {
      SkippedTurn(s);
    } else if c == 0 {
      IdleTurn(s);
    } else if c == 1 {
      WorkerProduces(s, s');
    } else {
      OthersKeepLetter(s);
    }
  }

  lemma WorkerProduces(s: State, s': State)
    requires Active(s) && Inv(s) && Shape(s') && s' == Step(s) && s.current == 1
    requires var b := s.blocks[1]; !b.suspended || b.queue != []
    ensures Continues(s.letter, s'.letter, Gets(s, s', 2) + Gets(s, s', 3))
  {
    hide Step, Inv, Continues;
    var letters := WorkerTurn(s);
    var d := if s.destination == 2 then 3 else 2;
    if s.blocks[1].suspended {
      assert Gets(s, s', d) == letters && Gets(s, s', 5 - d) == [];
      assert Gets(s, s', 2) + Gets(s, s', 3) == letters;
      LettersContinue(s.letter, letters);
    } else {
      assert Gets(s, s', 2) + Gets(s, s', 3) == [];
      NothingContinues(s.letter);
    }
  }

  lemma LettersContinue(letter: int, letters: seq<int>)
    requires |letters| == 4 && forall j :: 0 <= j < 4 ==> letters[j] == (letter + j) % 26 + 1
    ensures Continues(letter, (letter + 3) % 26 + 1, letters)
  {
  }

  lemma NothingContinues(letter: int)
    ensures Continues(letter, letter, [])
  {
  }

  lemma OthersKeepLetter(s: State)
    requires Active(s) && Inv(s) && 2 <= s.current
    requires var b := s.blocks[s.current]; !b.held && (!b.suspended || b.queue != [])
    ensures Step(s).letter == s.letter
  {
    hide Step, Inv;
    if s.current <= 3 {
      var b := StoredBlock(s.blocks[s.current]);
      if b.v1 == [] || (b.v1[0].a1 < 4 && b.v2 == []) {
        HandlerWaits(s, b);
      } else if b.v1[0].a1 < 4 {
        HandlerSends(s, b);
      } else {
        HandlerReturns(s, b);
      }
    } else if s.blocks[s.current].suspended {
      DeviceStores(s);
    } else {
      DeviceSends(s);
    }
  }

  lemma FollowingLetters(letter: int, letter': int, first: seq<int>, rest: seq<int>)
    requires 0 <= letter <= 26 && (first == [] ==> letter' == letter)
    requires first != [] ==> |first| == 4 && letter' == (letter + 3) % 26 + 1
    requires forall j :: 0 <= j < |first| ==> first[j] == (letter + j) % 26 + 1
    requires forall j :: 0 <= j < |rest| ==> rest[j] == (letter' + j) % 26 + 1
    ensures forall k :: 0 <= k < |first + rest| ==> (first + rest)[k] == (letter + k) % 26 + 1
  {
    forall k | |first| <= k < |first + rest|
      ensures (first + rest)[k] == (letter + k) % 26 + 1
    {
      assert (first + rest)[k] == rest[k - |first|];
      if first != [] {
        Modulo26(letter, k - 4);
      }
    }
  }

  lemma Modulo26(letter: int, j: nat)
    requires 0 <= letter <= 26
    ensures ((letter + 3) % 26 + 1 + j) % 26 == (letter + (j + 4)) % 26
  {
  }

  // ----- the benchmark -----

  /** From the wiring of the benchmark on: the worker hands out 1, 2, 3 and so on up to 26, again and again, and each
      handler sends the letters that it gets, in order. */
  lemma BenchmarkLetters(count: int, work: seq<PacketValue>, mailA: seq<PacketValue>, mailB: seq<PacketValue>, n: nat)
    requires Wired(work, mailA, mailB)
    ensures var s := Initial(count, work, mailA, mailB);
      && Inv(s)
      && (forall k :: 0 <= k < |Produced(s, n)| ==> Produced(s, n)[k] == k % 26 + 1)
      && Sent(s, 2, n) <= Got(s, 2, n) && Sent(s, 3, n) <= Got(s, 3, n)
  {
    hide Step, BlockInv, Produced, Sent, Got;
    InitialInv(count, work, mailA, mailB);
    var s := Initial(count, work, mailA, mailB);
    AlphabetProduced(s, n);
    NoLetters(mailA);
    NoLetters(mailB);
    LettersInOrder(s, 2, n);
    LettersInOrder(s, 3, n);
    assert Pending(s.blocks[2]) == [] && Pending(s.blocks[3]) == [];
    FirstPart(Sent(s, 2, n), Pending(Run(s, n).blocks[2]), Got(s, 2, n));
    FirstPart(Sent(s, 3, n), Pending(Run(s, n).blocks[3]), Got(s, 3, n));
  }

  lemma FirstPart(a: seq<int>, b: seq<int>, c: seq<int>)
    requires a + b == [] + c
    ensures a <= c
  {
    assert [] + c == c;
  }

  lemma {:induction false} NoLetters(q: seq<PacketValue>)
    requires forall k :: 0 <= k < |q| ==> q[k].kind == Device
    ensures Unsent(q) == []
  {
    if q != [] {
      NoLetters(q[1..]);
    }
  }

  /** The counters of the benchmark: all packets that are counted were taken from a queue, or are in one that did not
      have them from the start. */
  lemma BenchmarkCounters(count: int, work: seq<PacketValue>, mailA: seq<PacketValue>, mailB: seq<PacketValue>, n: nat)
    requires Wired(work, mailA, mailB)
    ensures var s := Initial(count, work, mailA, mailB);
      && Inv(s)
      && Run(s, n).queueCount == Queued(Run(s, n)) - (|work| + |mailA| + |mailB|) + TakenIn(s, n)
      && Run(s, n).holdCount == HoldsIn(s, n)
  {
    hide Step, BlockInv, TakenIn, HoldsIn;
    InitialInv(count, work, mailA, mailB);
    RunCounted(Initial(count, work, mailA, mailB), n);
  }

  /** The state from which the benchmark starts, in full. */
  lemma InitialState(count: int, work: seq<PacketValue>, mailA: seq<PacketValue>, mailB: seq<PacketValue>)
    ensures Initial(count, work, mailA, mailB) ==
      State([Block(false, false, false, [], [], []), Block(false, true, |work| > 0, work, [], []),
             Block(false, true, |mailA| > 0, mailA, [], []), Block(false, true, |mailB| > 0, mailB, [], []),
             Block(false, true, false, [], [], []), Block(false, true, false, [], [], [])],
            [], 5, -1, 0, 0, count, 1, 2, 0)
  {
  }
}
