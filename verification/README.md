# Verified cores of LLRT's benchmarks and packaging

This project models, in Dafny, the algorithms that LLRT ships as benchmark programs and the two formats that LLRT
packages itself in, and proves what they are for.

* **Richards** (`RichardsPackets`, `RichardsModel`, `RichardsLaws`, `RichardsScheduler`): the task dispatcher with its
  task control blocks, linked packet queues and state words. `RichardsModel` is the state machine over values,
  `Scheduler` the linked program that refines it. In every state every packet is in exactly one place and addressed as
  it must be, and the scheduler stops exactly when the idle task has used up a positive count. `RichardsLaws` says field
  by field what each kind of turn does, what the two counters count over a whole run, and that the letters reach the
  devices in the order of the alphabet.
* **Splay tree** (`SplayModel`, `SplayHeap`, `SplayCost`, `SplayTree`): top-down splaying in place through a dummy node,
  the ordered map on top of it, over every sequence of calls, and its logarithmic amortised time.
* **Multi-precision integers** (`Digits`, `Bits`, `Shifts`, `Multiply`, `Montgomery`, `BigIntegers`, `Text`):
  multiplication and squaring with their 32-bit bounds, addition, subtraction and shifts under aliasing, Montgomery
  reduction, and the round trip through text.
* **Division and powers** (`Doubles`, `Estimates`, `Division`, `Barrett`, `Windows`, `Exponentiation`, `Reducers`,
  `ModPow`): schoolbook division whose quotient digits are estimated in double precision and corrected, division,
  Barrett and Montgomery reduction behind one interface, and sliding-window powers modulo m on the number objects, for
  every base, exponent and modulus.
* **Divisors** (`Divisors`, `BigGcd`, `Inverse`, `InverseRange`, `BigInverse`): binary greatest common divisors and
  inverses, on values and on the digits.
* **RSA** (`Primes`, `Rsa`): Fermat's little theorem, and that deciphering undoes enciphering on the number objects, for
  every number below the modulus and every key that key generation makes of two different odd primes.
* **Boyer** (`BoyerTerms`, `BoyerRewrite`, `BoyerTautology`, `BoyerLogic`, `Boyer`, `BoyerTest`): matching,
  rewriting with indexed lemmas and the tautology checker, up to the soundness of the whole prover.
* **Earley** (`EarleySets`, `EarleyChart`, `EarleyGrammar`, `EarleyTheory`, `EarleyForward`, `EarleyParts`,
  `EarleyParser`): the parser with its array-embedded linked sets. It recognises exactly what the grammar derives, and
  after pruning it finds exactly the parts of the derivations of the whole input.
* **DeltaBlue** (`DeltaBlue`): extracting a plan from the dataflow graph and executing it.
* **Packaging** (`LittleEndian`, `Unpacker`, `Executable`): the multi-threaded unpacker, and self-contained
  executables with the header of their module.
* `Arithmetic`, `Sequences` and `Wrappers` hold what several of these share.

## How the model is made

* Objects that the source links with references (packets, task control blocks, tree nodes, variables, constraints,
  symbol records, the sets of the parser) live in pools: sequences that are fields of one class. A reference is a
  number in such a pool, and -1 is `null`. The methods update the pools in place, cell by cell, as the source updates
  the objects. In the sets of the parser -4 stands for `false`, and an empty vector for a set that was not made yet.
* Arrays that grow when they are written are sequences. Elements that the source skips are 0 and are never read.
* Words of a few bits are bit vectors: the state of a task (`bv3`) and the random bits of the idle task (`bv16`).
  Everywhere else, numbers are unbounded, and each bound, truncation or wrap-around that the source relies on is
  written out and proved. A bitwise or of numbers that have no bit in common is a sum.
* Doubles are real numbers, and every operation on them is followed by the rounding of the IEEE 754 standard to the
  nearest double, or the even one of two (`Doubles.Double`).
* Loops with long bodies are split into a loop and methods for the parts of its body.
* The keys of a splay tree are real numbers. Its values are opaque integers.
* Rewriting need not end. `Rewrite` has a bound on the number of lemmas that are applied one after the other and
  returns `None` when it is reached; results do not depend on the bound (`BoyerRewrite.RewriteMore`).
* Decompression and compression are arbitrary functions. A thread of the unpacker makes an arbitrary sequence of writes
  that leaves the decompressed part in its slice. The buffer of the module loader has any capacity that is at least
  the one asked for.

## What does not hold

* `compareTo` orders two negative numbers of different length the wrong way round, and only those
  (`BigIntegers.BigInteger.CompareTo`); -1 and -2 are an example (`BigIntegers.ComparedBackwards`).
* `fromInt` raises an error for numbers below -1 (`BigIntegers.BigInteger.FromInt`).
* `mod` is not the remainder for a negative modulus and a negative number that is not a multiple of it
  (`Division.ResidueIff`).
* `modInverse` returns an inverse, but not always one in the range 0 to m - 1: for 1748 and 3659 it is negative
  (`BigInverse.NotInRange`). It is in that range if the sum of the operands is below 256, and in general between
  -(n - 1)m and nm if that sum is below 2^(6n + 2) (`BigInverse.SmallInRange`, `BigInverse.InverseInRange`).
  `BigInverse.RangeIff` has the exact condition, on the last coefficient. Generated keys are right all the same
  (`Rsa.RsaKey.FromPrimes`). For 0 and an odd modulus the loop does not end (`Inverse.ZeroStaysEven`), so that this is
  a precondition.
* `modPow` gives 1 for exponent 0, which is wrong exactly for modulus 1 (`ModPow.ModPow`,
  `Exponentiation.ZeroExponent`).
* `divRemTo` loses the remainder when the quotient is written to a dividend that is not zero and has fewer digits than
  the divisor, and only then (`Division.DivRemTo`, `Division.RemainderLost`).
* Key generation does not compare the primes. If they are equal the coefficient is 0, and if one of them is 2 an
  exponent is 0, and the key is useless (`Rsa.RsaKey.FromPrimes`).
* `is_parsed` is right iff i <= j or the symbol occurs from nowhere to j (`EarleyParser.RightIff`). For i > j it tells
  whether the symbol occurs from anywhere to j (`EarleyParser.Parsed`), so that it is wrong whenever the goal derives
  all tokens and the start is beyond the end (`EarleyParser.WrongBeyondTheEnd`, `EarleyParser.WrongExample`).
* `findGreatestLessThan` does not take logarithmic amortised time, because `findMax` walks without splaying
  (`SplayCost.WalkUnpaid`). Insertion, look-up and removal do (`SplayCost.LogarithmicTurns`).
* The unpacker finds its content only for at most 31 parts (`Unpacker.DataOffset`, `Unpacker.Prepare`).
* The header of a module holds its length modulo 2^32 only (`Executable.CompileAndLoad`).
* The scheduler does not stop for a count of zero or less (`RichardsModel.EndsIffCountPositive`).

## Model

| member | source | states |
|---|---|---|
| RichardsPackets.AddTo | benchmarks/v8-v7/richards.js:528-536 | the packet becomes the last one of the linked list, which has all its former packets before it in order, and every other list is as it was |
| RichardsPackets.PopLinked | benchmarks/v8-v7/richards.js:325-344 | taking the head off a linked list leaves the list of the other packets, whatever the link of the removed packet still says |
| RichardsPackets.LinkedNoDup | benchmarks/v8-v7/richards.js:528-536 | a linked list has no packet twice, so it has no cycle |
| RichardsPackets.NewQueue | benchmarks/v8-v7/richards.js:44-66 | packets created one before the other form a linked list of that many new packets, with empty contents and the last one first |
| RichardsModel.StepKeepsInv | benchmarks/v8-v7/richards.js:189-249 | every turn keeps the invariant: RUNNABLE iff the queue is not empty, every packet is of the kind and has the id that its task needs, a device with a packet is not suspended (so its slot is never overwritten), a held device has a packet, only an idle task whose count is 0 is held |
| RichardsModel.QueueKeepsInv | benchmarks/v8-v7/richards.js:242-249 | putting a packet into the queue of the task it is addressed to keeps the invariant |
| RichardsModel.TakeKeepsInv | benchmarks/v8-v7/richards.js:325-344 | taking the head packet of a runnable task keeps the invariant, with that packet in flight |
| RichardsModel.IdleKeepsInv | benchmarks/v8-v7/richards.js:375-385 | a turn of the idle task keeps the invariant |
| RichardsModel.DeviceKeepsInv | benchmarks/v8-v7/richards.js:402-412 | a turn of a device task keeps the invariant; in particular it never stores a packet into a full slot |
| RichardsModel.WorkerKeepsInv | benchmarks/v8-v7/richards.js:431-449 | a turn of the worker keeps the invariant: the packet it sends on is addressed to a handler and carries four letters |
| RichardsModel.HandlerKeepsInv | benchmarks/v8-v7/richards.js:466-492 | a turn of a handler keeps the invariant: work and device packets stay in their own lists and go back to the tasks they came from |
| RichardsModel.StepConserves | benchmarks/v8-v7/richards.js:189-249 | every turn leaves every packet in exactly as many places (queues, lists, slots, in flight) as before |
| RichardsModel.RunConserves | benchmarks/v8-v7/richards.js:189-203 | so does any number of turns |
| RichardsModel.StepDescends | benchmarks/v8-v7/richards.js:189-225 | every turn goes down in the order of idle count, device ranks, device packets at handlers, phases of work packets, queue lengths, tasks awake, and position in the list |
| RichardsModel.DeviceDescends | benchmarks/v8-v7/richards.js:402-412 | a turn of a device goes down in that order |
| RichardsModel.WorkerDescends | benchmarks/v8-v7/richards.js:431-449 | a turn of the worker goes down in that order |
| RichardsModel.HandlerDescends | benchmarks/v8-v7/richards.js:466-492 | a turn of a handler goes down in that order |
| RichardsModel.StepCounts | benchmarks/v8-v7/richards.js:375-385 | only a turn of the idle task lowers the count, and the scheduler stops in the turn that brings it to zero and in no other |
| RichardsModel.RunEnds | benchmarks/v8-v7/richards.js:189-203 | with a count of at least one the run ends, after exactly that many turns of the idle task, which then holds itself |
| RichardsModel.RunNeverEnds | benchmarks/v8-v7/richards.js:375-385 | with a count of zero or less the run never ends |
| RichardsModel.EndsIffCountPositive | benchmarks/v8-v7/richards.js:189-203 | the scheduler stops if and only if the count is at least one |
| RichardsModel.InitialInv | benchmarks/v8-v7/richards.js:44-66 | the wiring of the benchmark satisfies the invariant, for any packets |
| RichardsModel.CensusKept | benchmarks/v8-v7/richards.js:44-66 | from that wiring, for any packets: after any number of turns each packet is in as many places as at the start |
| RichardsModel.WholeRun | benchmarks/v8-v7/richards.js:44-66 | from that wiring, for the packets as they are created, any numbers of them and any count: the invariant holds, after any number of turns every packet that was created is in exactly one place and no other packet is in any, and the run ends iff the count is at least one |
| RichardsLaws.SkippedTurn | benchmarks/v8-v7/richards.js:189-203 | a turn of a task that is held, or suspended without a packet, goes to the next task and changes nothing else |
| RichardsLaws.IdleTurn | benchmarks/v8-v7/richards.js:375-385 | the state after a turn of the idle task, field by field: in its last turn it holds itself and the hold count rises, and before that device A is released and next after a zero bit, and device B after a one |
| RichardsLaws.SeedTurn | benchmarks/v8-v7/richards.js:375-385 | as numbers: the bit tested is the parity of the random word, and the new word is half of it, with 0xd008 mixed in after a one |
| RichardsLaws.FirstSeeds | benchmarks/v8-v7/richards.js:375-385 | the random words after the first one, in numbers |
| RichardsLaws.DeviceStores | benchmarks/v8-v7/richards.js:402-412 | a device that takes a packet keeps it and is held, which the hold count counts |
| RichardsLaws.DeviceSends | benchmarks/v8-v7/richards.js:402-412 | a device that has a packet sends it on to the handler that it is addressed to; without one it is suspended |
| RichardsLaws.LettersFollow | benchmarks/v8-v7/richards.js:431-449 | the four letters of a packet are (letter + j) mod 26 + 1, and so is the letter that is remembered |
| RichardsLaws.WorkerTurn | benchmarks/v8-v7/richards.js:431-449 | the state after a turn of the worker, field by field: the packet goes to the other handler with the next four letters, from the first one on |
| RichardsLaws.HandlerWaits | benchmarks/v8-v7/richards.js:466-492 | a handler without work, or with letters to send and no device packet, stores what it took and is suspended |
| RichardsLaws.HandlerSends | benchmarks/v8-v7/richards.js:466-492 | otherwise its first device packet leaves for its device with the letter a2[a1] of its first work packet, whose a1 goes up by one |
| RichardsLaws.HandlerReturns | benchmarks/v8-v7/richards.js:466-492 | a work packet whose letters have all been sent goes back to the worker |
| RichardsLaws.StepCounted | benchmarks/v8-v7/richards.js:221-249 | every turn: the queue count rises by the growth of all queues, and one more if a packet was taken; the hold count rises by the number of tasks that become held |
| RichardsLaws.RunCounted | benchmarks/v8-v7/richards.js:189-203 | likewise over any number of turns |
| RichardsLaws.BenchmarkCounters | benchmarks/v8-v7/richards.js:44-91 | so from the wiring of the benchmark the counters are determined by the packets taken, the queues at the end and the tasks that became held |
| RichardsLaws.StepInOrder | benchmarks/v8-v7/richards.js:431-492 | every turn keeps the letters of each handler in order: those sent, then those pending, are those that were pending, then the new ones |
| RichardsLaws.LettersInOrder | benchmarks/v8-v7/richards.js:431-492 | over every run the letters that a handler has sent, with those pending, are the ones that it had and was given, in this order |
| RichardsLaws.AlphabetProduced | benchmarks/v8-v7/richards.js:431-449 | over every run the letters that the worker hands out, to both handlers together, go through the alphabet without a gap |
| RichardsLaws.BenchmarkLetters | benchmarks/v8-v7/richards.js:44-66 | from the wiring of the benchmark: they go 1 to 26 over and over, and each handler has sent a prefix of what it was given |
| RichardsLaws.InitialState | benchmarks/v8-v7/richards.js:44-66 | the state of the wiring, field by field |
| RichardsScheduler.StateBits | benchmarks/v8-v7/richards.js:298-320 | the bit operations on the state word set and test the three flags of the model |
| RichardsScheduler.Scheduler.Release | benchmarks/v8-v7/richards.js:205-215 | the task is no longer held, and the task of higher priority is next; the same as the model's step |
| RichardsScheduler.Scheduler.HoldCurrent | benchmarks/v8-v7/richards.js:221-226 | the current task is held and counted, and its successor is next |
| RichardsScheduler.Scheduler.SuspendCurrent | benchmarks/v8-v7/richards.js:231-234 | the current task is suspended and stays current |
| RichardsScheduler.Scheduler.CheckPriorityAdd | benchmarks/v8-v7/richards.js:346-355 | the packet is put at the end of the task's queue, the task becomes runnable if it had none, and the task of higher priority is next |
| RichardsScheduler.Scheduler.Queue | benchmarks/v8-v7/richards.js:242-249 | the packet is counted, gets the sender's id and goes to the queue of its addressee; the linked lists stand for the model's lists, whose counters RichardsLaws.StepCounted is about |
| RichardsScheduler.Scheduler.IdleRun | benchmarks/v8-v7/richards.js:375-385 | the linked state after a turn of the idle task stands for the model's state after its step, which RichardsLaws.IdleTurn gives field by field |
| RichardsScheduler.Scheduler.DeviceRun | benchmarks/v8-v7/richards.js:402-412 | likewise for a device (RichardsLaws.DeviceStores, RichardsLaws.DeviceSends) |
| RichardsScheduler.Scheduler.WorkerRun | benchmarks/v8-v7/richards.js:431-449 | likewise for the worker, with its loop over the four letters (RichardsLaws.WorkerTurn) |
| RichardsScheduler.Scheduler.HandlerRun | benchmarks/v8-v7/richards.js:466-492 | likewise for a handler (RichardsLaws.HandlerWaits, RichardsLaws.HandlerSends, RichardsLaws.HandlerReturns) |
| RichardsScheduler.Scheduler.TakePacket | benchmarks/v8-v7/richards.js:325-344 | likewise for the removal of the head packet and the new state word |
| RichardsScheduler.Scheduler.Turn | benchmarks/v8-v7/richards.js:189-203 | one turn of the loop is one step of the model |
| RichardsScheduler.Scheduler.Schedule | benchmarks/v8-v7/richards.js:189-203 | the loop terminates, in the state that the model reaches, with the idle task held and its count used up |
| RichardsScheduler.NewQueues | benchmarks/v8-v7/richards.js:44-66 | three linked lists in one pool, whose packets are numbered from zero on, each once |
| RichardsScheduler.Wire | benchmarks/v8-v7/richards.js:44-66 | the linked structures that are set up stand for the model's initial state, for any numbers of packets, and in every later state each packet is in exactly one place |
| RichardsScheduler.RunRichards | benchmarks/v8-v7/richards.js:44-91 | the benchmark terminates for any count of at least one and any numbers of packets, in the final state of the model's run; in every state of that run each packet is in exactly one place; the queue count is the number of packets taken, plus those in queues at the end and less those at the start, and the hold count the number of times a task became held |
| SplayModel.SplayKeepsEntries | benchmarks/v8-v7/splay.js:276-335 | splaying keeps the sequence of nodes with their keys and values in order |
| SplayModel.SplaySplits | benchmarks/v8-v7/splay.js:276-335 | after splaying a sorted tree, everything left of the root is below the key and everything right of it is above |
| SplayModel.KeyAtRoot | benchmarks/v8-v7/splay.js:276-335 | after splaying, the key is at the root if and only if it is in the tree |
| SplayModel.InsertEntries | benchmarks/v8-v7/splay.js:147-170 | insertion puts the new entry between the smaller and the greater ones, and changes nothing when the key is there |
| SplayModel.NothingAbove | benchmarks/v8-v7/splay.js:179-201 | splaying a tree with a key above all its keys leaves the root without a right child |
| SplayModel.RemoveEntries | benchmarks/v8-v7/splay.js:179-201 | removal leaves exactly the other entries, in order |
| SplayModel.MaxIsLast | benchmarks/v8-v7/splay.js:220-229 | the maximum is the last entry |
| SplayModel.InsertRefines | benchmarks/v8-v7/splay.js:147-170 | insertion is insertion into a map, and keeps the value of a key that is there |
| SplayModel.RemoveRefines | benchmarks/v8-v7/splay.js:179-201 | removal is removal from a map, or the error for a missing key |
| SplayModel.GreatestRefines | benchmarks/v8-v7/splay.js:235-250 | the answer is the greatest key of the map below the bound with its value, and null iff there is none |
| SplayModel.ExportRefines | benchmarks/v8-v7/splay.js:256-264 | the exported keys are the keys of the map in ascending order, each once |
| SplayModel.CallsRefine | benchmarks/v8-v7/splay.js:147-264 | every sequence of calls answers as a finite ordered map does and leaves a sorted tree |
| SplayCost.SplayPaid | benchmarks/v8-v7/splay.js:276-335 | for every tree and key, 2^turns times the potentials of the two subtrees afterwards is at most the potential before times the square of the weight; the potential is the product of the weights of all nodes, so its logarithm is the usual sum |
| SplayCost.ZigZig | benchmarks/v8-v7/splay.js:276-335 | the case of a turn with a rotation, which fails without the rotation |
| SplayCost.ZigZagZag | benchmarks/v8-v7/splay.js:276-335 | the case of a turn to one side followed by one with a rotation to the other |
| SplayCost.FlipSplay | benchmarks/v8-v7/splay.js:276-335 | left and right are treated alike: splaying the mirror image is the mirror image of splaying, in as many turns |
| SplayCost.FindPaid | benchmarks/v8-v7/splay.js:209-212 | look-up takes at most 5 log n turns, amortised |
| SplayCost.InsertPaid | benchmarks/v8-v7/splay.js:147-170 | so does insertion, with the new root |
| SplayCost.RemovePaid | benchmarks/v8-v7/splay.js:179-201 | so does removal, with both of its splays |
| SplayCost.CallsPaid | benchmarks/v8-v7/splay.js:113-119 | every sequence of k calls on every tree that never has more than n nodes: 2^turns times the final potential is at most (n + 1)^5k times the first one |
| SplayCost.LogarithmicTurns | benchmarks/v8-v7/splay.js:113-119 | from the empty tree k calls take at most 5 k log(n + 1) turns: logarithmic amortised time |
| SplayCost.WalkUnpaid | benchmarks/v8-v7/splay.js:220-250 | the walk of findMax is not amortised: trees of every size are left as they are by findGreatestLessThan, which walks along all but two nodes each time |
| SplayHeap.RotatedRight | benchmarks/v8-v7/splay.js:276-335 | the pointer updates of a right rotation turn the tree in the pool into the rotated one |
| SplayHeap.LinkedRight | benchmarks/v8-v7/splay.js:276-335 | linking the current node into the right tree through the dummy node extends that tree and keeps the rest |
| SplayHeap.Assembled | benchmarks/v8-v7/splay.js:276-335 | the final pointer updates join the left tree, the current node and the right tree |
| SplayTree.SplayTree.Splay_ | benchmarks/v8-v7/splay.js:276-335 | in place, the nodes come to form the splayed tree, in exactly the number of turns of the model; no other node is touched |
| SplayTree.SplayTree.Insert | benchmarks/v8-v7/splay.js:147-170 | in place, the tree stays sorted and its map gains the key, unless it was there; the turns are within the amortised bound |
| SplayTree.SplayTree.Remove | benchmarks/v8-v7/splay.js:179-201 | in place, the map loses the key and the removed node is returned with its key and value, or the map is unchanged and the error is reported; the turns are within the amortised bound |
| SplayTree.SplayTree.Find | benchmarks/v8-v7/splay.js:209-212 | the node with the key, which holds its value in the map, or null; the map is unchanged, and the turns are within the amortised bound |
| SplayTree.SplayTree.FindMax | benchmarks/v8-v7/splay.js:220-229 | the node with the greatest key of a tree that is not empty, or null |
| SplayTree.SplayTree.FindGreatestLessThan | benchmarks/v8-v7/splay.js:235-250 | the node with the greatest key below the bound, or null; the map is unchanged, and the turns of the splay are within the amortised bound |
| SplayTree.SplayTree.ExportKeys | benchmarks/v8-v7/splay.js:256-264 | the keys of the map in ascending order |
| SplayTree.Traverse | benchmarks/v8-v7/splay.js:365-373 | the loop and recursion over the nodes visit the keys in order |
| Multiply.AmStep | benchmarks/v8-v7/crypto.js:109-124 | with x < 2 DV, a digit, a word below DV and a carry below 3 DV, all intermediate values stay below 2^31, and digit + DV carry is x a + w + c, the carry again below 3 DV |
| Multiply.Am3 | benchmarks/v8-v7/crypto.js:109-124 | the n digits of w and the carry hold w + x a + c, with every value a 32-bit one |
| Multiply.MultiplyDigits | benchmarks/v8-v7/crypto.js:465-480 | the digits are those of the exact product |
| Multiply.SquareRow | benchmarks/v8-v7/crypto.js:483-509 | one row adds the square of a digit and its doubled products; one overflow fix-up is enough |
| Multiply.SquareDigits | benchmarks/v8-v7/crypto.js:483-509 | the digits are those of the exact square, as multiplication gives |
| BigIntegers.BigInteger.Clamp | benchmarks/v8-v7/crypto.js:254-258 | the value is unchanged, and the top digit no longer repeats the sign |
| BigIntegers.BigInteger.SubTo | benchmarks/v8-v7/crypto.js:427-461 | r is the difference of the old values, also when r is one of the operands |
| BigIntegers.BigInteger.AddTo | benchmarks/v8-v7/crypto.js:1118-1152 | r is the sum of the old values, also when r is one of the operands |
| BigIntegers.BigInteger.CopyTo | benchmarks/v8-v7/crypto.js:184-191 | r has the value, also when it is the number itself |
| BigIntegers.BigInteger.CompareTo | benchmarks/v8-v7/crypto.js:313-324 | the sign of the difference, except exactly for two negative numbers of different length, where it is the opposite sign |
| BigIntegers.ComparedBackwards | benchmarks/v8-v7/crypto.js:313-324 | -1 and -2, of which compareTo says that the first is the smaller one |
| BigIntegers.BigInteger.FromInt | benchmarks/v8-v7/crypto.js:194-201 | the number has the given value; below -1 the name DV is not defined and an error is raised |
| BigIntegers.BigInteger.DrShiftTo | benchmarks/v8-v7/crypto.js:374-380 | r is the value divided by DV^n and rounded down, also when r is the number itself |
| BigIntegers.BigInteger.DlShiftTo | benchmarks/v8-v7/crypto.js:363-371 | r is the value times DV^n, also when r is the number itself |
| BigIntegers.BigInteger.RShiftTo | benchmarks/v8-v7/crypto.js:404-424 | r is the value divided by 2^n and rounded down, also when r is the number itself |
| BigIntegers.BigInteger.LShiftTo | benchmarks/v8-v7/crypto.js:383-401 | r is the value times 2^n, also when r is the number itself |
| Shifts.LBit | benchmarks/v8-v7/crypto.js:1037-1058 | the number of zeros below the lowest set bit of a digit |
| BigIntegers.BigInteger.GetLowestSetBit | benchmarks/v8-v7/crypto.js:1061-1067 | the number of zeros below the lowest set bit of a number of any sign, and -1 for zero |
| BigIntegers.BigInteger.IsEven | benchmarks/v8-v7/crypto.js:716-719 | whether the value is even |
| BigIntegers.BigInteger.Signum | benchmarks/v8-v7/crypto.js:821-826 | the sign of the value |
| BigIntegers.BigInteger.MultiplyTo | benchmarks/v8-v7/crypto.js:465-480 | r is the exact signed product |
| BigIntegers.BigInteger.SquareTo | benchmarks/v8-v7/crypto.js:483-509 | r is the exact square |
| Montgomery.InvDigit | benchmarks/v8-v7/crypto.js:627-641 | for an odd lowest digit m0, a digit y with m0 y = -1 modulo 2^28; 0 otherwise |
| Montgomery.ClearingDigit | benchmarks/v8-v7/crypto.js:671-695 | the product of two digits modulo 2^28, from its 15-bit halves |
| Montgomery.AddCarry | benchmarks/v8-v7/crypto.js:671-695 | carrying stays inside the digits that are there and ends |
| Montgomery.ReduceDigits | benchmarks/v8-v7/crypto.js:671-695 | within 2 m.t + 1 digits, a multiple of m is added that makes the m.t lowest digits zero |
| BigIntegers.Reducer.Reduce | benchmarks/v8-v7/crypto.js:671-695 | for 0 <= x < m R and odd m: the new x is below m, and x R differs from the old x by a multiple of m |
| BigIntegers.Reducer.MulTo | benchmarks/v8-v7/crypto.js:704-707 | r is below m, and r R = x y modulo m |
| BigIntegers.Reducer.SqrTo | benchmarks/v8-v7/crypto.js:698-701 | r is below m, and r R = x x modulo m |
| BigIntegers.Reducer.Revert | benchmarks/v8-v7/crypto.js:663-668 | a new number r below m with r R = x modulo m |
| Bits.NBits | benchmarks/v8-v7/crypto.js:327-351 | the number of bits of a 32-bit word |
| Doubles.RoundedError | benchmarks/v8-v7/crypto.js:540-562 | a number of at most 2^(53 - n) is rounded to a double by at most 2^-(n + 1) |
| Doubles.RoundedAtLeast | benchmarks/v8-v7/crypto.js:540-562 | rounding to a double does not go below an integer |
| Doubles.RoundedIsDouble | benchmarks/v8-v7/crypto.js:540-562 | the result of rounding is a double: at most 53 bits times a power of two |
| Doubles.RoundedNearest | benchmarks/v8-v7/crypto.js:540-562 | no double is nearer to a number than what it is rounded to, and of two that are equally near it is the even one |
| Estimates.Estimate | benchmarks/v8-v7/crypto.js:540-562 | the estimate of a quotient digit in double precision, with the roundings of both ratios, both products and their sum: at most 15 units below and 21 above the exact quotient, where a unit is 2^24 / yt, and never below the quotient that the highest digits suggest |
| Division.Fits | benchmarks/v8-v7/crypto.js:557-562 | an estimate within that tolerance is not below the digit and at most the base |
| Division.DigitTest | benchmarks/v8-v7/crypto.js:563-567 | after the multiple is added in place, the digit on top shows whether the estimate was right |
| Division.Correct | benchmarks/v8-v7/crypto.js:563-568 | the correction ends with the right digit, and the number is still long enough for the next one |
| Division.Step | benchmarks/v8-v7/crypto.js:557-569 | one turn of the loop finds the next digit of the quotient |
| Division.Normalise | benchmarks/v8-v7/crypto.js:527-534 | both operands are shifted until the highest bit of the divisor is set |
| Division.FirstDigit | benchmarks/v8-v7/crypto.js:547-553 | the first digit of the quotient is one or zero |
| Division.DivRemTo | benchmarks/v8-v7/crypto.js:513-578 | for numbers of all signs and lengths, with either result missing and in the place of an operand: the quotient rounded towards zero and the remainder, which is zero instead if the quotient is written to a dividend of fewer digits than the divisor; nothing happens for a divisor of zero |
| Division.RemainderLost | benchmarks/v8-v7/crypto.js:517-520 | with the quotient written to the dividend, the remainder is right iff the dividend is zero or has as many digits as the divisor |
| Division.QuotientAndRemainder | benchmarks/v8-v7/crypto.js:513-578 | the dividend is quotient times divisor plus remainder, which is smaller than the divisor and has the sign of the dividend |
| Division.Mod | benchmarks/v8-v7/crypto.js:581-586 | the remainder of any number modulo a positive one, from 0 to m - 1; for a modulus of zero or less what the code gives |
| Division.ResidueIff | benchmarks/v8-v7/crypto.js:581-586 | mod is the remainder iff the modulus is positive, the number is not negative, or it is a multiple |
| Barrett.MultiplyLower | benchmarks/v8-v7/crypto.js:1241-1254 | the digits of the product modulo DV^n |
| Barrett.MultiplyUpper | benchmarks/v8-v7/crypto.js:1257-1275 | the upper digits of the product, less by no more than one unit of the next digit for each digit of the second factor |
| Barrett.DAddOffset | benchmarks/v8-v7/crypto.js:1206-1215 | n DV^w is added, with all carries |
| Barrett.QuotientBounds | benchmarks/v8-v7/crypto.js:1303-1314 | the estimated quotient is not too big, and too small by no more than two and the number of digits |
| Barrett.BarrettReducer.Reduce | benchmarks/v8-v7/crypto.js:1303-1314 | x modulo m, for every x below DV^(2 m.t) |
| Barrett.BarrettReducer.MulTo | benchmarks/v8-v7/crypto.js:1323-1326 | r is the product modulo m |
| Barrett.BarrettReducer.Convert | benchmarks/v8-v7/crypto.js:1287-1296 | any number modulo m |
| Reducers.MontConvert | benchmarks/v8-v7/crypto.js:654-660 | for a base of any sign and size: a new number with the value x R modulo m |
| Reducers.ConvertByDivision | benchmarks/v8-v7/crypto.js:592-595 | any number modulo m: the number itself where it is below m |
| Reducers.Reduction.MulTo | benchmarks/v8-v7/crypto.js:602-609 | for each of the three reductions: numbers that stand for base^n and base^k give one that stands for base^(n + k); only the result and the scratch numbers are written |
| Reducers.Reduction.Revert | benchmarks/v8-v7/crypto.js:596-598 | for each of the three reductions: a number that stands for base^n gives base^n modulo m |
| Windows.Window | benchmarks/v8-v7/crypto.js:1335-1420 | the window of bits of the exponent, also across two digits or the end of the lowest one |
| Windows.WindowStep | benchmarks/v8-v7/crypto.js:1335-1420 | taking in a window is shifting by its length and adding it |
| Exponentiation.ReductionDetermined | benchmarks/v8-v7/crypto.js:671-695 | the result of Montgomery reduction is x / R modulo m |
| Exponentiation.InverseOfR | benchmarks/v8-v7/crypto.js:644-651 | R has an inverse modulo every odd number |
| Exponentiation.ZeroExponent | benchmarks/v8-v7/crypto.js:1335-1342 | 1 is x^0 modulo m iff m is not 1 |
| ModPow.SquareAndMultiply | benchmarks/v8-v7/crypto.js:1335-1420 | n squarings in two registers that may end up swapped, and a multiplication by a table entry |
| ModPow.SkipZeros | benchmarks/v8-v7/crypto.js:1335-1420 | one squaring for each zero bit, with the registers swapped each time, down to the next set bit or the end |
| ModPow.MakeTable | benchmarks/v8-v7/crypto.js:1335-1420 | the numbers in the table are the odd powers below 2^k; none of them is a register or overwritten by a reduction |
| ModPow.Turn | benchmarks/v8-v7/crypto.js:1335-1420 | one turn moves down the exponent, and the register stands for the power for the bits above the new position |
| ModPow.Power | benchmarks/v8-v7/crypto.js:1335-1420 | for each of the three reductions and the digits of any exponent above zero: a new number with the value base^e modulo m |
| ModPow.ModPow | benchmarks/v8-v7/crypto.js:1335-1420 | for every base, every exponent of at least zero and every positive modulus: a new number with the value x^e modulo m, but 1 for e = 0 |
| ModPow.BitLength | benchmarks/v8-v7/crypto.js:354-360 | the number of bits of a number of any sign: those of -x - 1 for a negative one |
| ModPow.ExpWith | benchmarks/v8-v7/crypto.js:722-739 | x^e modulo m by squaring and multiplying, for e from 1 to 2^32 - 1; 1 for any other e |
| ModPow.ModPowInt | benchmarks/v8-v7/crypto.js:742-747 | likewise, with division for small exponents and even moduli, and Montgomery reduction else |
| Divisors.Greatest | benchmarks/v8-v7/crypto.js:1423-1452 | every common divisor divides what the contract of Gcd describes |
| Divisors.GcdUnique | benchmarks/v8-v7/crypto.js:1423-1452 | there is only one such number |
| BigGcd.MakeOdd | benchmarks/v8-v7/crypto.js:1440-1441 | in place, all factors of two are taken out |
| BigGcd.OddGcd | benchmarks/v8-v7/crypto.js:1439-1449 | the loop on the digits ends with the greatest common divisor |
| BigGcd.Gcd | benchmarks/v8-v7/crypto.js:1423-1452 | for numbers of all signs, a new number: a common divisor that every common divisor divides |
| Inverse.HalveRowFits | benchmarks/v8-v7/crypto.js:1467-1515 | halving a remainder keeps the congruence of its coefficient, for odd and for even moduli |
| Inverse.HalvedOutFits | benchmarks/v8-v7/crypto.js:1477-1498 | so does halving until the remainder is odd |
| Inverse.ZeroStaysEven | benchmarks/v8-v7/crypto.js:1488-1498 | a remainder of zero is never halved to an odd one, so that the loop does not end for 0 and an odd modulus |
| Inverse.Euclid | benchmarks/v8-v7/crypto.js:1467-1515 | the loop ends with the greatest common divisor and a coefficient congruent to it |
| Inverse.OutOfRange | benchmarks/v8-v7/crypto.js:1467-1515 | for this = 1748 and m = 3659, which are coprime, the last coefficient is below -2m, so that the result is not in 0..m-1 |
| InverseRange.CoefficientRange | benchmarks/v8-v7/crypto.js:1467-1515 | for operands whose sum is below 2^(6n+2), the last coefficient is in -(n+1)m..(n+1)m-1 |
| InverseRange.RoundsInRange | benchmarks/v8-v7/crypto.js:1476-1508 | over all rounds of the loop: the potential 2q + (p-q)^2 of the bounds p and q on the coefficients rises by at most a third while the sum of the remainders is halved |
| BigInverse.HalveStep | benchmarks/v8-v7/crypto.js:1477-1487 | on the digits, halving a remainder and its coefficients in place |
| BigInverse.Run | benchmarks/v8-v7/crypto.js:1476-1508 | on the digits, the loop computes what it computes on values |
| BigInverse.InverseCorrect | benchmarks/v8-v7/crypto.js:1467-1515 | the result is an inverse of x modulo m if the two are coprime, and otherwise zero; above 1 it is zero exactly when they are not coprime |
| BigInverse.InverseInRange | benchmarks/v8-v7/crypto.js:1467-1515 | for operands whose sum is below 2^(6n+2), the result is in -(n-1)m..nm-1 |
| BigInverse.SmallInRange | benchmarks/v8-v7/crypto.js:1467-1515 | for operands whose sum is below 256, the result is in 0..m-1 |
| BigInverse.RangeIff | benchmarks/v8-v7/crypto.js:1509-1514 | the result is in 0..m-1 exactly when the last coefficient is in -2m..2m-1 |
| BigInverse.NotInRange | benchmarks/v8-v7/crypto.js:1467-1515 | 1748 and 3659 are coprime, and the result for them is negative |
| BigInverse.ModInverse | benchmarks/v8-v7/crypto.js:1467-1515 | on the digits: a new number with that value |
| Primes.Fermat | benchmarks/v8-v7/crypto.js:1918-1933 | x^p = x modulo a prime p, for every x: why deciphering undoes enciphering |
| Primes.ReducedExponent | benchmarks/v8-v7/crypto.js:1918-1933 | an exponent may be reduced modulo p - 1 if that does not make it zero |
| Primes.Chinese | benchmarks/v8-v7/crypto.js:1918-1933 | a number below the product of two primes is determined by its remainders |
| Rsa.RsaKey.DoPublic | benchmarks/v8-v7/crypto.js:1807-1809 | a new number with the value x^e modulo n |
| Rsa.RsaKey.DoPrivate | benchmarks/v8-v7/crypto.js:1918-1933 | without the primes x^d modulo n; with them, the number below n that is x^dmp1 modulo p and x^dmq1 modulo q |
| Rsa.Combined | benchmarks/v8-v7/crypto.js:1925-1932 | what is computed from two remainders has these remainders and is below p q |
| Rsa.BothWays | benchmarks/v8-v7/crypto.js:1918-1933 | both ways of deciphering agree where the exponents are those of d |
| Rsa.RoundTripValue | benchmarks/v8-v7/crypto.js:1807-1933 | for a key whose numbers fit together, deciphering undoes enciphering, for every number below n |
| Rsa.PlainRoundTrip | benchmarks/v8-v7/crypto.js:1807-1933 | so it does without the primes in the key |
| Rsa.RsaKey.RoundTrip | benchmarks/v8-v7/crypto.js:1807-1933 | on the digits, for every number below n: what is enciphered and then deciphered is what it was |
| Rsa.RsaKey.FromPrimes | benchmarks/v8-v7/crypto.js:1898-1912 | from two primes and an exponent: a key is made iff the exponent has no divisor in common with (p-1)(q-1); the greater prime is p; d undoes e modulo (p-1)(q-1), and the other exponents are d mod p-1 and d mod q-1; the numbers fit together if the primes are odd and different, although the inverses may be out of range; for equal primes the coefficient is 0, and if one of them is 2 an exponent is 0 |
| Rsa.Coefficient | benchmarks/v8-v7/crypto.js:1911-1911 | the inverse of one prime modulo the other, and zero if they are equal |
| Text.DigitsOf | benchmarks/v8-v7/crypto.js:261-290 | the shortest numeral of the value, also for radices whose digits do not divide 28 bits |
| Text.DigitCharacters | benchmarks/v8-v7/crypto.js:165-182 | digit n is the n-th of 0 to 9 and a to z, and both it and the capital letter are read as n |
| Text.OtherCharacters | benchmarks/v8-v7/crypto.js:165-182 | exactly the other characters are read as -1 |
| Text.ReadDigit | benchmarks/v8-v7/crypto.js:211-248 | one more digit multiplies the value by the radix and adds the digit |
| Text.NegativeText | benchmarks/v8-v7/crypto.js:261-290 | the text of a negative number is a minus sign and the text of its absolute value |
| Text.MinusIff | benchmarks/v8-v7/crypto.js:211-248 | a text is negative iff there is a minus sign before its first digit |
| Text.WriteDigit | benchmarks/v8-v7/crypto.js:261-290 | the text grows by the next digit of k bits, also across two words, and leading zeros are left out |
| Text.PutDigit | benchmarks/v8-v7/crypto.js:211-248 | a digit of k bits goes above the bits read so far, also across two words |
| Text.ParseDigits | benchmarks/v8-v7/crypto.js:211-248 | the value of the digits of a text, other characters skipped, and whether a minus sign is before the first digit |
| Text.ToString | benchmarks/v8-v7/crypto.js:261-290 | the numeral of the absolute value, after a minus sign if the number is negative |
| Text.FromString | benchmarks/v8-v7/crypto.js:211-248 | the integer that the text stands for |
| Text.NumeralValue | benchmarks/v8-v7/crypto.js:261-290 | a numeral stands for the number it was made from |
| Text.TextRoundTrip | benchmarks/v8-v7/crypto.js:211-290 | for every integer and the radices 2, 4, 8, 16 and 32, the text made of it stands for it |
| Text.RoundTrip | benchmarks/v8-v7/crypto.js:211-290 | fromString(toString(v)) has the value of v |
| BoyerTerms.UnifySound | benchmarks/v8-v7/earley-boyer.js:7350-7379 | a match turns the pattern into the term, and only adds bindings |
| BoyerTerms.UnifyComplete | benchmarks/v8-v7/earley-boyer.js:7350-7379 | a match is found whenever a substitution that agrees with the bindings so far makes the pattern equal to the term |
| BoyerTerms.UnifyIffMatches | benchmarks/v8-v7/earley-boyer.js:7350-7379 | from no bindings, matching succeeds iff some substitution that leaves numbers alone maps the pattern to the term, and then the recorded one does |
| BoyerTerms.EvalApply | benchmarks/v8-v7/earley-boyer.js:7209-7240 | the meaning of an instance is the meaning of the term under the substituted valuation |
| BoyerRewrite.RewritePreservesMeaning | benchmarks/v8-v7/earley-boyer.js:7298-7348 | in every interpretation in which the lemmas hold, whenever rewriting returns, its result means what the term meant |
| BoyerRewrite.RewriteNormal | benchmarks/v8-v7/earley-boyer.js:7298-7348 | no lemma applies anywhere in a result of rewriting |
| BoyerRewrite.FirstMatchIs | benchmarks/v8-v7/earley-boyer.js:7298-7348 | the first lemma that matches is applied, with a substitution that makes its left-hand side the term |
| BoyerRewrite.LemmaApplied | benchmarks/v8-v7/earley-boyer.js:7298-7348 | a term with rewritten arguments is rewritten to the rewritten right-hand side of the first lemma that matches it, and is left alone iff there is none |
| BoyerRewrite.ArgumentsFirst | benchmarks/v8-v7/earley-boyer.js:7298-7348 | the arguments are rewritten first, each on its own |
| BoyerRewrite.AllArguments | benchmarks/v8-v7/earley-boyer.js:7298-7348 | rewriting a list of arguments returns iff it returns for each of them |
| BoyerRewrite.NormalFixed | benchmarks/v8-v7/earley-boyer.js:7298-7348 | a term to which no lemma applies anywhere is rewritten to itself |
| BoyerRewrite.RewriteIdempotent | benchmarks/v8-v7/earley-boyer.js:7298-7348 | rewriting twice is rewriting once |
| BoyerRewrite.RewriteMore | benchmarks/v8-v7/earley-boyer.js:7298-7348 | a result does not depend on the bound on the number of steps |
| BoyerRewrite.IndexedMatch | benchmarks/v8-v7/earley-boyer.js:7430-7491 | for a term, looking through the lemmas of its head picks the same lemma as looking through all lemmas |
| BoyerRewrite.IndexedRewrite | benchmarks/v8-v7/earley-boyer.js:7298-7348 | so rewriting with the index gives the same results as rewriting with the list of all lemmas |
| BoyerTautology.Tautologyp | benchmarks/v8-v7/earley-boyer.js:7241-7295 | the loop with its recursion decides the recursive definition, and ends |
| BoyerTautology.TautologySound | benchmarks/v8-v7/earley-boyer.js:7241-7295 | an answer of true means that the term holds under every assignment that agrees with the two lists |
| BoyerTautology.TautologyComplete | benchmarks/v8-v7/earley-boyer.js:7241-7295 | on if-normal terms with consistent lists, an answer of false comes with an assignment that agrees with the lists and falsifies the term |
| BoyerLogic.RewriteTernary | benchmarks/v8-v7/earley-boyer.js:7298-7348 | rewriting keeps three arguments at every if |
| BoyerLogic.NormalIsIfNormal | benchmarks/v8-v7/earley-boyer.js:4105-4142 | with the lemma on nested conditions, a term to which no lemma applies is if-normal |
| BoyerLogic.ProvedIsTrue | benchmarks/v8-v7/earley-boyer.js:7492-7537 | what is proved is not false in any interpretation of the lemmas, under any valuation |
| BoyerLogic.ProvedIffTautology | benchmarks/v8-v7/earley-boyer.js:7492-7537 | with the lemma on nested conditions, a rewritten term is proved iff it holds under all assignments to its parts that are not conditions |
| Boyer.Prover.SymbolRecord | benchmarks/v8-v7/earley-boyer.js:7165-7180 | one record for every name, found again or made |
| Boyer.Prover.TranslateTerm | benchmarks/v8-v7/earley-boyer.js:7103-7139 | the translation, read back, is the term; records are only added |
| Boyer.Prover.TranslateArgs | benchmarks/v8-v7/earley-boyer.js:7118-7139 | likewise for argument lists |
| Boyer.TranslationUnique | benchmarks/v8-v7/earley-boyer.js:7399-7419 | two translated terms are equal iff the terms are, so comparing records is comparing names |
| Boyer.Prover.AddLemma | benchmarks/v8-v7/earley-boyer.js:7462-7486 | a term is accepted iff it is (equal (f ...) ...); its sides, translated, become the rule that is put before the others of the head f, and of no other |
| Boyer.Prover.Setup | benchmarks/v8-v7/earley-boyer.js:7430-7491 | after the set-up, the list of every record holds the lemmas of its name, the last one first |
| Boyer.Prover.OneWayUnify1 | benchmarks/v8-v7/earley-boyer.js:7350-7379 | the loop that updates the shared substitution computes the match, also when it fails half-way |
| Boyer.Prover.Rewrite | benchmarks/v8-v7/earley-boyer.js:7298-7348 | the loop over the lemmas of the head computes the rewriting function |
| BoyerTest.RecordsAreAllLemmas | benchmarks/v8-v7/earley-boyer.js:7430-7491 | rewriting with the lists of the records is rewriting with all lemmas, the last one first |
| BoyerTest.Test | benchmarks/v8-v7/earley-boyer.js:7492-7537 | the answer is whether the term, wrapped n times and substituted, is rewritten to a tautology; BoyerTest.OrsMean and BoyerTest.AnswerIsTrue say what that means for the term itself |
| BoyerTest.AnswerIsTrue | benchmarks/v8-v7/earley-boyer.js:7492-7537 | when the answer is true, the term with what is substituted in it, without the wrapping, is not false under any valuation in any interpretation that satisfies the lemmas as they are written, the one for or among them |
| BoyerTest.WrappedIsTrue | benchmarks/v8-v7/earley-boyer.js:7492-7537 | when the answer is true, the wrapped term is not false under any valuation |
| BoyerTest.OrMeans | benchmarks/v8-v7/earley-boyer.js:4002-4032 | in an interpretation that satisfies the lemma for or, (or x y) is false iff x and y are |
| BoyerTest.OrsMean | benchmarks/v8-v7/earley-boyer.js:7492-7537 | so wrapping a term in any number of (or term (f)) does not change whether it is false |
| BoyerTest.OrsAre | benchmarks/v8-v7/earley-boyer.js:7492-7537 | wrapped no times the term is itself, and each time it becomes (or term (f)) |
| BoyerTest.LastLemmaFirst | benchmarks/v8-v7/earley-boyer.js:7430-7491 | the rules are the lemmas as they are written, the last one first, with their left and right sides |
| EarleySets.AdjoinedRep | benchmarks/v8-v7/earley-boyer.js:7861-7872 | adding a number to a vector appends it to the list of new numbers and keeps both lists |
| EarleySets.MergedRep | benchmarks/v8-v7/earley-boyer.js:7853-7860 | merging makes the new numbers the last processed ones, and leaves no new ones |
| EarleySets.MemberIff | benchmarks/v8-v7/earley-boyer.js:7873-7901 | one cell tells whether a number is in one of the two lists |
| EarleyChart.Chart.Member | benchmarks/v8-v7/earley-boyer.js:8108-8116 | likewise in a state, also when there is no vector yet |
| EarleyChart.Chart.Get | benchmarks/v8-v7/earley-boyer.js:7830-7852 | the set exists, and no other set or content changes |
| EarleyChart.Chart.Adjoin | benchmarks/v8-v7/earley-boyer.js:7830-7901 | the state has the item and everything that it had, nothing more, and nothing more is processed |
| EarleyChart.Chart.Union | benchmarks/v8-v7/earley-boyer.js:7938-7950 | all processed numbers of the other set are added, and nothing else |
| EarleyChart.Chart.Pop | benchmarks/v8-v7/earley-boyer.js:7983-7990 | the first configuration leaves the list, and its new numbers become processed ones |
| EarleyGrammar.MakeTables | benchmarks/v8-v7/earley-boyer.js:7662-7729 | the tables describe the grammar: steps, starters, enders and predictors, no more and no less |
| EarleyTheory.SoundAdvance | benchmarks/v8-v7/earley-boyer.js:8042-8080 | moving over a symbol that has been derived keeps items sound |
| EarleyTheory.ItemsComplete | benchmarks/v8-v7/earley-boyer.js:7951-8089 | in a closed chart, an item that waits for a symbol moves over every derivation of it, also over empty ones |
| EarleyTheory.RecognisesIff | benchmarks/v8-v7/earley-boyer.js:7951-8122 | in a sound and closed chart, the goal has an item for all tokens iff the grammar derives them |
| EarleyForward.MoveOn | benchmarks/v8-v7/earley-boyer.js:8015-8036 | where the symbol is complete in the same state, the items that wait for it move on |
| EarleyForward.CompleteAll | benchmarks/v8-v7/earley-boyer.js:8042-8080 | all items that wait for the completed symbol move on, from every state where it begins |
| EarleyForward.Process | benchmarks/v8-v7/earley-boyer.js:7983-8085 | handling one configuration keeps the chart sound and closed as far as it is processed, and processes more items |
| EarleyForward.Forw | benchmarks/v8-v7/earley-boyer.js:7951-8089 | the loop ends, with the state processed, sound and closed |
| EarleyParser.Forward | benchmarks/v8-v7/earley-boyer.js:8446-8489 | the whole forward pass ends with a sound and closed chart |
| EarleyParts.NeededStep | benchmarks/v8-v7/earley-boyer.js:8536-8596 | if an item is part of a derivation of the whole input, so are the items that it is made of |
| EarleyParts.NodeKept | benchmarks/v8-v7/earley-boyer.js:8490-8606 | every node of a derivation of the whole input is kept by a chart that is closed under taking items apart |
| EarleyParts.PrunedIff | benchmarks/v8-v7/earley-boyer.js:8490-8606 | the pruned chart has an item for a symbol exactly where the symbol occurs in a derivation of the whole input |
| EarleyParser.AdjoinKept | benchmarks/v8-v7/earley-boyer.js:7903-7937 | an item is added to the pruned chart iff it is in the chart |
| EarleyParser.TakeConf | benchmarks/v8-v7/earley-boyer.js:8523-8602 | handling one configuration of the backward pass keeps only needed items and takes along all that they are made of |
| EarleyParser.Backward | benchmarks/v8-v7/earley-boyer.js:8490-8606 | the backward pass ends with a pruned chart: only needed items, closed under taking apart, with the goal |
| EarleyParser.IsParsed | benchmarks/v8-v7/earley-boyer.js:8090-8122 | on the pruned chart, for any x, for i <= j: whether x occurs from i to j in a derivation of all tokens from the goal; for i > j: whether x occurs from anywhere to j in one |
| EarleyParser.Parsed | benchmarks/v8-v7/earley-boyer.js:8090-8122 | the same after both passes, for all x, i and j |
| EarleyParser.NoSuchSymbol | benchmarks/v8-v7/earley-boyer.js:8103-8121 | a number that stands for no symbol of the grammar occurs nowhere |
| EarleyParser.NothingBackwards | benchmarks/v8-v7/earley-boyer.js:8090-8122 | for i > j no symbol is derived, so every answer of true is wrong there |
| EarleyParser.RightIff | benchmarks/v8-v7/earley-boyer.js:8090-8122 | the answer is right iff i <= j, or x occurs from nowhere to j |
| EarleyParser.WrongBeyondTheEnd | benchmarks/v8-v7/earley-boyer.js:8090-8122 | whenever the goal derives all tokens, is_parsed(goal, i, |tokens|) is wrongly true for every i beyond the end |
| EarleyParser.WrongExample | benchmarks/v8-v7/earley-boyer.js:8090-8122 | with one symbol and one token, is_parsed(0, 2, 1) is true |
| EarleyParser.Recognise | benchmarks/v8-v7/earley-boyer.js:8413-8617 | for every grammar and every input: the goal is parsed iff the grammar derives the input |
| DeltaBlue.Planner.AddConstraintsConsumingTo | benchmarks/v8-v7/deltablue.js:742-749 | appends exactly the satisfied constraints that mention the variable and do not determine it |
| DeltaBlue.Planner.MakePlan | benchmarks/v8-v7/deltablue.js:654-667 | the loop ends; the plan holds exactly the constraints downstream of the sources, each once, behind the one that produces its input |
| DeltaBlue.Planner.ExtractPlanFromConstraints | benchmarks/v8-v7/deltablue.js:673-682 | likewise, from exactly the satisfied input constraints |
| DeltaBlue.Planner.Execute | benchmarks/v8-v7/deltablue.js:776-781 | the values after executing the constraints in order |
| DeltaBlue.ConsumersFed | benchmarks/v8-v7/deltablue.js:742-749 | the consumers of a determined variable are the equalities that take it as input |
| DeltaBlue.Copied | benchmarks/v8-v7/deltablue.js:407-419 | executing a forward equality copies its first variable to its second one, a backward one the second to the first, and nothing else changes |
| DeltaBlue.EditCopied | benchmarks/v8-v7/deltablue.js:776-781 | an edited variable is copied to one that is to be equal to it |
| DeltaBlue.SourcePlanned | benchmarks/v8-v7/deltablue.js:441-444 | a source without input, or whose input stays or is determined by nothing, is in the plan; another one only if the plan computes its input |
| DeltaBlue.PlanDone | benchmarks/v8-v7/deltablue.js:654-667 | when nothing is left to do, being in the plan is being downstream |
| DeltaBlue.PlanRestores | benchmarks/v8-v7/deltablue.js:776-781 | if all satisfied equalities held before the outputs of the sources were written, they all hold after the plan is executed |
| DeltaBlue.Change | benchmarks/v8-v7/deltablue.js:864-875 | the plan for the edit constraint is made and executed ten times; if the constraint is satisfied, all satisfied equalities hold and the variable has the new value, and otherwise only the variable is written |
| Unpacker.CalculateSum | llrt/src/main.c:109-117 | the sum modulo 2^32 |
| Unpacker.ReadData | llrt/src/main.c:153-175 | in any data, the sizes before decompression are the 32-bit numbers from byte 1 on, lowest byte first, and those after it follow; the sum of the latter is modulo 2^32, and the beginning of the content is right iff there are at most 31 parts |
| Unpacker.DataOffset | llrt/src/main.c:171-174 | the 8-bit offset is right iff there are at most 31 parts |
| Unpacker.MakeArgs | llrt/src/main.c:214-234 | the running offsets are the sums of the sizes before, modulo 2^32 |
| Unpacker.SlicesTile | llrt/src/main.c:214-234 | the input slices lie one behind the other and fill the data, and the output slices fill the buffer |
| Unpacker.InputSlices | llrt/src/main.c:214-234 | the input slices are the compressed parts |
| Unpacker.Prepare | llrt/src/main.c:153-234 | for sums below 2^32, the output slices are exact, and the input slices are those of the content iff there are at most 31 parts |
| Unpacker.EveryRun | llrt/src/main.c:138-151 | in every state of every interleaving of threads that write where they were told to, each slice is what its thread alone would have made of it so far |
| Unpacker.RunToTheEnd | llrt/src/main.c:226-244 | every run can be continued until all threads have ended |
| Unpacker.AnyInterleaving | llrt/src/main.c:226-244 | when all threads have ended, the buffer is the concatenation of the parts in order, whatever the interleaving |
| Unpacker.ThreadsUnpack | llrt/src/main.c:138-244 | threads that are told the computed offsets read the compressed parts, and every finished interleaving leaves the decompressed parts in order |
| Unpacker.Unpack | llrt/src/main.c:153-244 | for 1 to 31 parts and any decompression: the sizes are read from the data, the slices tile the data and the buffer, and every finished interleaving leaves the decompressed parts in order |
| LittleEndian.DecodeEncode | llrt_core/src/compiler.rs:73-75 | decoding the bytes of a number gives the number modulo what fits |
| LittleEndian.EncodeDecode | llrt/src/main.rs:221-226 | every byte string is the encoding of the number it decodes to |
| LittleEndian.FourBytes | llrt_core/src/bytecode.rs:25-29 | the four bytes of a 32-bit number, lowest first, in terms of its quotients |
| LittleEndian.EightBytes | llrt_core/src/compiler.rs:73-75 | likewise the eight bytes of a 64-bit number |
| Executable.HeaderUnique | llrt_core/src/bytecode.rs:22-33 | a header can be decoded in one way only: equal modules with a header have equal sizes and contents |
| Executable.TrailerUnique | llrt_core/src/compiler.rs:64-81 | an executable determines its runtime and its module |
| Executable.HeaderBytes | llrt_core/src/bytecode.rs:5-33 | the header in bytes: lrt01, c and four length bytes, or lrt01 and u |
| Executable.AddBytecodeHeader | llrt_core/src/bytecode.rs:22-33 | the bytes of the header, one by one, before the content |
| Executable.TrailerBytes | llrt_core/src/compiler.rs:64-81 | the trailer in bytes: eight length bytes and lrtx |
| Executable.BuildExecutable | llrt_core/src/compiler.rs:64-81 | the runtime, the module and those bytes, one by one |
| Executable.CompressModule | llrt_core/src/compiler.rs:17-24 | the bytes of the header with the length modulo 2^32, before the compressed module |
| Executable.DecodeModule | llrt_core/src/modules/embedded/loader.rs:58-90 | the loader finds a size and content iff the bytes are lrt01, c, four length bytes and the content, and plain content iff they are lrt01, u and the content; it accepts nothing else |
| Executable.DetectModule | llrt/src/main.rs:207-239 | a module is found iff the file ends with it, its eight length bytes and lrtx; without that marker the file is not self-contained; too short a file cannot be read |
| Executable.BuildAndStart | llrt/src/main.rs:207-239 | for every runtime, even one that ends with a trailer, exactly the module is extracted, without underflow |
| Executable.CompileAndLoad | llrt_core/src/modules/embedded/loader.rs:45-56 | a module below 2^32 bytes is loaded as it was compiled, whatever room the buffer has; a longer one exactly if the buffer, made for its length modulo 2^32, has room for it |

## Left out

- `fromRadix` and `toRadix` for other radices, byte arrays as text, Miller-Rabin, random numbers, padding, and the text
  of messages and keys.
- ModPow.ModPow: exponents below zero and moduli of zero or less, for which the source computes nothing of use, are
  excluded; so are moduli of 2^28 - 3 digits and more.
- ModPow.ModPowInt: moduli of zero or less are excluded.
- BigInverse.ModInverse: the operands are not negative.
- Rsa.RsaKey.FromPrimes: choosing the primes is not modelled.
- Text.ParseDigits: digits that are too large for the radix are excluded.
- Text.FromString: digits that are too large for the radix, which the source mixes into the next digit, are excluded.
- Boyer.Prover.AddLemma: equations without a right-hand side are excluded.
- Boyer.Prover.Setup: equations without a right-hand side are excluded.
- BoyerTest.Test: conditions with other than three arguments, on which the checker fails when it takes them apart, are
  excluded; so are equations without a right-hand side.
- RichardsScheduler.RunRichards: the numbers 2322 and 928 that the benchmark expects of its counters are not computed;
  what they count is stated for all counts and all numbers of packets.
- SplayCost.LogarithmicTurns: counts the turns of the loop of `splay_`, not the walk of `findMax`.
- The count of rewrites, the constant lemma set and the printing of the Boyer benchmark; terms with `null` as an atom.
- The numbering of the symbols of a grammar, the lexer, `deriv_trees` and `nb_deriv_trees` of the Earley parser.
- EarleyParser.Recognise: the grammar has at least one symbol, since the goal is the first one.
- DeltaBlue's `incrementalAdd` and `incrementalRemove`, strengths, and scale constraints: the graph that a plan is made
  from is taken to be consistent, as `DeltaBlue.Graph` says.
- DeltaBlue.Change: the edit constraint is in the graph already, and is not taken out of it at the end.
- DeltaBlue.PlanRestores: the edited variables are outputs of the sources of the plan.
- Mapping memory, creating threads and starting the unpacked program. The results of the threads, which the unpacker
  ignores for more than one part, are not modelled: `Unpacker.Unpack` is about parts that decompress to their full size.
- Executable.DetectModule: an offset below zero is one outcome, whether the program then panics or wraps around.
- Failing reads and writes of files, and the other options of the command line.
- The random payloads and the key generator of the splay benchmark, keys that are not numbers, and NaN as a key.
- The ray tracer, the fluid solver, the regular-expression benchmark, the timing harness, the server and its queue, and
  all other modules of LLRT.
