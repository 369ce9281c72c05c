/**
 The unpacker: the runtime comes in parts, which threads decompress into one buffer.
 */
module Unpacker {
  import opened LittleEndian

  const WORD := 0x1_0000_0000

  function Sum(l: seq<nat>): nat {
    if l == [] then 0 else Sum(l[..|l| - 1]) + l[|l| - 1]
  }

  lemma SumSnoc(l: seq<nat>, i: nat)
    requires i < |l|
    ensures Sum(l[..i + 1]) == Sum(l[..i]) + l[i]
  {
    assert l[..i + 1][..i] == l[..i];
  }

  lemma {:induction false} SumMono(l: seq<nat>, i: nat, j: nat)
    requires i <= j <= |l|
    ensures Sum(l[..i]) <= Sum(l[..j])
    decreases j
  {
    if i < j {
      SumMono(l, i, j - 1);
      SumSnoc(l, j - 1);
    }
  }

  /** The sum in 32-bit arithmetic. */
  method CalculateSum(sizes: seq<nat>, size: nat) returns (sum: nat)
    requires size <= |sizes|
    ensures sum == Sum(sizes[..size]) % WORD
  {
    sum := 0;
    for i := 0 to size
      invariant sum == Sum(sizes[..i]) % WORD
    {
      SumSnoc(sizes, i);
      sum := (sum + sizes[i]) % WORD;
    }
  }

  // ----- the format -----

  ghost predicate Sizes(inputs: seq<nat>, outputs: seq<nat>) {
    && |inputs| == |outputs| < 256
    && forall i :: 0 <= i < |inputs| ==> inputs[i] < WORD && outputs[i] < WORD
  }

  /** The number of parts, their sizes before and after decompression, and the compressed parts. */
  function Packed(inputs: seq<nat>, outputs: seq<nat>, content: seq<Byte>): seq<Byte>
    requires |inputs| < 256
  {
    [|inputs|] + Encoded(inputs) + Encoded(outputs) + content
  }

  function Encoded(l: seq<nat>): (s: seq<Byte>)
    ensures |s| == 4 * |l|
  {
    if l == [] then [] else Encoded(l[..|l| - 1]) + ToLe(l[|l| - 1], 4)
  }

  /** `parts` 32-bit numbers, from `at` on. */
  function Words32(data: seq<Byte>, at: nat, parts: nat): (l: seq<nat>)
    requires at + 4 * parts <= |data|
    ensures |l| == parts
  {
    if parts == 0 then [] else Words32(data, at, parts - 1) + [FromLe(data[at + 4 * (parts - 1)..at + 4 * parts])]
  }

  /** Four bytes as a number, the lowest first. */
  function WordAt(data: seq<Byte>, at: nat): (n: nat)
    requires at + 4 <= |data|
    ensures n < WORD
  {
    var a: nat, b: nat, c: nat, d: nat := data[at], data[at + 1], data[at + 2], data[at + 3];
    a + 0x100 * b + 0x1_0000 * c + 0x100_0000 * d
  }

  lemma {:induction false} WordsAt(data: seq<Byte>, at: nat, parts: nat)
    requires at + 4 * parts <= |data|
    ensures forall i: nat :: i < parts ==> Words32(data, at, parts)[i] == WordAt(data, at + 4 * i)
  {
    hide FromLe;
    if parts > 0 {
      WordsAt(data, at, parts - 1);
      var k := at + 4 * (parts - 1);
      FourBytesRead(data[k], data[k + 1], data[k + 2], data[k + 3]);
      assert data[k..k + 4] == [data[k], data[k + 1], data[k + 2], data[k + 3]];
    }
  }

  lemma {:induction false} WordsEncoded(data: seq<Byte>, at: nat, l: seq<nat>)
    requires at + 4 * |l| <= |data| && data[at..at + 4 * |l|] == Encoded(l)
    requires forall i :: 0 <= i < |l| ==> l[i] < WORD
    ensures Words32(data, at, |l|) == l
    decreases |l|
  {
    hide FromLe, ToLe, Encoded;
    if l != [] {
      var n := |l| - 1;
      LastEncoded(data, at, l);
      WordsEncoded(data, at, l[..n]);
      FitsWord(l[n]);
      assert l == l[..n] + [l[n]];
    }
  }

  lemma {:induction false} LastEncoded(data: seq<Byte>, at: nat, l: seq<nat>)
    requires l != [] && at + 4 * |l| <= |data| && data[at..at + 4 * |l|] == Encoded(l)
    ensures var n := |l| - 1;
      data[at..at + 4 * n] == Encoded(l[..n]) && data[at + 4 * n..at + 4 * |l|] == ToLe(l[n], 4)
  {
    hide ToLe;
    var n := |l| - 1;
    var e, w := Encoded(l[..n]), ToLe(l[n], 4);
    TwoSlices(data, at, at + 4 * n, at + 4 * |l|, e, w);
  }

  lemma TwoSlices(data: seq<Byte>, a: nat, b: nat, c: nat, e: seq<Byte>, w: seq<Byte>)
    requires a <= b <= c <= |data| && data[a..c] == e + w && |e| == b - a
    ensures data[a..b] == e && data[b..c] == w
  {
    assert data[a..b] == data[a..c][..b - a];
    assert data[b..c] == data[a..c][b - a..];
  }

  lemma FitsWord(n: nat)
    requires n < WORD
    ensures FromLe(ToLe(n, 4)) == n
  {
    hide FromLe, ToLe, Base;
    LittleEndian.Words();
    DecodeExact(n, 4);
  }

  /** Where the content begins, as an 8-bit number: right exactly for at most 31 parts. */
  function DataOffset(parts: nat): (r: nat)
    ensures r == 1 + 8 * parts <==> parts <= 31
  {
    (1 + 2 * (4 * parts)) % 256
  }

  // ----- the slices -----

  /** What a thread is told: where its input and its output begin, and how long they are. */
  datatype Args = Args(input: nat, src: nat, output: nat, dst: nat)

  /** The offsets are 32-bit numbers that run along. */
  method MakeArgs(inputSizes: seq<nat>, outputSizes: seq<nat>, compressedData: nat) returns (args: seq<Args>)
    requires |inputSizes| == |outputSizes|
    ensures |args| == |inputSizes|
    ensures forall i :: 0 <= i < |args| ==>
      args[i] == Args(compressedData + Sum(inputSizes[..i]) % WORD, inputSizes[i], Sum(outputSizes[..i]) % WORD,
                      outputSizes[i])
  {
    hide Sum;
    SumNone();
    args := [];
    assert inputSizes[..0] == [] && outputSizes[..0] == [];
    var inputOffset, outputOffset := 0, 0;
    for i := 0 to |inputSizes|
      invariant |args| == i && inputOffset == Sum(inputSizes[..i]) % WORD
      invariant outputOffset == Sum(outputSizes[..i]) % WORD
      invariant forall k :: 0 <= k < i ==>
        args[k] == Args(compressedData + Sum(inputSizes[..k]) % WORD, inputSizes[k], Sum(outputSizes[..k]) % WORD,
                        outputSizes[k])
    {
      args := args + [Args(compressedData + inputOffset, inputSizes[i], outputOffset, outputSizes[i])];
      SumSnoc(inputSizes, i);
      SumSnoc(outputSizes, i);
      WrapAdd(Sum(inputSizes[..i]), inputSizes[i]);
      WrapAdd(Sum(outputSizes[..i]), outputSizes[i]);
      inputOffset := (inputOffset + inputSizes[i]) % WORD;
      outputOffset := (outputOffset + outputSizes[i]) % WORD;
    }
  }

  lemma NothingSummed()
    ensures Sum([]) == 0
  {
  }

  lemma SumNone()
    ensures Sum([]) % WORD == 0
  {
  }

  lemma WrapAdd(s: nat, x: nat)
    ensures (s % WORD + x) % WORD == (s + x) % WORD
  {
  }

  /** The slices lie one behind the other from `start` to `end`. */
  ghost predicate Tiles(starts: seq<nat>, lengths: seq<nat>, start: nat, end: nat) {
    && |starts| == |lengths| && (starts == [] ==> start == end)
    && (forall i :: 0 <= i < |starts| ==> starts[i] + lengths[i] == if i + 1 < |starts| then starts[i + 1] else end)
    && (starts != [] ==> starts[0] == start)
  }

  /** Where each part begins. */
  function Offsets(sizes: seq<nat>, start: nat): (l: seq<nat>)
    ensures |l| == |sizes| && forall i :: 0 <= i < |l| ==> l[i] == start + Sum(sizes[..i])
  {
    seq(|sizes|, i requires 0 <= i < |sizes| => start + Sum(sizes[..i]))
  }

  lemma OffsetsTile(sizes: seq<nat>, start: nat)
    ensures Tiles(Offsets(sizes, start), sizes, start, start + Sum(sizes))
  {
    forall i | 0 <= i < |sizes|
      ensures start + Sum(sizes[..i]) + sizes[i] ==
        if i + 1 < |sizes| then start + Sum(sizes[..i + 1]) else start + Sum(sizes)
    {
      SumSnoc(sizes, i);
      assert i + 1 == |sizes| ==> sizes[..i + 1] == sizes;
    }
  }

  /** Without overflow the arguments of the threads are exact. */
  lemma ArgsExact(sizes: seq<nat>, i: nat)
    requires i <= |sizes| && Sum(sizes) < WORD
    ensures Sum(sizes[..i]) % WORD == Sum(sizes[..i])
  {
    SumMono(sizes, i, |sizes|);
    assert sizes[..|sizes|] == sizes;
  }

  // ----- from the data to the slices -----

  lemma PackedParts(inputs: seq<nat>, outputs: seq<nat>, content: seq<Byte>)
    requires Sizes(inputs, outputs)
    ensures var data, n := Packed(inputs, outputs, content), |inputs|;
      && |data| == 1 + 8 * n + |content| && data[0] == n && data[1 + 8 * n..] == content
      && Words32(data, 1, n) == inputs && Words32(data, 1 + 4 * n, n) == outputs
  {
    var data, n := Packed(inputs, outputs, content), |inputs|;
    assert data[1..1 + 4 * n] == Encoded(inputs);
    assert data[1 + 4 * n..1 + 4 * n + 4 * n] == Encoded(outputs);
    WordsEncoded(data, 1, inputs);
    WordsEncoded(data, 1 + 4 * n, outputs);
  }

  /** Finds the two tables, of the sizes before and after decompression, the size that they promise, and where the
      content is said to begin. */
  method ReadData(data: seq<Byte>, parts: nat)
    returns (inputSizes: seq<nat>, outputSizes: seq<nat>, compressedData: nat, uncompressedSize: nat)
    requires 1 + 8 * parts <= |data|
    ensures |inputSizes| == |outputSizes| == parts && uncompressedSize == Sum(outputSizes) % WORD
    ensures forall i: nat :: i < parts ==> inputSizes[i] == WordAt(data, 1 + 4 * i)
    ensures forall i: nat :: i < parts ==> outputSizes[i] == WordAt(data, 1 + 4 * parts + 4 * i)
    ensures compressedData == (1 + 8 * parts) % 256 && (compressedData == 1 + 8 * parts <==> parts <= 31)
  {
    hide Words32, WordAt;
    var metadataSize := 4 * parts;
    inputSizes := Words32(data, 1, parts);
    outputSizes := Words32(data, 1 + metadataSize, parts);
    WordsAt(data, 1, parts);
    WordsAt(data, 1 + metadataSize, parts);
    assert outputSizes[..parts] == outputSizes;
    uncompressedSize := CalculateSum(outputSizes, parts);
    compressedData := DataOffset(parts);
  }

  /** Reads the sizes and cuts the data and the buffer into slices.  Without overflow the output slices tile the
      buffer, and the input slices are those of the content exactly when there are at most 31 parts. */
  method Prepare(data: seq<Byte>, ghost inputs: seq<nat>, ghost outputs: seq<nat>, ghost content: seq<Byte>)
    returns (args: seq<Args>, size: nat)
    requires Sizes(inputs, outputs) && inputs != [] && data == Packed(inputs, outputs, content)
    requires Sum(inputs) < WORD && Sum(outputs) < WORD
    ensures size == Sum(outputs) && |args| == |inputs|
    ensures forall i :: 0 <= i < |args| ==> args[i].output == Offsets(outputs, 0)[i] && args[i].dst == outputs[i]
    ensures |inputs| <= 31 <==> forall i :: 0 <= i < |args| ==>
      args[i].input == Offsets(inputs, 1 + 8 * |inputs|)[i] && args[i].src == inputs[i]
  {
    hide Sum, Packed, Words32, WordAt;
    PackedParts(inputs, outputs, content);
    var parts: nat := data[0];
    var inputSizes, outputSizes, offset, total := ReadData(data, parts);
    WordsAt(data, 1, parts);
    WordsAt(data, 1 + 4 * parts, parts);
    assert inputSizes == inputs && outputSizes == outputs;
    args := MakeArgs(inputSizes, outputSizes, offset);
    size := total;
    assert outputs[..|outputs|] == outputs;
    ArgsExact(outputs, |outputs|);
    forall i | 0 <= i < |args|
      ensures args[i].output == Sum(outputs[..i]) && args[i].input == offset + Sum(inputs[..i])
    {
      ArgsExact(outputs, i);
      ArgsExact(inputs, i);
    }
    assert args[0].src == inputs[0];
  }

  // ----- the threads -----

  /** A write of a thread into its slice of the buffer. */
  datatype Write = Write(at: nat, value: Byte)

  /** What a thread leaves in its slice when it runs alone. */
  function Alone(slice: seq<Byte>, writes: seq<Write>): (r: seq<Byte>)
    requires forall k :: 0 <= k < |writes| ==> writes[k].at < |slice|
    ensures |r| == |slice|
  {
    if writes == [] then slice
    else
      var n := |writes| - 1;
      Alone(slice, writes[..n])[writes[n].at := writes[n].value]
  }

  /** The buffer, and how far each thread is. */
  datatype Machine = Machine(buffer: seq<Byte>, pc: seq<nat>)

  /** The threads, each with what it was told and the writes it will make, in order. */
  datatype Threads = Threads(args: seq<Args>, writes: seq<seq<Write>>)

  /** No thread writes beyond its slice. */
  ghost predicate Proper(t: Threads) {
    && |t.args| == |t.writes|
    && forall i, k :: 0 <= i < |t.writes| && 0 <= k < |t.writes[i]| ==> t.writes[i][k].at < t.args[i].dst
  }

  /** The output slices lie one behind the other in a buffer. */
  ghost predicate InOrder(args: seq<Args>, size: nat) {
    && (forall i :: 0 <= i < |args| ==> args[i].output + args[i].dst <= size)
    && (forall i, j :: 0 <= i < j < |args| ==> args[i].output + args[i].dst <= args[j].output)
  }

  ghost predicate Started(t: Threads, m: Machine) {
    && InOrder(t.args, |m.buffer|) && |m.pc| == |t.writes|
    && forall i :: 0 <= i < |m.pc| ==> m.pc[i] <= |t.writes[i]|
  }

  /** Thread `i` makes its next write, where it was told to. */
  function Step(t: Threads, m: Machine, i: nat): Machine
    requires i < |m.pc| && i < |t.writes| && m.pc[i] < |t.writes[i]| && i < |t.args|
  {
    var w := t.writes[i][m.pc[i]];
    var at := t.args[i].output + w.at;
    Machine(if at < |m.buffer| then m.buffer[at := w.value] else m.buffer, m.pc[i := m.pc[i] + 1])
  }

  /** `schedule` is the order in which the threads make their writes; a thread that has ended is passed over. */
  function Interleave(t: Threads, m: Machine, schedule: seq<nat>): Machine {
    if schedule == [] then m
    else
      var b := Interleave(t, m, schedule[..|schedule| - 1]);
      var i := schedule[|schedule| - 1];
      if i < |b.pc| && i < |t.writes| && b.pc[i] < |t.writes[i]| && i < |t.args| then Step(t, b, i) else b
  }

  /** All threads before their first write. */
  function Begin(t: Threads, first: seq<Byte>): Machine {
    Machine(first, seq(|t.writes|, _ => 0))
  }

  /** All threads have ended. */
  ghost predicate Ended(t: Threads, m: Machine) {
    |m.pc| == |t.writes| && forall i :: 0 <= i < |m.pc| ==> m.pc[i] == |t.writes[i]|
  }

  function Slice(t: Threads, buffer: seq<Byte>, i: nat): (s: seq<Byte>)
    requires i < |t.args| && t.args[i].output + t.args[i].dst <= |buffer|
    ensures |s| == t.args[i].dst
  {
    buffer[t.args[i].output..t.args[i].output + t.args[i].dst]
  }

  /** Every thread has done to its slice what it would have done alone. */
  ghost predicate AsAlone(t: Threads, first: seq<Byte>, m: Machine)
    requires Proper(t) && Started(t, m) && |first| == |m.buffer|
  {
    forall i :: 0 <= i < |t.args| ==> SliceAsAlone(t, first, m, i)
  }

  ghost predicate SliceAsAlone(t: Threads, first: seq<Byte>, m: Machine, i: nat)
    requires Proper(t) && Started(t, m) && |first| == |m.buffer| && i < |t.args|
  {
    Slice(t, m.buffer, i) == Alone(Slice(t, first, i), t.writes[i][..m.pc[i]])
  }

  /** A write of one thread leaves the slices of the others alone. */
  lemma StepAsAlone(t: Threads, first: seq<Byte>, m: Machine, j: nat)
    requires Proper(t) && Started(t, m) && |first| == |m.buffer| && AsAlone(t, first, m)
    requires j < |m.pc| && m.pc[j] < |t.writes[j]|
    ensures Started(t, Step(t, m, j)) && |Step(t, m, j).buffer| == |first| && AsAlone(t, first, Step(t, m, j))
  {
    var m' := Step(t, m, j);
    forall i | 0 <= i < |t.args|
      ensures SliceAsAlone(t, first, m', i)
    {
      assert SliceAsAlone(t, first, m, i);
      if i == j {
        OwnWrite(t, first, m, j);
      } else {
        OtherWrite(t, m, i, j);
      }
    }
  }

  lemma OwnWrite(t: Threads, first: seq<Byte>, m: Machine, j: nat)
    requires Proper(t) && Started(t, m) && |first| == |m.buffer| && j < |m.pc| && m.pc[j] < |t.writes[j]|
    requires SliceAsAlone(t, first, m, j) && Started(t, Step(t, m, j)) && |Step(t, m, j).buffer| == |first|
    ensures SliceAsAlone(t, first, Step(t, m, j), j)
  {
    var m', w, ws, n := Step(t, m, j), t.writes[j][m.pc[j]], t.writes[j], m.pc[j];
    assert ws[..n + 1][..n] == ws[..n];
    assert Slice(t, m'.buffer, j) == Slice(t, m.buffer, j)[w.at := w.value];
  }

  lemma OtherWrite(t: Threads, m: Machine, i: nat, j: nat)
    requires Proper(t) && Started(t, m) && i < |t.args| && j < |m.pc| && m.pc[j] < |t.writes[j]| && i != j
    ensures Started(t, Step(t, m, j)) && Slice(t, Step(t, m, j).buffer, i) == Slice(t, m.buffer, i)
  {
    var m', w := Step(t, m, j), t.writes[j][m.pc[j]];
    var a, b := t.args[i], t.args[j];
    assert w.at < b.dst && (a.output + a.dst <= b.output || b.output + b.dst <= a.output);
    assert Slice(t, m'.buffer, i) == Slice(t, m.buffer, i);
  }

  /** This holds in every state of every run. */
  lemma {:induction false} EveryRun(t: Threads, first: seq<Byte>, schedule: seq<nat>)
    requires Proper(t) && InOrder(t.args, |first|)
    ensures var m := Interleave(t, Begin(t, first), schedule);
      Started(t, m) && |m.buffer| == |first| && AsAlone(t, first, m)
    decreases |schedule|
  {
    var m0 := Begin(t, first);
    if schedule == [] {
      forall i | 0 <= i < |t.args|
        ensures SliceAsAlone(t, first, m0, i)
      {
        assert t.writes[i][..0] == [];
      }
    } else {
      EveryRun(t, first, schedule[..|schedule| - 1]);
      var b, i := Interleave(t, m0, schedule[..|schedule| - 1]), schedule[|schedule| - 1];
      if i < |b.pc| && b.pc[i] < |t.writes[i]| {
        StepAsAlone(t, first, b, i);
      }
    }
  }

  /** The number of writes that the first `n` threads have left. */
  ghost function Left(t: Threads, pc: seq<nat>, n: nat): int
    requires n <= |pc| && n <= |t.writes|
  {
    if n == 0 then 0 else Left(t, pc, n - 1) + |t.writes[n - 1]| - pc[n - 1]
  }

  lemma {:induction false} LeftAfter(t: Threads, pc: seq<nat>, n: nat, i: nat)
    requires n <= |pc| == |t.writes| && i < |pc| && forall k :: 0 <= k < |pc| ==> pc[k] <= |t.writes[k]|
    ensures Left(t, pc, n) >= 0
    ensures Left(t, pc[i := pc[i] + 1], n) == Left(t, pc, n) - if i < n then 1 else 0
  {
    if n > 0 {
      LeftAfter(t, pc, n - 1, i);
    }
  }

  /** Every run can go on until all threads have ended; `left` bounds the number of writes. */
  lemma {:induction false} RunToTheEnd(t: Threads, first: seq<Byte>, schedule: seq<nat>, left: nat)
    returns (longer: seq<nat>)
    requires Proper(t) && InOrder(t.args, |first|)
    requires var pc := Interleave(t, Begin(t, first), schedule).pc; |pc| == |t.writes| && Left(t, pc, |pc|) <= left
    ensures schedule <= longer && Ended(t, Interleave(t, Begin(t, first), longer))
    decreases left
  {
    hide Interleave, Begin, Left, Step, InOrder, AsAlone;
    EveryRun(t, first, schedule);
    var m := Interleave(t, Begin(t, first), schedule);
    longer := schedule;
    if i :| 0 <= i < |m.pc| && m.pc[i] < |t.writes[i]| {
      OneMoreWrite(t, Begin(t, first), schedule, i);
      LeftAfter(t, m.pc, |t.writes|, i);
      EveryRun(t, first, schedule + [i]);
      LeftAfter(t, m.pc[i := m.pc[i] + 1], |t.writes|, i);
      longer := RunToTheEnd(t, first, schedule + [i], left - 1);
    }
  }

  lemma OneMoreWrite(t: Threads, m0: Machine, schedule: seq<nat>, i: nat)
    requires var m := Interleave(t, m0, schedule);
      i < |m.pc| && i < |t.writes| && m.pc[i] < |t.writes[i]| && i < |t.args|
    ensures var m := Interleave(t, m0, schedule);
      Interleave(t, m0, schedule + [i]).pc == m.pc[i := m.pc[i] + 1]
  {
    hide Interleave;
    var next := schedule + [i];
    assert next[..|next| - 1] == schedule && next[|next| - 1] == i;
    LastStep(t, m0, next);
  }

  lemma LastStep(t: Threads, m0: Machine, next: seq<nat>)
    requires next != []
    requires var m, i := Interleave(t, m0, next[..|next| - 1]), next[|next| - 1];
      i < |m.pc| && i < |t.writes| && m.pc[i] < |t.writes[i]| && i < |t.args|
    ensures var m, i := Interleave(t, m0, next[..|next| - 1]), next[|next| - 1];
      Interleave(t, m0, next).pc == m.pc[i := m.pc[i] + 1]
  {
  }

  // ----- all parts together -----

  function Concat(l: seq<seq<Byte>>): seq<Byte> {
    if l == [] then [] else Concat(l[..|l| - 1]) + l[|l| - 1]
  }

  ghost predicate Lengths(parts: seq<seq<Byte>>, sizes: seq<nat>) {
    |parts| == |sizes| && forall i :: 0 <= i < |parts| ==> |parts[i]| == sizes[i]
  }

  /** A part is a slice of the concatenation. */
  lemma {:induction false} ConcatSlice(parts: seq<seq<Byte>>, sizes: seq<nat>, i: nat)
    requires Lengths(parts, sizes) && i < |parts|
    ensures |Concat(parts)| == Sum(sizes) && Sum(sizes[..i]) + sizes[i] <= Sum(sizes)
    ensures Concat(parts)[Sum(sizes[..i])..Sum(sizes[..i]) + sizes[i]] == parts[i]
    decreases |parts|
  {
    var n := |parts| - 1;
    var front, last := Concat(parts[..n]), parts[n];
    ConcatLength(parts[..n], sizes[..n]);
    assert Concat(parts) == front + last && Sum(sizes) == Sum(sizes[..n]) + sizes[n];
    if i == n {
      assert (front + last)[|front|..|front| + |last|] == last;
    } else {
      ConcatSlice(parts[..n], sizes[..n], i);
      assert sizes[..n][..i] == sizes[..i];
      var x, y := Sum(sizes[..i]), Sum(sizes[..i]) + sizes[i];
      assert y <= |front| && (front + last)[x..y] == front[x..y];
    }
  }

  lemma {:induction false} ConcatLength(parts: seq<seq<Byte>>, sizes: seq<nat>)
    requires Lengths(parts, sizes)
    ensures |Concat(parts)| == Sum(sizes)
    decreases |parts|
  {
    if parts != [] {
      ConcatLength(parts[..|parts| - 1], sizes[..|parts| - 1]);
    }
  }

  /** A buffer whose slices are the parts is their concatenation. */
  lemma {:induction false} SlicesConcat(buffer: seq<Byte>, parts: seq<seq<Byte>>, sizes: seq<nat>, n: nat)
    requires Lengths(parts, sizes) && |buffer| == Sum(sizes) && n <= |parts|
    requires forall i :: 0 <= i < |parts| ==> IsSlice(buffer, Sum(sizes[..i]), parts[i])
    ensures Sum(sizes[..n]) <= |buffer| && Concat(parts[..n]) == buffer[..Sum(sizes[..n])]
    decreases n
  {
    hide Sum;
    SumMono(sizes, n, |sizes|);
    assert sizes[..|sizes|] == sizes;
    if n == 0 {
      assert parts[..0] == [] && sizes[..0] == [];
      NothingSummed();
    } else {
      SlicesConcat(buffer, parts, sizes, n - 1);
      SumSnoc(sizes, n - 1);
      assert parts[..n][..n - 1] == parts[..n - 1];
      assert IsSlice(buffer, Sum(sizes[..n - 1]), parts[n - 1]);
    }
  }

  ghost predicate IsSlice(buffer: seq<Byte>, at: nat, part: seq<Byte>) {
    at + |part| <= |buffer| && buffer[at..at + |part|] == part
  }

  /** The writes of `program` leave the decompressed content, whatever was in the slice before. */
  ghost predicate Implements(program: seq<Byte> -> seq<Write>, decompress: seq<Byte> -> seq<Byte>) {
    forall c, s :: |s| == |decompress(c)| ==> Leaves(program(c), s, decompress(c))
  }

  ghost predicate Leaves(writes: seq<Write>, s: seq<Byte>, result: seq<Byte>) {
    && (forall k :: 0 <= k < |writes| ==> writes[k].at < |s|)
    && Alone(s, writes) == result
  }

  /** The data of some compressed parts whose sizes are known. */
  ghost predicate IsPacked(data: seq<Byte>, inputs: seq<nat>, outputs: seq<nat>, compressed: seq<seq<Byte>>,
                           decompress: seq<Byte> -> seq<Byte>) {
    && Sizes(inputs, outputs) && Sum(inputs) < WORD && Sum(outputs) < WORD && Lengths(compressed, inputs)
    && data == Packed(inputs, outputs, Concat(compressed))
    && forall i :: 0 <= i < |compressed| ==> |decompress(compressed[i])| == outputs[i]
  }

  function Decompressed(compressed: seq<seq<Byte>>, decompress: seq<Byte> -> seq<Byte>): seq<seq<Byte>> {
    seq(|compressed|, i requires 0 <= i < |compressed| => decompress(compressed[i]))
  }

  /** What the threads are told is exact. */
  ghost predicate Exact(args: seq<Args>, inputs: seq<nat>, outputs: seq<nat>) {
    && |args| == |inputs| == |outputs|
    && forall i :: 0 <= i < |args| ==>
      args[i] == Args(1 + 8 * |inputs| + Sum(inputs[..i]), inputs[i], Sum(outputs[..i]), outputs[i])
  }

  lemma OutputsInOrder(args: seq<Args>, inputs: seq<nat>, outputs: seq<nat>)
    requires Exact(args, inputs, outputs)
    ensures InOrder(args, Sum(outputs))
  {
    hide Sum;
    assert outputs[..|outputs|] == outputs;
    forall i, j | 0 <= i < j <= |args|
      ensures Sum(outputs[..i]) + outputs[i] <= Sum(outputs[..j])
    {
      SumSnoc(outputs, i);
      SumMono(outputs, i + 1, j);
    }
  }

  /** Where the threads were told to read, and where to write. */
  function InputStarts(args: seq<Args>): (l: seq<nat>)
    ensures |l| == |args| && forall i :: 0 <= i < |args| ==> l[i] == args[i].input
  {
    seq(|args|, i requires 0 <= i < |args| => args[i].input)
  }

  function OutputStarts(args: seq<Args>): (l: seq<nat>)
    ensures |l| == |args| && forall i :: 0 <= i < |args| ==> l[i] == args[i].output
  {
    seq(|args|, i requires 0 <= i < |args| => args[i].output)
  }

  lemma SlicesTile(args: seq<Args>, inputs: seq<nat>, outputs: seq<nat>, start: nat)
    requires Exact(args, inputs, outputs) && start == 1 + 8 * |inputs|
    ensures Tiles(InputStarts(args), inputs, start, start + Sum(inputs))
    ensures Tiles(OutputStarts(args), outputs, 0, Sum(outputs))
  {
    hide Sum, Tiles, InputStarts, OutputStarts, Offsets;
    OffsetsTile(inputs, start);
    SameStarts(InputStarts(args), Offsets(inputs, start));
    OffsetsTile(outputs, 0);
    SameStarts(OutputStarts(args), Offsets(outputs, 0));
  }

  lemma SameStarts(l: seq<nat>, k: seq<nat>)
    requires |l| == |k| && forall i :: 0 <= i < |l| ==> l[i] == k[i]
    ensures l == k
  {
  }

  /** The input slices are the compressed parts. */
  lemma InputSlices(data: seq<Byte>, inputs: seq<nat>, outputs: seq<nat>, compressed: seq<seq<Byte>>, args: seq<Args>)
    requires Exact(args, inputs, outputs) && Sizes(inputs, outputs) && Lengths(compressed, inputs)
    requires data == Packed(inputs, outputs, Concat(compressed))
    ensures |data| == 1 + 8 * |inputs| + Sum(inputs)
    ensures forall i :: 0 <= i < |args| ==> IsSlice(data, args[i].input, compressed[i])
  {
    hide Sum, Packed, Concat, Words32;
    PackedParts(inputs, outputs, Concat(compressed));
    ConcatLength(compressed, inputs);
    var start, content := 1 + 8 * |inputs|, Concat(compressed);
    forall i | 0 <= i < |args|
      ensures IsSlice(data, args[i].input, compressed[i])
    {
      InputSlice(data, start, content, inputs, compressed, i);
    }
  }

  lemma InputSlice(data: seq<Byte>, start: nat, content: seq<Byte>, inputs: seq<nat>, compressed: seq<seq<Byte>>,
                   i: nat)
    requires Lengths(compressed, inputs) && i < |inputs| && content == Concat(compressed)
    requires start <= |data| && data[start..] == content
    ensures IsSlice(data, start + Sum(inputs[..i]), compressed[i])
  {
    hide Sum, Concat;
    ConcatSlice(compressed, inputs, i);
    SliceBehind(data, start, content, Sum(inputs[..i]), inputs[i]);
  }

  lemma SliceBehind(data: seq<Byte>, start: nat, content: seq<Byte>, at: nat, n: nat)
    requires start <= |data| && data[start..] == content && at + n <= |content|
    ensures start + at + n <= |data| && data[start + at..start + at + n] == content[at..at + n]
  {
    assert data[start..][at..at + n] == data[start + at..start + at + n];
  }

  /** When all threads have ended, the buffer holds the parts in order, however the threads were interleaved. */
  lemma AnyInterleaving(t: Threads, first: seq<Byte>, schedule: seq<nat>, inputs: seq<nat>, sizes: seq<nat>,
                        parts: seq<seq<Byte>>)
    requires Proper(t) && Exact(t.args, inputs, sizes) && |first| == Sum(sizes) && Lengths(parts, sizes)
    requires forall i, s :: 0 <= i < |parts| && |s| == sizes[i] ==> Leaves(t.writes[i], s, parts[i])
    requires Ended(t, Interleave(t, Begin(t, first), schedule))
    ensures Interleave(t, Begin(t, first), schedule).buffer == Concat(parts)
  {
    hide Interleave, Begin, Alone, Concat, Sum;
    OutputsInOrder(t.args, inputs, sizes);
    EveryRun(t, first, schedule);
    var m := Interleave(t, Begin(t, first), schedule);
    forall i | 0 <= i < |parts|
      ensures IsSlice(m.buffer, Sum(sizes[..i]), parts[i])
    {
      assert SliceAsAlone(t, first, m, i);
      assert t.writes[i][..m.pc[i]] == t.writes[i];
      assert Leaves(t.writes[i], Slice(t, first, i), parts[i]);
    }
    SlicesConcat(m.buffer, parts, sizes, |parts|);
    assert parts[..|parts|] == parts && sizes[..|sizes|] == sizes;
  }

  /** Each thread runs the program on what it finds in the slice of the data that it was told to read. */
  ghost predicate Runs(t: Threads, data: seq<Byte>, program: seq<Byte> -> seq<Write>) {
    && |t.writes| == |t.args|
    && forall i :: 0 <= i < |t.args| ==>
         && t.args[i].input + t.args[i].src <= |data|
         && t.writes[i] == program(data[t.args[i].input..t.args[i].input + t.args[i].src])
  }

  /** Such threads leave the decompressed parts in order, whatever the interleaving and whatever was in the buffer. */
  ghost predicate Unpacks(t: Threads, size: nat, parts: seq<seq<Byte>>) {
    forall first, schedule :: |first| == size && Ended(t, Interleave(t, Begin(t, first), schedule)) ==>
      Interleave(t, Begin(t, first), schedule).buffer == Concat(parts)
  }

  lemma RunsAll(t: Threads, data: seq<Byte>, program: seq<Byte> -> seq<Write>)
    requires Runs(t, data, program)
    ensures |t.writes| == |t.args|
  {
  }

  lemma WritesOfParts(t: Threads, data: seq<Byte>, program: seq<Byte> -> seq<Write>, compressed: seq<seq<Byte>>)
    requires Runs(t, data, program) && |t.args| == |compressed|
    requires forall i :: 0 <= i < |t.args| ==> IsSlice(data, t.args[i].input, compressed[i])
    requires forall i :: 0 <= i < |t.args| ==> t.args[i].src == |compressed[i]|
    ensures forall i :: 0 <= i < |compressed| ==> t.writes[i] == program(compressed[i])
  {
    forall i | 0 <= i < |compressed|
      ensures t.writes[i] == program(compressed[i])
    {
      assert IsSlice(data, t.args[i].input, compressed[i]);
    }
  }

  lemma ThreadsUnpack(t: Threads, data: seq<Byte>, program: seq<Byte> -> seq<Write>, inputs: seq<nat>,
                      outputs: seq<nat>,
                      compressed: seq<seq<Byte>>, decompress: seq<Byte> -> seq<Byte>)
    requires IsPacked(data, inputs, outputs, compressed, decompress) && Implements(program, decompress)
    requires Exact(t.args, inputs, outputs) && Runs(t, data, program)
    ensures Proper(t) && Unpacks(t, Sum(outputs), Decompressed(compressed, decompress))
    ensures |data| == 1 + 8 * |inputs| + Sum(inputs)
    ensures forall i :: 0 <= i < |t.args| ==> IsSlice(data, t.args[i].input, compressed[i])
  {
    hide Sum, Packed, Concat, Interleave, Begin, Alone, Implements, Decompressed, Runs, IsSlice, Leaves, Ended;
    RunsAll(t, data, program);
    var parts := Decompressed(compressed, decompress);
    InputSlices(data, inputs, outputs, compressed, t.args);
    WritesOfParts(t, data, program, compressed);
    ProgramsProper(t, program, outputs, compressed, decompress);
    forall first, schedule | |first| == Sum(outputs) && Ended(t, Interleave(t, Begin(t, first), schedule))
      ensures Interleave(t, Begin(t, first), schedule).buffer == Concat(parts)
    {
      AnyInterleaving(t, first, schedule, inputs, outputs, parts);
    }
  }

  /** Reads the sizes, cuts the data and the buffer into slices, and makes a thread for each part.  For 1 to 31 parts,
      the slices tile the data and the buffer, the threads read the compressed parts, and every interleaving leaves the
      decompressed parts in order. */
  method Unpack(data: seq<Byte>, program: seq<Byte> -> seq<Write>, ghost inputs: seq<nat>, ghost outputs: seq<nat>,
                ghost compressed: seq<seq<Byte>>, ghost decompress: seq<Byte> -> seq<Byte>)
    returns (t: Threads, size: nat)
    requires IsPacked(data, inputs, outputs, compressed, decompress) && Implements(program, decompress)
    requires 1 <= |compressed| <= 31
    ensures size == Sum(outputs) && Runs(t, data, program) && Proper(t)
    ensures |t.args| == |compressed| && forall i :: 0 <= i < |t.args| ==> IsSlice(data, t.args[i].input, compressed[i])
    ensures Tiles(InputStarts(t.args), inputs, 1 + 8 * |inputs|, |data|)
    ensures Tiles(OutputStarts(t.args), outputs, 0, size)
    ensures Unpacks(t, size, Decompressed(compressed, decompress))
  {
    hide Sum, Packed, Concat, Tiles, Implements, Unpacks, Decompressed, InputStarts, OutputStarts;
    var args;
    args, size := Prepare(data, inputs, outputs, Concat(compressed));
    assert Exact(args, inputs, outputs);
    SlicesTile(args, inputs, outputs, 1 + 8 * |inputs|);
    InputSlices(data, inputs, outputs, compressed, args);
    var writes := ProgramsFor(data, args, program, compressed);
    t := Threads(args, writes);
    ThreadsUnpack(t, data, program, inputs, outputs, compressed, decompress);
  }

  method ProgramsFor(data: seq<Byte>, args: seq<Args>, program: seq<Byte> -> seq<Write>,
                     ghost compressed: seq<seq<Byte>>)
    returns (writes: seq<seq<Write>>)
    requires |args| == |compressed| && forall i :: 0 <= i < |args| ==> args[i].src == |compressed[i]|
    requires forall i :: 0 <= i < |args| ==> IsSlice(data, args[i].input, compressed[i])
    ensures Runs(Threads(args, writes), data, program)
  {
    writes := [];
    for i := 0 to |args|
      invariant |writes| == i
      invariant forall k :: 0 <= k < i ==>
                  && args[k].input + args[k].src <= |data|
                  && writes[k] == program(data[args[k].input..args[k].input + args[k].src])
    {
      assert IsSlice(data, args[i].input, compressed[i]);
      writes := writes + [program(data[args[i].input..args[i].input + args[i].src])];
    }
  }

  lemma ProgramsProper(t: Threads, program: seq<Byte> -> seq<Write>, outputs: seq<nat>, compressed: seq<seq<Byte>>,
                       decompress: seq<Byte> -> seq<Byte>)
    requires |t.args| == |t.writes| == |compressed| == |outputs| && Implements(program, decompress)
    requires forall i :: 0 <= i < |compressed| ==>
      t.writes[i] == program(compressed[i]) && |decompress(compressed[i])| == outputs[i] == t.args[i].dst
    ensures Proper(t) && Lengths(Decompressed(compressed, decompress), outputs)
    ensures forall i, s :: 0 <= i < |compressed| && |s| == outputs[i] ==>
      Leaves(t.writes[i], s, Decompressed(compressed, decompress)[i])
  {
    hide Alone;
    forall i, k | 0 <= i < |t.writes| && 0 <= k < |t.writes[i]|
      ensures t.writes[i][k].at < t.args[i].dst
    {
      assert Leaves(program(compressed[i]), decompress(compressed[i]), decompress(compressed[i]));
    }
  }
}
