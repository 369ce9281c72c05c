/**
 Self-contained executables: the runtime, the module with its header, the length of the module, and a marker.
 */
module Executable {
  import opened Wrappers
  import opened LittleEndian

  // ----- the header of a module -----

  const VERSION: seq<Byte> := [108, 114, 116, 48, 49] // "lrt01"
  const COMPRESSED: Byte := 99 // 'c'
  const UNCOMPRESSED: Byte := 117 // 'u'
  const MARKER: seq<Byte> := [108, 114, 116, 120] // "lrtx"

  /** The version, a flag, the size of the module before compression if it is compressed, and the content. */
  function Header(size: Option<nat>): seq<Byte> {
    VERSION + match size case Some(n) => [COMPRESSED] + ToLe(n, 4) case None => [UNCOMPRESSED]
  }

  /** The bytes of a header: "lrt01", then "c" and the size, lowest byte first, or "u". */
  lemma HeaderBytes(n: nat)
    requires n < 0x1_0000_0000
    ensures Header(Some(n)) ==
      [108, 114, 116, 48, 49, 99, n % 256, n / 0x100 % 256, n / 0x1_0000 % 256, n / 0x100_0000]
    ensures Header(None) == [108, 114, 116, 48, 49, 117]
  {
    FourBytes(n);
  }

  method AddBytecodeHeader(bytes: seq<Byte>, size: Option<nat>) returns (r: seq<Byte>)
    ensures r == Header(size) + bytes
    ensures forall n: nat :: size == Some(n) && n < 0x1_0000_0000 ==>
      r == [108, 114, 116, 48, 49, 99, n % 256, n / 0x100 % 256, n / 0x1_0000 % 256, n / 0x100_0000] + bytes
    ensures size == None ==> r == [108, 114, 116, 48, 49, 117] + bytes
  {
    r := [];
    r := r + VERSION;
    match size {
      case Some(n) =>
        r := r + [COMPRESSED];
        r := r + ToLe(n, 4);
      case None =>
        r := r + [UNCOMPRESSED];
    }
    r := r + bytes;
    if size.Some? && size.value < 0x1_0000_0000 {
      HeaderBytes(size.value);
    }
  }

  /** What the loader makes of the bytes of a module. */
  datatype Decoded = Compressed(size: nat, content: seq<Byte>) | Plain(content: seq<Byte>) | Invalid

  /** A module with a header, byte by byte, or nothing. */
  method DecodeModule(input: seq<Byte>) returns (r: Decoded)
    ensures forall n: nat, b :: n < 0x1_0000_0000 ==>
      (r == Compressed(n, b) <==>
       input == [108, 114, 116, 48, 49, 99, n % 256, n / 0x100 % 256, n / 0x1_0000 % 256, n / 0x100_0000] + b)
    ensures forall b :: r == Plain(b) <==> input == [108, 114, 116, 48, 49, 117] + b
  {
    r := Decode(input);
    Words();
    forall n: nat, b | n < 0x1_0000_0000
      ensures r == Compressed(n, b) <==>
        input == [108, 114, 116, 48, 49, 99, n % 256, n / 0x100 % 256, n / 0x1_0000 % 256, n / 0x100_0000] + b
    {
      HeaderBytes(n);
    }
    HeaderBytes(0);
  }

  method Decode(input: seq<Byte>) returns (r: Decoded)
    ensures forall n: nat, b :: n < Base(4) ==> (r == Compressed(n, b) <==> input == Header(Some(n)) + b)
    ensures forall b :: r == Plain(b) <==> input == Header(None) + b
  {
    if |input| < 6 {
      return Invalid;
    }
    var last, signature := input[5], input[..5];
    if signature != VERSION {
      NotOurs(input);
      return Invalid;
    }
    var rest := input[6..];
    assert input == VERSION + [last] + rest;
    if last == COMPRESSED {
      if |rest| < 4 {
        TooShort(input);
        return Invalid;
      }
      var n := FromLe(rest[..4]);
      SizeUnique(input, rest);
      return Compressed(n, rest[4..]);
    } else if last == UNCOMPRESSED {
      PlainUnique(input, rest);
      return Plain(rest);
    }
    OtherFlag(input);
    return Invalid;
  }

  lemma HeaderParts(size: Option<nat>, b: seq<Byte>)
    ensures var x := Header(size) + b;
      && |x| >= 6 && x[..5] == VERSION && x[5] == (if size.Some? then COMPRESSED else UNCOMPRESSED)
      && (size.Some? ==> |x| >= 10 && x[6..10] == ToLe(size.value, 4) && x[10..] == b)
      && (size.None? ==> x[6..] == b)
  {
  }

  lemma NotOurs(input: seq<Byte>)
    requires |input| >= 6 && input[..5] != VERSION
    ensures forall size, b :: input != Header(size) + b
  {
    forall size, b
      ensures input != Header(size) + b
    {
      HeaderParts(size, b);
    }
  }

  lemma TooShort(input: seq<Byte>)
    requires 6 <= |input| < 10 && input[5] == COMPRESSED
    ensures forall size, b :: input != Header(size) + b
  {
    forall size, b
      ensures input != Header(size) + b
    {
      HeaderParts(size, b);
    }
  }

  lemma OtherFlag(input: seq<Byte>)
    requires |input| >= 6 && input[5] != COMPRESSED && input[5] != UNCOMPRESSED
    ensures forall size, b :: input != Header(size) + b
  {
    forall size, b
      ensures input != Header(size) + b
    {
      HeaderParts(size, b);
    }
  }

  lemma SizeUnique(input: seq<Byte>, rest: seq<Byte>)
    requires input == VERSION + [COMPRESSED] + rest && |rest| >= 4
    ensures forall n: nat, b :: n < Base(4) ==>
      (input == Header(Some(n)) + b <==> n == FromLe(rest[..4]) && b == rest[4..])
    ensures forall b :: input != Header(None) + b
  {
    hide Base, ToLe, FromLe;
    forall n: nat, b | n < Base(4)
      ensures input == Header(Some(n)) + b <==> n == FromLe(rest[..4]) && b == rest[4..]
    {
      HeaderParts(Some(n), b);
      DecodeExact(n, 4);
      EncodeDecode(rest[..4]);
      if n == FromLe(rest[..4]) && b == rest[4..] {
        assert rest == ToLe(n, 4) + b;
      }
      if input == Header(Some(n)) + b {
        assert rest == input[6..];
        assert rest[..4] == input[6..10];
      }
    }
    forall b
      ensures input != Header(None) + b
    {
      HeaderParts(None, b);
    }
  }

  lemma PlainUnique(input: seq<Byte>, rest: seq<Byte>)
    requires input == VERSION + [UNCOMPRESSED] + rest
    ensures forall n: nat, b :: input != Header(Some(n)) + b
    ensures forall b :: input == Header(None) + b <==> b == rest
  {
    forall n: nat, b
      ensures input != Header(Some(n)) + b
    {
      HeaderParts(Some(n), b);
    }
    forall b
      ensures input == Header(None) + b <==> b == rest
    {
      HeaderParts(None, b);
    }
  }

  /** A header is uniquely decodable: two modules with a header are equal only if their sizes and contents are. */
  lemma HeaderUnique(size: Option<nat>, b: seq<Byte>, size': Option<nat>, b': seq<Byte>)
    requires Header(size) + b == Header(size') + b'
    requires (size.Some? ==> size.value < Base(4)) && (size'.Some? ==> size'.value < Base(4))
    ensures size == size' && b == b'
  {
    hide Header, ToLe, FromLe, Base;
    HeaderParts(size, b);
    HeaderParts(size', b');
    if size.Some? {
      DecodeExact(size.value, 4);
      DecodeExact(size'.value, 4);
    }
  }

  // ----- the executable -----

  /** The end of an executable for a module of `n` bytes. */
  function Trailer(n: nat): (s: seq<Byte>)
    ensures |s| == 12
  {
    ToLe(n, 8) + MARKER
  }

  /** The bytes of a trailer: the length, lowest byte first, and "lrtx". */
  lemma TrailerBytes(n: nat)
    requires n < 0x1_0000_0000_0000_0000
    ensures Trailer(n) ==
      [n % 256, n / 0x100 % 256, n / 0x1_0000 % 256, n / 0x100_0000 % 256, n / 0x1_0000_0000 % 256,
       n / 0x100_0000_0000 % 256, n / 0x1_0000_0000_0000 % 256, n / 0x100_0000_0000_0000, 108, 114, 116, 120]
  {
    EightBytes(n);
  }

  /** Lengths are 64-bit numbers. */
  const MAX_SIZE := 0x1_0000_0000_0000_0000

  method BuildExecutable(runtime: seq<Byte>, code: seq<Byte>) returns (exe: seq<Byte>)
    requires |code| < MAX_SIZE
    ensures exe == runtime + code + Trailer(|code|)
    ensures var n := |code|;
      exe == runtime + code
             + [n % 256, n / 0x100 % 256, n / 0x1_0000 % 256, n / 0x100_0000 % 256, n / 0x1_0000_0000 % 256,
                n / 0x100_0000_0000 % 256, n / 0x1_0000_0000_0000 % 256, n / 0x100_0000_0000_0000, 108, 114, 116, 120]
  {
    TrailerBytes(|code|);
    exe := [];
    exe := exe + runtime;
    exe := exe + code;
    exe := exe + ToLe(|code|, 8);
    exe := exe + MARKER;
  }

  /** What the start of the runtime makes of its own file.  With an offset below zero it stops with an error. */
  datatype Start = NotSelfContained | Unreadable | Underflow | RunModule(bytes: seq<Byte>)

  /** A module, its length in eight bytes, lowest first, and the marker "lrtx" at the end of the file, or nothing. */
  method DetectModule(file: seq<Byte>) returns (r: Start)
    ensures r == NotSelfContained <==> |file| >= 12 && file[|file| - 4..] != [108, 114, 116, 120]
    ensures r == Unreadable <==> |file| < 12
    ensures forall m :: r == RunModule(m) <==> |m| < 0x1_0000_0000_0000_0000 && EndsWith(file, m)
  {
    r := Detect(file);
    forall m | |m| < 0x1_0000_0000_0000_0000
      ensures EndsWith(file, m) <==> exists runtime :: file == runtime + m + Trailer(|m|)
    {
      TrailerBytes(|m|);
    }
  }

  /** The file ends with a module and its trailer, byte by byte. */
  ghost predicate EndsWith(file: seq<Byte>, m: seq<Byte>)
    requires |m| < 0x1_0000_0000_0000_0000
  {
    var n := |m|;
    var end := [n % 256, n / 0x100 % 256, n / 0x1_0000 % 256, n / 0x100_0000 % 256, n / 0x1_0000_0000 % 256,
                n / 0x100_0000_0000 % 256, n / 0x1_0000_0000_0000 % 256, n / 0x100_0000_0000_0000, 108, 114, 116, 120];
    exists runtime: seq<Byte> :: file == runtime + m + end
  }

  method Detect(file: seq<Byte>) returns (r: Start)
    ensures r == NotSelfContained <==> |file| >= 12 && file[|file| - 4..] != MARKER
    ensures r == Unreadable <==> |file| < 12
    ensures forall m :: r == RunModule(m) <==> |m| < MAX_SIZE && exists runtime :: file == runtime + m + Trailer(|m|)
  {
    if |file| < 12 {
      return Unreadable;
    }
    var end := file[|file| - 12..];
    if end[8..] != MARKER {
      NoMarker(file);
      return NotSelfContained;
    }
    var size := FromLe(end[..8]);
    SizeFits(file, end);
    if |file| < size + 12 {
      return Underflow;
    }
    var start := |file| - size - 12;
    r := RunModule(file[start..start + size]);
    OnlyModule(file, end, start, size);
  }

  lemma TrailerParts(file: seq<Byte>, runtime: seq<Byte>, m: seq<Byte>)
    requires file == runtime + m + Trailer(|m|)
    ensures |file| >= 12 && file[|file| - 4..] == MARKER && file[|file| - 12..][..8] == ToLe(|m|, 8)
    ensures |file| == |runtime| + |m| + 12 && file[|file| - 12 - |m|..|file| - 12] == m && file[..|runtime|] == runtime
  {
    hide ToLe;
    var end := Trailer(|m|);
    assert |end| == 12 && end[..8] == ToLe(|m|, 8) && end[8..] == MARKER;
    Joined(runtime + m, end);
    assert file[|file| - 4..] == file[|file| - 12..][8..];
    Joined(runtime, m);
    assert file[..|runtime|] == file[..|file| - 12][..|runtime|];
    assert file[|file| - 12 - |m|..|file| - 12] == file[..|file| - 12][|runtime|..];
  }

  lemma Joined(a: seq<Byte>, b: seq<Byte>)
    ensures (a + b)[..|a|] == a && (a + b)[|a|..] == b
  {
  }

  lemma NoMarker(file: seq<Byte>)
    requires |file| >= 12 && file[|file| - 12..][8..] != MARKER
    ensures file[|file| - 4..] != MARKER && forall runtime, m :: file != runtime + m + Trailer(|m|)
  {
    assert file[|file| - 4..] == file[|file| - 12..][8..];
    forall runtime, m
      ensures file != runtime + m + Trailer(|m|)
    {
      if file == runtime + m + Trailer(|m|) {
        TrailerParts(file, runtime, m);
      }
    }
  }

  lemma SizeFits(file: seq<Byte>, end: seq<Byte>)
    requires |file| >= 12 && end == file[|file| - 12..]
    ensures FromLe(end[..8]) < MAX_SIZE
    ensures forall runtime, m :: |m| < MAX_SIZE && file == runtime + m + Trailer(|m|) ==>
      |m| == FromLe(end[..8]) <= |file| - 12
    ensures file[|file| - 4..] == end[8..]
  {
    Words();
    FromLeBound(end[..8]);
    forall runtime, m | |m| < MAX_SIZE && file == runtime + m + Trailer(|m|)
      ensures |m| == FromLe(end[..8]) <= |file| - 12
    {
      TrailerParts(file, runtime, m);
      DecodeEncode(|m|, 8);
    }
  }

  lemma OnlyModule(file: seq<Byte>, end: seq<Byte>, start: nat, size: nat)
    requires |file| >= 12 && end == file[|file| - 12..] && end[8..] == MARKER && size == FromLe(end[..8])
    requires start + size + 12 == |file|
    ensures forall m :: m == file[start..start + size] <==>
      |m| < MAX_SIZE && exists runtime :: file == runtime + m + Trailer(|m|)
  {
    SizeFits(file, end);
    EncodeDecode(end[..8]);
    var m0 := file[start..start + size];
    assert end == Trailer(size);
    assert file == file[..start] + m0 + end;
    forall m | |m| < MAX_SIZE && exists runtime :: file == runtime + m + Trailer(|m|)
      ensures m == m0
    {
      var runtime :| file == runtime + m + Trailer(|m|);
      TrailerParts(file, runtime, m);
    }
  }

  /** An executable determines its runtime and its module. */
  lemma TrailerUnique(runtime: seq<Byte>, m: seq<Byte>, runtime': seq<Byte>, m': seq<Byte>)
    requires |m| < MAX_SIZE && |m'| < MAX_SIZE && runtime + m + Trailer(|m|) == runtime' + m' + Trailer(|m'|)
    ensures runtime == runtime' && m == m'
  {
    hide ToLe, FromLe, Base, Trailer;
    var file := runtime + m + Trailer(|m|);
    TrailerParts(file, runtime, m);
    TrailerParts(file, runtime', m');
    TrailerSize(|m|);
    TrailerSize(|m'|);
  }

  lemma TrailerSize(n: nat)
    requires n < MAX_SIZE
    ensures FromLe(ToLe(n, 8)) == n
  {
    Words();
    hide Base, ToLe, FromLe;
    DecodeExact(n, 8);
  }

  /** Whatever the runtime is, even an executable itself, a built executable runs its own module. */
  method BuildAndStart(runtime: seq<Byte>, code: seq<Byte>) returns (r: Start)
    requires |code| < MAX_SIZE
    ensures r == RunModule(code)
  {
    var exe := BuildExecutable(runtime, code);
    r := Detect(exe);
  }

  // ----- compiling and loading -----

  /** The module is compressed, and its length, as a 32-bit number, goes into the header. */
  method CompressModule(bytes: seq<Byte>, compress: seq<Byte> -> seq<Byte>) returns (r: seq<Byte>)
    ensures r == Header(Some(|bytes| % 0x1_0000_0000)) + compress(bytes)
    ensures var n := |bytes| % 0x1_0000_0000;
      r == [108, 114, 116, 48, 49, 99, n % 256, n / 0x100 % 256, n / 0x1_0000 % 256, n / 0x100_0000] + compress(bytes)
  {
    r := AddBytecodeHeader(compress(bytes), Some(|bytes| % 0x1_0000_0000));
  }

  /** Decompression undoes compression as long as the result fits the room it is given. */
  ghost predicate Inverse(compress: seq<Byte> -> seq<Byte>, decompress: (seq<Byte>, nat) -> Option<seq<Byte>>) {
    forall b, room: nat :: decompress(compress(b), room) == if |b| <= room then Some(b) else None
  }

  /** A buffer has at least the capacity that is asked for. */
  ghost predicate Roomy(capacity: nat -> nat) {
    forall n: nat :: capacity(n) >= n
  }

  method GetModuleBytecode(input: seq<Byte>, capacity: nat -> nat, decompress: (seq<Byte>, nat) -> Option<seq<Byte>>)
    returns (r: Option<seq<Byte>>)
    ensures forall n: nat, b :: n < Base(4) && input == Header(Some(n)) + b ==> r == decompress(b, capacity(n))
    ensures forall b :: input == Header(None) + b ==> r == Some(b)
  {
    var d := Decode(input);
    match d
    case Compressed(n, content) => r := decompress(content, capacity(n));
    case Plain(content) => r := Some(content);
    case Invalid => r := None;
  }

  /** A module whose length fits 32 bits is loaded as it was compiled, whatever the buffer.  A longer one is loaded only
      if the buffer, which is made for its length modulo 2^32, happens to have room for it. */
  method CompileAndLoad(bytes: seq<Byte>, compress: seq<Byte> -> seq<Byte>, capacity: nat -> nat,
                        decompress: (seq<Byte>, nat) -> Option<seq<Byte>>)
    returns (r: Option<seq<Byte>>)
    requires Inverse(compress, decompress) && Roomy(capacity)
    ensures |bytes| < 0x1_0000_0000 ==> r == Some(bytes)
    ensures r == if |bytes| <= capacity(|bytes| % 0x1_0000_0000) then Some(bytes) else None
  {
    Words();
    var m := CompressModule(bytes, compress);
    r := GetModuleBytecode(m, capacity, decompress);
    assert capacity(|bytes| % 0x1_0000_0000) >= |bytes| % 0x1_0000_0000;
  }
}
