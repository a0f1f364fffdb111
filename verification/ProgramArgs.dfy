/**
 The program arguments: the block of C strings and the argc/argv words on the stack, as the loops of
 `ProgramArgs` and of the `RVSim` constructor build them, and what a guest finds there.
 */
module ProgramArgs {
  import opened Bits
  import opened Bytes
  import opened FlatMemory
  import opened GuestMemory

  const STACK_SIZE: nat := 0x10_0000
  const STACK_TOP: nat := 0x4000_0000
  const STACK_BASE: nat := STACK_TOP - STACK_SIZE
  const ARGV_BASE: nat := STACK_TOP + 4

  /** The arguments without their terminating NUL. */
  type Argv = seq<seq<byte>>

  // ------------------------------------------------------------- the string block

  function ArgvSize(argv: Argv): nat {
    if argv == [] then 0 else ArgvSize(argv[..|argv| - 1]) + |argv[|argv| - 1]| + 1
  }

  /** The arguments one after the other, each with its NUL. */
  function ArgvImage(argv: Argv): (bs: seq<byte>)
    ensures |bs| == ArgvSize(argv)
  {
    if argv == [] then [] else ArgvImage(argv[..|argv| - 1]) + (argv[|argv| - 1] + [0])
  }

  /** Where argument i starts. */
  function ArgOffset(argv: Argv, i: nat): nat
    requires i <= |argv|
  {
    ArgvSize(argv[..i])
  }

  method SizeOfArgv(argv: Argv) returns (size: u32)
    ensures size == ArgvSize(argv) % TWO32
  {
    size := 0;
    for i := 0 to |argv|
      invariant size == ArgvSize(argv[..i]) % TWO32
    {
      assert argv[..i + 1][..i] == argv[..i];
      WrapAdd(ArgvSize(argv[..i]), |argv[i]| + 1);
      size := Wrap(size + |argv[i]| + 1);
    }
    assert argv[..|argv|] == argv;
  }

  lemma {:induction false} PrefixImage(argv: Argv, i: nat)
    requires i <= |argv|
    ensures ArgvSize(argv[..i]) <= ArgvSize(argv)
    ensures ArgvImage(argv)[..ArgvSize(argv[..i])] == ArgvImage(argv[..i])
    decreases |argv|
  {
    if i == |argv| {
      assert argv[..i] == argv;
    } else {
      var front := argv[..|argv| - 1];
      PrefixImage(front, i);
      assert front[..i] == argv[..i];
    }
  }

  lemma ImageStep(argv: Argv, arg: seq<byte>)
    ensures ArgvSize([]) == 0 && ArgvImage([]) == []
    ensures ArgvSize(argv + [arg]) == ArgvSize(argv) + |arg| + 1
    ensures ArgvImage(argv + [arg]) == ArgvImage(argv) + (arg + [0])
  {
    assert (argv + [arg])[..|argv|] == argv;
  }

  method CopyArgv(argv: Argv, copyTo: array<byte>) returns (offsets: seq<nat>)
    requires copyTo.Length == ArgvSize(argv) < TWO32
    modifies copyTo
    ensures copyTo[..] == ArgvImage(argv)
    ensures |offsets| == |argv| && forall i :: 0 <= i < |argv| ==> offsets[i] == ArgOffset(argv, i)
  {
    hide ArgvSize, ArgvImage;
    ImageStep([], []);
    offsets := [];
    var copyOffset := 0;
    for i := 0 to |argv|
      invariant copyOffset == ArgvSize(argv[..i]) <= copyTo.Length
      invariant copyTo[..copyOffset] == ArgvImage(argv[..i])
      invariant |offsets| == i && forall j :: 0 <= j < i ==> offsets[j] == ArgOffset(argv, j)
    {
      PrefixImage(argv, i + 1);
      ImageStep(argv[..i], argv[i]);
      assert argv[..i] + [argv[i]] == argv[..i + 1];
      MemcpyInto(copyTo, copyOffset, argv[i] + [0]);
      offsets := offsets + [copyOffset];
      copyOffset := copyOffset + |argv[i]| + 1;
      assert copyTo[..copyOffset] == ArgvImage(argv[..i]) + (argv[i] + [0]);
    }
    assert argv[..|argv|] == argv;
    assert copyTo[..] == copyTo[..copyOffset];
  }

  // -------------------------------------------------------------- the stack block

  function Zeros(n: nat): (bs: seq<byte>)
    ensures |bs| == n && forall i :: 0 <= i < n ==> bs[i] == 0
  {
    if n == 0 then [] else Zeros(n - 1) + [0]
  }

  /** The words from the stack pointer on: argc, the pointers, NULL. */
  function StackWord(argv: Argv, i: nat): nat
    requires i < |argv| + 2
  {
    if i == 0 then |argv| else if i <= |argv| then ARGV_BASE + ArgOffset(argv, i - 1) else 0
  }

  function WordsImage(argv: Argv, n: nat): (bs: seq<byte>)
    requires n <= |argv| + 2
    ensures |bs| == 4 * n
  {
    if n == 0 then [] else WordsImage(argv, n - 1) + ToLE(StackWord(argv, n - 1), 4)
  }

  function InitialSp(argv: Argv): int { STACK_TOP - 4 * (|argv| + 2) }

  function StackImage(argv: Argv): (bs: seq<byte>)
    requires InitialSp(argv) >= STACK_BASE
    ensures |bs| == STACK_SIZE
  {
    Zeros(InitialSp(argv) - STACK_BASE) + WordsImage(argv, |argv| + 2)
  }

  method FillStack(argv: Argv, offsets: seq<nat>, stack: array<byte>)
    requires InitialSp(argv) >= STACK_BASE
    requires stack.Length == STACK_SIZE && stack[..] == Zeros(STACK_SIZE)
    requires |offsets| == |argv| && forall i :: 0 <= i < |argv| ==> offsets[i] == ArgOffset(argv, i)
    modifies stack
    ensures stack[..] == StackImage(argv)
  {
    hide WordsImage, Zeros, ToLE, Splice, ArgOffset;
    var start := InitialSp(argv) - STACK_BASE;
    var fill := start;
    WordsStep(argv, 0);
    assert stack[start..fill] == WordsImage(argv, 0);
    assert stack[..start] == Zeros(start);
    AppendAt(stack, start, fill, ToLE(|argv|, 4));
    fill := fill + 4;
    for i := 0 to |argv|
      invariant fill == start + 4 * (i + 1)
      invariant stack[..start] == Zeros(start)
      invariant stack[start..fill] == WordsImage(argv, i + 1)
    {
      var offset := ARGV_BASE + offsets[i];
      WordsStep(argv, i + 1);
      AppendAt(stack, start, fill, ToLE(offset, 4));
      fill := fill + 4;
    }
    WordsStep(argv, |argv| + 1);
    AppendAt(stack, start, fill, ToLE(0, 4));
    assert stack[..] == stack[..start] + stack[start..];
    assert stack[start..fill + 4] == stack[start..];
  }

  method AppendAt(stack: array<byte>, start: nat, fill: nat, bs: seq<byte>)
    requires start <= fill && fill + |bs| <= stack.Length
    modifies stack
    ensures stack[..start] == old(stack[..start])
    ensures stack[start..fill + |bs|] == old(stack[start..fill]) + bs
  {
    MemcpyInto(stack, fill, bs);
  }

  lemma WordsStep(argv: Argv, n: nat)
    requires n < |argv| + 2
    ensures WordsImage(argv, 0) == []
    ensures WordsImage(argv, n + 1) == WordsImage(argv, n) + ToLE(StackWord(argv, n), 4)
  {
  }

  // ---------------------------------------------------------- what the guest finds

  function StackSegm(argv: Argv): Segm
    requires InitialSp(argv) >= STACK_BASE
  {
    Segm(STACK_BASE, STACK_TOP, StackImage(argv))
  }

  /** The end of the segment is four bytes behind its data. */
  function ArgvSegm(argv: Argv): Segm { Segm(ARGV_BASE, ARGV_BASE + ArgvSize(argv) + 4, ArgvImage(argv)) }

  /** The memory a program starts with. */
  function InitialSegments(elf: seq<Segm>, argv: Argv): seq<Segm>
    requires InitialSp(argv) >= STACK_BASE
  {
    elf + [StackSegm(argv), ArgvSegm(argv)]
  }

  /** The bytes at p up to the first NUL are s. */
  ghost predicate CStringAt(m: FlatMem, p: nat, s: seq<byte>) {
    InRegion(m, p, |s| + 1) && ReadBytes(m, p, |s|) == s && Peek(m, p + |s|) == 0 && 0 !in s
  }

  lemma {:induction false} WordInImage(argv: Argv, n: nat, i: nat)
    requires i < n <= |argv| + 2
    ensures WordsImage(argv, n)[4 * i..4 * i + 4] == ToLE(StackWord(argv, i), 4)
  {
    if i < n - 1 { WordInImage(argv, n - 1, i); }
  }

  lemma {:induction false} ArgInImage(argv: Argv, i: nat)
    requires i < |argv|
    ensures ArgOffset(argv, i) + |argv[i]| + 1 <= ArgvSize(argv)
    ensures ArgvImage(argv)[ArgOffset(argv, i)..][..|argv[i]| + 1] == argv[i] + [0]
  {
    assert argv[..i + 1][..i] == argv[..i];
    PrefixImage(argv, i + 1);
    var off, n := ArgOffset(argv, i), |argv[i]| + 1;
    assert ArgvImage(argv)[off..][..n] == ArgvImage(argv)[..off + n][off..];
  }

  /** The words at the stack pointer: argc, one pointer per argument, NULL just below the top of the stack. */
  lemma StackBlock(elf: seq<Segm>, argv: Argv, i: nat)
    requires InitialSp(argv) >= STACK_BASE && WellFormed(InitialSegments(elf, argv))
    requires Uncovered(InitialSegments(elf, argv), |elf|) && i < |argv| + 2
    ensures InRegion(FlatOf(InitialSegments(elf, argv)), InitialSp(argv) + 4 * i, 4)
    ensures Load(FlatOf(InitialSegments(elf, argv)), InitialSp(argv) + 4 * i, 4) == StackWord(argv, i)
  {
    hide WellFormed, FlatOf, StackImage, WordsImage, ToLE, StackWord, ArgvSize, InRegion, ReadBytes, Uncovered,
         FirstSegment, Owns;
    var ss, k := InitialSegments(elf, argv), |elf|;
    var off := InitialSp(argv) - STACK_BASE + 4 * i;
    WordFits(elf, argv, i);
    WordInStack(argv, i);
    UncoveredOwns(ss, k, STACK_BASE + off, 4);
    LoadRefines(ss, k, STACK_BASE + off, 4);
    ReadWord(ss[k].bytes[off..off + 4], StackWord(argv, i));
  }

  lemma ReadWord(bs: seq<byte>, w: u32)
    requires bs == ToLE(w, 4)
    ensures FromLE(bs) == w
  {
    hide ToLE, FromLE;
    FromToLE(w, 4);
    Pow2Values();
    LowFits(w, 32);
  }

  lemma WordInStack(argv: Argv, i: nat)
    requires InitialSp(argv) >= STACK_BASE && i < |argv| + 2
    ensures var off := InitialSp(argv) - STACK_BASE + 4 * i;
            StackImage(argv)[off..off + 4] == ToLE(StackWord(argv, i), 4)
  {
    var off := InitialSp(argv) - STACK_BASE + 4 * i;
    WordInImage(argv, |argv| + 2, i);
    hide WordsImage, ToLE;
    assert StackImage(argv)[off..off + 4] == WordsImage(argv, |argv| + 2)[4 * i..4 * i + 4];
  }

  lemma WordFits(elf: seq<Segm>, argv: Argv, i: nat)
    requires InitialSp(argv) >= STACK_BASE && WellFormed(InitialSegments(elf, argv))
    requires i < |argv| + 2
    ensures StackWord(argv, i) < TWO32
  {
    assert WellFormedSegm(InitialSegments(elf, argv)[|elf| + 1]);
    if 0 < i <= |argv| { ArgInImage(argv, i - 1); }
  }

  /** Pointer i leads to a C string that is argument i. */
  lemma ArgumentStrings(elf: seq<Segm>, argv: Argv, i: nat)
    requires InitialSp(argv) >= STACK_BASE && WellFormed(InitialSegments(elf, argv))
    requires Uncovered(InitialSegments(elf, argv), |elf|) && Uncovered(InitialSegments(elf, argv), |elf| + 1)
    requires i < |argv| && 0 !in argv[i]
    ensures CStringAt(FlatOf(InitialSegments(elf, argv)),
                      Load(FlatOf(InitialSegments(elf, argv)), InitialSp(argv) + 4 * (i + 1), 4), argv[i])
  {
    hide WellFormed, FlatOf, ArgvImage, StackImage, ReadBytes, InRegion, Load, Peek, ArgvSize, Uncovered, FirstSegment,
         Owns;
    StackBlock(elf, argv, i + 1);
    var ss, k := InitialSegments(elf, argv), |elf| + 1;
    var off, n := ArgOffset(argv, i), |argv[i]|;
    ArgInImage(argv, i);
    UncoveredOwns(ss, k, ARGV_BASE + off, n + 1);
    LoadRefines(ss, k, ARGV_BASE + off, n + 1);
    assert ss[k].bytes[off..off + (n + 1)] == ArgvImage(argv)[off..][..n + 1];
    ReadPrefix(FlatOf(ss), ARGV_BASE + off, n, argv[i], 0);
  }

  lemma ReadPrefix(m: FlatMem, p: nat, n: nat, s: seq<byte>, b: byte)
    requires |s| == n && ReadBytes(m, p, n + 1) == s + [b]
    ensures ReadBytes(m, p, n) == s && Peek(m, p + n) == b
  {
    assert ReadBytes(m, p, n + 1)[n] == b;
    forall i | 0 <= i < n ensures ReadBytes(m, p, n)[i] == s[i] {
      assert ReadBytes(m, p, n + 1)[i] == s[i];
    }
  }

  /**
   The segment check lets through addresses without a byte behind them: exactly the four behind the
   argument strings, when the loaded segments are filled and leave the strings alone.
   */
  lemma UnbackedAddresses(elf: seq<Segm>, argv: Argv, a: nat)
    requires InitialSp(argv) >= STACK_BASE && WellFormed(InitialSegments(elf, argv))
    requires Uncovered(InitialSegments(elf, argv), |elf| + 1)
    requires forall k :: 0 <= k < |elf| ==> elf[k].start + |elf[k].bytes| == elf[k].end
    ensures var ss := InitialSegments(elf, argv);
            FirstSegment(ss, a) < |ss| && !Backed(ss, a)
            <==> ARGV_BASE + ArgvSize(argv) <= a < ARGV_BASE + ArgvSize(argv) + 4
  {
    hide StackImage, ArgvImage, ArgvSize;
    var ss := InitialSegments(elf, argv);
    if InSegment(a, ss[|elf| + 1]) { FirstIs(ss, |elf| + 1, a); }
  }

  /** A loaded segment that no other one covers is in memory unchanged. */
  lemma ProgramLoaded(elf: seq<Segm>, argv: Argv, k: nat)
    requires InitialSp(argv) >= STACK_BASE && WellFormed(InitialSegments(elf, argv))
    requires k < |elf| && Uncovered(elf, k)
    ensures ReadBytes(FlatOf(InitialSegments(elf, argv)), elf[k].start, |elf[k].bytes|) == elf[k].bytes
  {
    hide WellFormed, FlatOf, ReadBytes, StackImage, ArgvImage;
    var ss := InitialSegments(elf, argv);
    assert ss[k] == elf[k] && Uncovered(ss, k);
    UncoveredOwns(ss, k, elf[k].start, |elf[k].bytes|);
    LoadRefines(ss, k, elf[k].start, |elf[k].bytes|);
  }
}
