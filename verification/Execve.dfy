/**
 sys_execve: packing the narrow strings of the caller into one pointer block and one block of wide strings, and
 the whole way of a string from there to the stack of the new process.
 */
module Execve {
  import opened Basics
  import opened StackMemory
  import ProcessStack

  // A byte of a C string before its terminator.
  type Char = c: nat | 0 < c < 256 witness 1

  // A UTF-16 code unit.
  type Unit = u: nat | u < 0x1_0000

  // A slot of the pointer block: null, or a position in the string block.
  datatype Pointer = Null | At(index: nat)

  const MAX_LENGTH: nat := 0x4000_0000 // 1 << 30

  // char is signed: bytes from 128 up become negative and are widened with ones.
  function Widen(c: Char): (w: Wide)
    ensures LowByte(w) == c
  {
    var n: nat := c;
    if n < 128 then n else 0xFF00 + n
  }

  // An ASCII byte stays what it is, every other byte gets all ones above it.
  lemma WidenedUnit(c: Char)
    ensures var n: nat := c; Widen(c) == if n < 128 then n else n + 0xFF00
  {
  }

  function WidenAll(s: seq<Char>): (r: seq<Wide>)
    ensures |r| == |s|
  {
    seq(|s|, i requires 0 <= i < |s| => Widen(s[i]))
  }

  // Widening and narrowing again is the identity on every string of non-zero bytes.
  lemma NarrowWiden(s: seq<Char>)
    ensures |Narrow(WidenAll(s))| == |s|
    ensures forall i :: 0 <= i < |s| ==> Narrow(WidenAll(s))[i] == s[i] as nat && Narrow(WidenAll(s))[i] != 0
  {
  }

  // -------------------------------------------------------------------------
  // The two blocks

  function Piece(s: seq<Char>, limit: nat): (r: seq<Unit>)
    ensures |r| == Copied(s, limit) + 1
  {
    var units: seq<Unit> := seq(Copied(s, limit), i requires 0 <= i < Copied(s, limit) => Widen(s[i]));
    units + [0]
  }

  // All pieces one after another.
  function Flat(strs: seq<seq<Char>>, limit: nat): (r: seq<Unit>)
    ensures |r| == Used(strs, limit)
  {
    if strs == [] then [] else Flat(strs[..|strs| - 1], limit) + Piece(strs[|strs| - 1], limit)
  }

  // One pointer per string, to where its piece starts.
  function PointersTo(strs: seq<seq<Char>>, limit: nat, start: nat): (r: seq<Pointer>)
    ensures |r| == |strs|
  {
    if strs == [] then []
    else PointersTo(strs[..|strs| - 1], limit, start) + [At(start + Used(strs[..|strs| - 1], limit))]
  }

  method AsciiToWide(block: array<Unit>, off: nat, s: seq<Char>, limit: nat) returns (index: nat)
    requires off + Copied(s, limit) < block.Length
    modifies block
    ensures index == Copied(s, limit) && index <= |s| && index <= limit && (index == |s| || index == limit)
    ensures forall k :: 0 <= k < index ==> block[off + k] == if s[k] < 128 then s[k] as nat else s[k] as nat + 0xFF00
    ensures block[off..off + index + 1] == Piece(s, limit)
    ensures forall x :: 0 <= x < block.Length && !(off <= x < off + index + 1) ==> block[x] == old(block[x])
  {
    index := 0;
    while index < |s| && index < limit
      invariant index <= |s| && index <= limit
      invariant forall k :: 0 <= k < index ==> block[off + k] == Widen(s[k])
      invariant forall x :: 0 <= x < block.Length && !(off <= x < off + index) ==> block[x] == old(block[x])
    {
      block[off + index] := Widen(s[index]);
      index := index + 1;
    }
    block[off + index] := 0;
  }

  // One of the two loops that fill both blocks, and the null pointer after it.
  method PackList(pointers: array<Pointer>, block: array<Unit>, strs: seq<seq<Char>>, pointersAt: nat, blockAt: nat)
    returns (pointersNext: nat, blockNext: nat)
    requires pointersAt + |strs| + 1 <= pointers.Length && blockAt + Used(strs, MAX_LENGTH) <= block.Length
    modifies pointers, block
    ensures pointersNext == pointersAt + |strs| + 1 && blockNext == blockAt + Used(strs, MAX_LENGTH)
    ensures pointers[..pointersNext] == old(pointers[..pointersAt]) + (PointersTo(strs, MAX_LENGTH, blockAt) + [Null])
    ensures block[..blockNext] == old(block[..blockAt]) + Flat(strs, MAX_LENGTH)
  {
    pointersNext, blockNext := pointersAt, blockAt;
    ghost var p0, b0 := pointers[..pointersAt], block[..blockAt];
    var i := 0;
    assert pointers[..pointersAt] == p0 + PointersTo(strs[..0], MAX_LENGTH, blockAt);
    assert block[..blockAt] == b0 + Flat(strs[..0], MAX_LENGTH);
    while i < |strs|
      invariant 0 <= i <= |strs| && pointersNext == pointersAt + i
      invariant blockNext == blockAt + Used(strs[..i], MAX_LENGTH)
      invariant pointers[..pointersNext] == p0 + PointersTo(strs[..i], MAX_LENGTH, blockAt)
      invariant blockNext <= block.Length && block[..blockNext] == b0 + Flat(strs[..i], MAX_LENGTH)
    {
      pointersNext, blockNext := PackOne(pointers, block, strs, blockAt, i, pointersNext, blockNext, p0, b0);
      i := i + 1;
    }
    assert strs[..|strs|] == strs;
    PutPointer(pointers, pointersNext, Null, p0 + PointersTo(strs, MAX_LENGTH, blockAt));
    assert p0 + PointersTo(strs, MAX_LENGTH, blockAt) + [Null] == p0 + (PointersTo(strs, MAX_LENGTH, blockAt) + [Null]);
    pointersNext := pointersNext + 1;
  }

  // One round of the loop.
  method PackOne(pointers: array<Pointer>, block: array<Unit>, strs: seq<seq<Char>>, start: nat, i: nat,
                 pointersCurrent: nat, blockAt: nat, ghost p0: seq<Pointer>, ghost b0: seq<Unit>)
    returns (pointersNext: nat, blockNext: nat)
    requires i < |strs| && pointersCurrent < pointers.Length && start + Used(strs, MAX_LENGTH) <= block.Length
    requires blockAt == start + Used(strs[..i], MAX_LENGTH) <= block.Length
    requires pointers[..pointersCurrent] == p0 + PointersTo(strs[..i], MAX_LENGTH, start)
    requires block[..blockAt] == b0 + Flat(strs[..i], MAX_LENGTH)
    modifies pointers, block
    ensures pointersNext == pointersCurrent + 1
    ensures blockNext == start + Used(strs[..i + 1], MAX_LENGTH) <= block.Length
    ensures pointers[..pointersNext] == p0 + PointersTo(strs[..i + 1], MAX_LENGTH, start)
    ensures block[..blockNext] == b0 + Flat(strs[..i + 1], MAX_LENGTH)
  {
    UsedStep(strs, MAX_LENGTH, i);
    UsedWithin(strs, MAX_LENGTH, i);
    OneMore(strs, MAX_LENGTH, start, i, p0, b0);
    PutPointer(pointers, pointersCurrent, At(blockAt), p0 + PointersTo(strs[..i], MAX_LENGTH, start));
    var writing := PutPiece(block, blockAt, strs[i], b0 + Flat(strs[..i], MAX_LENGTH));
    pointersNext := pointersCurrent + 1;
    blockNext := blockAt + writing + 1;
  }

  lemma UsedWithin(strs: seq<seq<Char>>, limit: nat, i: nat)
    requires i < |strs|
    ensures Used(strs[..i + 1], limit) <= Used(strs, limit)
  {
    UsedGrows(strs, limit, i + 1, |strs|);
    assert strs[..|strs|] == strs;
  }

  lemma OneMore(strs: seq<seq<Char>>, limit: nat, start: nat, i: nat, p0: seq<Pointer>, b0: seq<Unit>)
    requires i < |strs|
    ensures b0 + Flat(strs[..i + 1], limit) == b0 + Flat(strs[..i], limit) + Piece(strs[i], limit)
    ensures p0 + PointersTo(strs[..i + 1], limit, start)
         == p0 + PointersTo(strs[..i], limit, start) + [At(start + Used(strs[..i], limit))]
  {
    assert strs[..i + 1][..i] == strs[..i];
  }

  method PutPointer(pointers: array<Pointer>, at: nat, p: Pointer, ghost done: seq<Pointer>)
    requires at < pointers.Length && pointers[..at] == done
    modifies pointers
    ensures pointers[..at + 1] == done + [p]
  {
    pointers[at] := p;
  }

  method PutPiece(block: array<Unit>, at: nat, s: seq<Char>, ghost done: seq<Unit>) returns (writing: nat)
    requires at + Copied(s, MAX_LENGTH) < block.Length && block[..at] == done
    modifies block
    ensures writing == Copied(s, MAX_LENGTH)
    ensures block[..at + writing + 1] == done + Piece(s, MAX_LENGTH)
  {
    writing := AsciiToWide(block, at, s, MAX_LENGTH);
    block[at + writing] := 0;
    assert block[..at + writing + 1] == block[..at] + block[at..at + writing + 1];
  }

  lemma WholeArray<T>(a: array<T>)
    ensures a[..a.Length] == a[..] && a[..0] == []
  {
  }

  // A leading dot of the file name is skipped.
  function ExecName(filename: seq<Char>): seq<Char> {
    if filename != [] && filename[0] == 0x2E then filename[1..] else filename
  }

  // The block begins with the units of a name, then a zero.
  ghost predicate BeginsWith(block: seq<Unit>, name: seq<Char>) {
    && |name| < |block| && block[|name|] == 0
    && forall k :: 0 <= k < |name| ==> block[k] == if name[k] < 128 then name[k] as nat else name[k] as nat + 0xFF00
  }

  // Both blocks are filled to the last slot and not beyond: their contents are given in full. The string block begins
  // with the name that RunProgram opens: the given one, without its first character if that is a dot.
  method Pack(filename: seq<Char>, argv: seq<seq<Char>>, envp: seq<seq<Char>>)
    returns (pointers: array<Pointer>, block: array<Unit>, wideEnv: nat, wideArg: nat)
    ensures fresh(pointers) && fresh(block) && wideEnv == 0 && wideArg == |envp| + 1
    ensures block[..] == Piece(ExecName(filename), MAX_LENGTH) + Flat(envp, MAX_LENGTH) + Flat(argv, MAX_LENGTH)
    ensures var envAt := Copied(ExecName(filename), MAX_LENGTH) + 1;
            var argAt := envAt + Used(envp, MAX_LENGTH);
            pointers[..]
            == (PointersTo(envp, MAX_LENGTH, envAt) + [Null]) + (PointersTo(argv, MAX_LENGTH, argAt) + [Null])
    ensures |filename| <= MAX_LENGTH && (filename == [] || filename[0] != 0x2E) ==> BeginsWith(block[..], filename)
    ensures |filename| <= MAX_LENGTH && filename != [] && filename[0] == 0x2E ==>
              BeginsWith(block[..], filename[1..])
  {
    var name := ExecName(filename);
    var nameUnits := CountCopied(name, MAX_LENGTH);
    var envUnits, envc := CountAllCopied(envp, MAX_LENGTH);
    var argUnits, argc := CountAllCopied(argv, MAX_LENGTH);
    pointers := new Pointer[envc + argc + 2](_ => Null);
    block := new Unit[nameUnits + 1 + envUnits + argUnits](_ => 0);
    var writing := PutPiece(block, 0, name, []);
    var blockAt := writing + 1;
    assert block[..blockAt] == Piece(name, MAX_LENGTH);
    wideEnv := 0;
    wideArg, blockAt := PackList(pointers, block, envp, 0, blockAt);
    assert block[..blockAt] == Piece(name, MAX_LENGTH) + Flat(envp, MAX_LENGTH);
    ghost var envPointers := PointersTo(envp, MAX_LENGTH, nameUnits + 1) + [Null];
    ghost var argPointers := PointersTo(argv, MAX_LENGTH, blockAt) + [Null];
    assert pointers[..wideArg] == envPointers by { WholeArray(pointers); }
    var pointersEnd;
    pointersEnd, blockAt := PackList(pointers, block, argv, wideArg, blockAt);
    assert pointersEnd == pointers.Length && blockAt == block.Length;
    WholeArray(pointers);
    WholeArray(block);
    assert pointers[..] == envPointers + argPointers;
    NameFirst(block[..], name, Flat(envp, MAX_LENGTH), Flat(argv, MAX_LENGTH));
  }

  lemma NameFirst(block: seq<Unit>, name: seq<Char>, env: seq<Unit>, arg: seq<Unit>)
    requires block == Piece(name, MAX_LENGTH) + env + arg
    ensures |name| <= MAX_LENGTH ==> BeginsWith(block, name)
  {
    var piece := Piece(name, MAX_LENGTH);
    assert forall k :: 0 <= k < |piece| ==> block[k] == piece[k];
  }

  // -------------------------------------------------------------------------
  // Reading the blocks, as RunProgram does

  function ReadList(pointers: seq<Pointer>, from: nat): seq<nat>
    decreases |pointers| - from
  {
    if from >= |pointers| || pointers[from].Null? then [] else [pointers[from].index] + ReadList(pointers, from + 1)
  }

  // Code units up to the first zero.
  function WideAt(block: seq<Unit>, at: nat): seq<Wide>
    decreases |block| - at
  {
    if at >= |block| || block[at] == 0 then [] else [block[at]] + WideAt(block, at + 1)
  }

  function WideStrings(pointers: seq<Pointer>, block: seq<Unit>, from: nat): seq<seq<Wide>> {
    var list := ReadList(pointers, from);
    seq(|list|, i requires 0 <= i < |list| => WideAt(block, list[i]))
  }

  // What packing makes of one string, and of a list.
  function Widened(s: seq<Char>, limit: nat): seq<Wide> {
    WidenAll(s[..Copied(s, limit)])
  }

  function AllWidened(strs: seq<seq<Char>>, limit: nat): seq<seq<Wide>> {
    seq(|strs|, i requires 0 <= i < |strs| => Widened(strs[i], limit))
  }

  lemma {:induction false} PointerTo(strs: seq<seq<Char>>, limit: nat, start: nat, j: nat)
    requires j < |strs|
    ensures PointersTo(strs, limit, start)[j] == At(start + Used(strs[..j], limit))
  {
    if j < |strs| - 1 {
      PointerTo(strs[..|strs| - 1], limit, start, j);
      assert strs[..|strs| - 1][..j] == strs[..j];
    }
  }

  // Piece j stands at its offset in the flat block.
  lemma {:induction false} PieceAt(strs: seq<seq<Char>>, limit: nat, j: nat, k: nat)
    requires j < |strs| && k <= Copied(strs[j], limit)
    ensures Used(strs[..j], limit) + k < Used(strs, limit)
    ensures Flat(strs, limit)[Used(strs[..j], limit) + k] == Piece(strs[j], limit)[k]
  {
    var n := |strs| - 1;
    var before, last := Flat(strs[..n], limit), Piece(strs[n], limit);
    assert Flat(strs, limit) == before + last;
    if j < n {
      PieceAt(strs[..n], limit, j, k);
      assert strs[..n][..j] == strs[..j];
    } else {
      assert (before + last)[|before| + k] == last[k];
    }
  }

  lemma {:induction false} ReadListFrom(pointers: seq<Pointer>, from: nat, list: seq<nat>, j: nat)
    requires j <= |list| && from + |list| < |pointers| && pointers[from + |list|] == Null
    requires forall i {:trigger list[i]} :: 0 <= i < |list| ==> pointers[from + i] == At(list[i])
    ensures ReadList(pointers, from + j) == list[j..]
    decreases |list| - j
  {
    if j < |list| {
      ReadListFrom(pointers, from, list, j + 1);
      assert list[j..] == [list[j]] + list[j + 1..];
    }
  }

  lemma {:induction false} WideFrom(block: seq<Unit>, at: nat, s: seq<Wide>, k: nat)
    requires k <= |s| && at + |s| < |block| && block[at + |s|] == 0
    requires forall i {:trigger s[i]} :: 0 <= i < |s| ==> block[at + i] == s[i]
    ensures WideAt(block, at + k) == s[k..]
    decreases |s| - k
  {
    if k < |s| {
      WideFrom(block, at, s, k + 1);
      assert s[k..] == [s[k]] + s[k + 1..];
    }
  }

  // Where the pieces of a list start.
  function Offsets(strs: seq<seq<Char>>, limit: nat, start: nat): (r: seq<nat>)
    ensures |r| == |strs|
  {
    seq(|strs|, j requires 0 <= j < |strs| => start + Used(strs[..j], limit))
  }

  // One list of a packed block is read back as the widened strings.
  lemma ListReadsBack(pointers: seq<Pointer>, block: seq<Unit>, strs: seq<seq<Char>>, limit: nat, from: nat, start: nat)
    requires from + |strs| < |pointers| && pointers[from + |strs|] == Null
    requires pointers[from..from + |strs|] == PointersTo(strs, limit, start)
    requires Holds(block, strs, limit, start)
    ensures WideStrings(pointers, block, from) == AllWidened(strs, limit)
  {
    var list := Offsets(strs, limit, start);
    forall j | 0 <= j < |strs| ensures pointers[from + j] == At(list[j]) {
      PointerTo(strs, limit, start, j);
      assert pointers[from..from + |strs|][j] == pointers[from + j];
    }
    ReadListFrom(pointers, from, list, 0);
    forall j | 0 <= j < |strs| ensures WideAt(block, list[j]) == Widened(strs[j], limit) {
      PieceReadsBack(block, strs, limit, start, j);
    }
  }

  // The strings lie in the block one after another from `start`.
  ghost predicate Holds(block: seq<Unit>, strs: seq<seq<Char>>, limit: nat, start: nat) {
    start + Used(strs, limit) <= |block| && block[start..start + Used(strs, limit)] == Flat(strs, limit)
  }

  lemma PieceReadsBack(block: seq<Unit>, strs: seq<seq<Char>>, limit: nat, start: nat, j: nat)
    requires j < |strs| && Holds(block, strs, limit, start)
    ensures WideAt(block, start + Used(strs[..j], limit)) == Widened(strs[j], limit)
  {
    var s, u := Widened(strs[j], limit), Used(strs[..j], limit);
    PieceInBlock(block, strs, limit, start, j, |s|);
    forall k | 0 <= k < |s| ensures block[start + u + k] == s[k] {
      PieceInBlock(block, strs, limit, start, j, k);
    }
    WideFrom(block, start + u, s, 0);
  }

  lemma PieceInBlock(block: seq<Unit>, strs: seq<seq<Char>>, limit: nat, start: nat, j: nat, k: nat)
    requires j < |strs| && k <= Copied(strs[j], limit) && Holds(block, strs, limit, start)
    ensures start + Used(strs[..j], limit) + k < |block|
    ensures block[start + Used(strs[..j], limit) + k]
         == if k < Copied(strs[j], limit) then Widened(strs[j], limit)[k] else 0
  {
    var u, piece := Used(strs[..j], limit), Piece(strs[j], limit);
    PieceAt(strs, limit, j, k);
    assert block[start..start + Used(strs, limit)][u + k] == block[start + u + k] == piece[k];
  }

  lemma NameReadsBack(block: seq<Unit>, name: seq<Char>, limit: nat)
    requires |block| >= |Piece(name, limit)| && block[..|Piece(name, limit)|] == Piece(name, limit)
    ensures WideAt(block, 0) == Widened(name, limit)
  {
    var s, piece := Widened(name, limit), Piece(name, limit);
    assert |s| + 1 == |piece| && piece[|s|] == 0;
    assert forall k :: 0 <= k < |piece| ==> block[..|piece|][k] == piece[k];
    assert forall k :: 0 <= k < |s| ==> piece[k] == s[k];
    WideFrom(block, 0, s, 0);
  }

  lemma Middle<T>(whole: seq<T>, a: seq<T>, b: seq<T>, c: seq<T>)
    requires whole == a + b + c
    ensures whole[|a|..|a| + |b|] == b
  {
  }

  lemma MiddleThen<T>(whole: seq<T>, a: seq<T>, b: seq<T>, x: T, c: seq<T>)
    requires whole == a + (b + [x]) + c
    ensures whole[|a|..|a| + |b|] == b && whole[|a| + |b|] == x
  {
  }

  // A list packed behind other pointers and other units is read back.
  lemma PackedListReadsBack(pointers: seq<Pointer>, block: seq<Unit>, strs: seq<seq<Char>>, limit: nat,
                            p0: seq<Pointer>, p1: seq<Pointer>, b0: seq<Unit>, b1: seq<Unit>)
    requires pointers == p0 + (PointersTo(strs, limit, |b0|) + [Null]) + p1
    requires block == b0 + Flat(strs, limit) + b1
    ensures WideStrings(pointers, block, |p0|) == AllWidened(strs, limit)
  {
    MiddleThen(pointers, p0, PointersTo(strs, limit, |b0|), Null, p1);
    Middle(block, b0, Flat(strs, limit), b1);
    ListReadsBack(pointers, block, strs, limit, |p0|, |b0|);
  }

  lemma Front<T>(a: seq<T>, b: seq<T>, c: seq<T>)
    ensures (a + b + c)[..|a|] == a
  {
  }

  lemma AroundEmpty<T>(whole: seq<T>, a: seq<T>, b: seq<T>)
    requires whole == a + b
    ensures whole == [] + a + b && whole == a + b + []
  {
  }

  // Both lists and the file name come out of the packed blocks as they were widened.
  lemma PackReadsBack(filename: seq<Char>, argv: seq<seq<Char>>, envp: seq<seq<Char>>, pointers: seq<Pointer>,
                      block: seq<Unit>)
    requires block == Piece(ExecName(filename), MAX_LENGTH) + Flat(envp, MAX_LENGTH) + Flat(argv, MAX_LENGTH)
    requires var envAt := Copied(ExecName(filename), MAX_LENGTH) + 1;
             var argAt := envAt + Used(envp, MAX_LENGTH);
             pointers == (PointersTo(envp, MAX_LENGTH, envAt) + [Null]) + (PointersTo(argv, MAX_LENGTH, argAt) + [Null])
    ensures WideAt(block, 0) == Widened(ExecName(filename), MAX_LENGTH)
    ensures WideStrings(pointers, block, 0) == AllWidened(envp, MAX_LENGTH)
    ensures WideStrings(pointers, block, |envp| + 1) == AllWidened(argv, MAX_LENGTH)
  {
    var name, env, arg := Piece(ExecName(filename), MAX_LENGTH), Flat(envp, MAX_LENGTH), Flat(argv, MAX_LENGTH);
    var envPs := PointersTo(envp, MAX_LENGTH, |name|) + [Null];
    var argPs := PointersTo(argv, MAX_LENGTH, |name + env|) + [Null];
    AroundEmpty(pointers, envPs, argPs);
    AroundEmpty(block, name + env, arg);
    PackedListReadsBack(pointers, block, envp, MAX_LENGTH, [], argPs, name, arg);
    PackedListReadsBack(pointers, block, argv, MAX_LENGTH, envPs, [], name + env, []);
    Front(name, env, arg);
    NameReadsBack(block, ExecName(filename), MAX_LENGTH);
  }

  // -------------------------------------------------------------------------
  // From the caller's strings to the new stack

  // What the new process reads of a caller's string: itself, or its prefix up to the copy limit.
  function Delivered(s: seq<Char>, limit: nat): (r: seq<Byte>) {
    seq(Copied(s, limit), i requires 0 <= i < Copied(s, limit) => s[i])
  }

  ghost function AllDelivered(strs: seq<seq<Char>>, limit: nat): seq<seq<Byte>> {
    seq(|strs|, i requires 0 <= i < |strs| => Delivered(strs[i], limit))
  }

  lemma WidenedIsDelivered(s: seq<Char>, limit: nat)
    requires limit <= MAX_LENGTH
    ensures ProcessStack.Received(Widened(s, MAX_LENGTH), limit) == Delivered(s, limit)
  {
    var stored := ProcessStack.Stored(Widened(s, MAX_LENGTH), limit);
    UntilZeroExact(stored);
    assert stored == Delivered(s, limit);
  }

  lemma AllWidenedDelivered(strs: seq<seq<Char>>, limit: nat)
    requires limit <= MAX_LENGTH
    ensures ProcessStack.AllReceived(AllWidened(strs, MAX_LENGTH), limit) == AllDelivered(strs, limit)
  {
    forall i | 0 <= i < |strs|
      ensures ProcessStack.Received(Widened(strs[i], MAX_LENGTH), limit) == Delivered(strs[i], limit)
    {
      WidenedIsDelivered(strs[i], limit);
    }
  }

  // A string of non-zero bytes arrives unchanged exactly when it is within the limit.
  // Of a longer one exactly the characters up to the limit arrive.
  lemma DeliveredWhole(s: seq<Char>, limit: nat)
    ensures Delivered(s, limit) == s <==> |s| <= limit
    ensures |s| > limit ==> Delivered(s, limit) == s[..limit]
  {
  }

  ghost predicate AllWithin(strs: seq<seq<Char>>, limit: nat) {
    forall i :: 0 <= i < |strs| ==> |strs[i]| <= limit
  }

  // And so for a whole list.
  lemma AllDeliveredWhole(strs: seq<seq<Char>>, limit: nat)
    ensures AllDelivered(strs, limit) == strs <==> AllWithin(strs, limit)
  {
    forall i | 0 <= i < |strs| ensures AllDelivered(strs, limit)[i] == strs[i] <==> |strs[i]| <= limit {
      DeliveredWhole(strs[i], limit);
    }
  }

  // sys_execve and the stack building of CreateProcess, one after the other.
  method Launch(mem: array<Byte>, base: nat, p: ProcessStack.Process, filename: seq<Char>, argv: seq<seq<Char>>,
                envp: seq<seq<Char>>)
    returns (stackPointer: nat)
    requires base > 0 && base + mem.Length < ProcessStack.WORD_LIMIT && mem.Length <= MAX_LENGTH
    requires ProcessStack.FitsWords(p)
    requires ProcessStack.Fits(mem.Length, p, AllWidened(argv, MAX_LENGTH), AllWidened(envp, MAX_LENGTH))
    modifies mem
    ensures var wideArgv, wideEnvp := AllWidened(argv, MAX_LENGTH), AllWidened(envp, MAX_LENGTH);
            var argLimit := ProcessStack.ArgLimit(mem.Length, p, wideArgv, wideEnvp);
            var envLimit := ProcessStack.EnvLimit(mem.Length, p, wideArgv, wideEnvp);
            && argLimit > 0 && envLimit > 0 && stackPointer + 8 <= mem.Length
            && ProcessStack.Decode(mem[..], base, stackPointer)
               == ProcessStack.Startup(|argv|, AllDelivered(argv, argLimit), AllDelivered(envp, envLimit),
                                       ProcessStack.AuxVector(p))
            && (ProcessStack.Decode(mem[..], base, stackPointer)
                == ProcessStack.Startup(|argv|, argv, envp, ProcessStack.AuxVector(p))
                <==> AllWithin(argv, argLimit) && AllWithin(envp, envLimit))
    ensures AllWithin(argv, mem.Length - mem.Length / 8) && AllWithin(envp, mem.Length - mem.Length / 8) ==>
              stackPointer + 8 <= mem.Length
              && ProcessStack.Decode(mem[..], base, stackPointer)
                 == ProcessStack.Startup(|argv|, argv, envp, ProcessStack.AuxVector(p))
    ensures stackPointer % 8 == mem.Length % 8
  {
    var pointers, block, wideEnv, wideArg := Pack(filename, argv, envp);
    PackReadsBack(filename, argv, envp, pointers[..], block[..]);
    var argLimit := ProcessStack.ArgLimit(mem.Length, p, AllWidened(argv, MAX_LENGTH), AllWidened(envp, MAX_LENGTH));
    var envLimit := ProcessStack.EnvLimit(mem.Length, p, AllWidened(argv, MAX_LENGTH), AllWidened(envp, MAX_LENGTH));
    stackPointer := ProcessStack.BuildStack(mem, base, p, WideStrings(pointers[..], block[..], wideArg),
                                            WideStrings(pointers[..], block[..], wideEnv));
    AllWidenedDelivered(argv, argLimit);
    AllWidenedDelivered(envp, envLimit);
    AllDeliveredWhole(argv, argLimit);
    AllDeliveredWhole(envp, envLimit);
    ProcessStack.LimitBounds(mem.Length, p, AllWidened(argv, MAX_LENGTH), AllWidened(envp, MAX_LENGTH));
  }
}
