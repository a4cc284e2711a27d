/**
 The start-up block that CreateProcess builds on a new user stack, read back by the rules of section 3.4.1 of
 the System V AMD64 ABI. The stack is a byte array that begins at address `base`; positions are offsets into it.
 */
module ProcessStack {
  import opened Basics
  import opened StackMemory

  datatype Binary = Binary(entry: nat, baseAddress: nat, programHeaders: nat, programHeaderCount: nat,
                           programHeaderEntrySize: nat)

  // subBinary is set when the program asks for an interpreter; it is then the program, and binary the interpreter.
  datatype Process = Process(binary: Binary, subBinary: Option<Binary>, stackCookie: nat)

  // What CreateProcess makes of the loaded program and of the interpreter it names, if any.
  function Load(program: Binary, interpreter: Option<Binary>, stackCookie: nat): Process {
    match interpreter
    case None => Process(program, None, stackCookie)
    case Some(loader) => Process(loader, Some(program), stackCookie)
  }

  // Where ScheduleProcess enters user mode.
  function StartAddress(p: Process): nat {
    p.binary.entry
  }

  const WORD_LIMIT: nat := 0x1_0000_0000_0000_0000

  const AT_NULL: nat := 0
  const AT_PHDR: nat := 3
  const AT_PHENT: nat := 4
  const AT_PHNUM: nat := 5
  const AT_PAGESZ: nat := 6
  const AT_BASE: nat := 7
  const AT_ENTRY: nat := 9
  const AT_RANDOM: nat := 25

  // -------------------------------------------------------------------------
  // Reading the block

  datatype AuxEntry = AuxEntry(key: nat, value: nat)

  datatype Startup = Startup(argc: nat, argv: seq<seq<Byte>>, envp: seq<seq<Byte>>, auxv: seq<AuxEntry>)

  // The words from `off` up to, and without, the first null word.
  ghost function ReadPointers(m: seq<Byte>, off: nat): seq<nat>
    decreases |m| - off
  {
    if off + 8 > |m| || ReadWord(m, off) == 0 then []
    else [ReadWord(m, off)] + ReadPointers(m, off + 8)
  }

  // The auxiliary vector from `off` up to and with its AT_NULL entry.
  ghost function ReadAux(m: seq<Byte>, off: nat): seq<AuxEntry>
    decreases |m| - off
  {
    if off + 16 > |m| then []
    else
      var e := AuxEntry(ReadWord(m, off), ReadWord(m, off + 8));
      if e.key == AT_NULL then [e] else [e] + ReadAux(m, off + 16)
  }

  ghost function StringOf(m: seq<Byte>, base: nat, pointer: nat): seq<Byte> {
    if base <= pointer <= base + |m| then CString(m, pointer - base) else []
  }

  ghost function StringsOf(m: seq<Byte>, base: nat, pointers: seq<nat>): seq<seq<Byte>> {
    seq(|pointers|, i requires 0 <= i < |pointers| => StringOf(m, base, pointers[i]))
  }

  // argc, argv, NULL, envp, NULL, auxv.
  ghost function Decode(m: seq<Byte>, base: nat, sp: nat): Startup
    requires sp + 8 <= |m|
  {
    var argv := ReadPointers(m, sp + 8);
    var envpAt := sp + 8 + 8 * (|argv| + 1);
    var envp := ReadPointers(m, envpAt);
    var auxAt := envpAt + 8 * (|envp| + 1);
    Startup(ReadWord(m, sp), StringsOf(m, base, argv), StringsOf(m, base, envp), ReadAux(m, auxAt))
  }

  // -------------------------------------------------------------------------
  // The auxiliary vector

  ghost predicate FitsWords(p: Process) {
    p.stackCookie < WORD_LIMIT && BinaryFits(p.binary) && (p.subBinary.Some? ==> BinaryFits(p.subBinary.value))
  }

  ghost predicate BinaryFits(b: Binary) {
    && b.entry < WORD_LIMIT && b.baseAddress < WORD_LIMIT && b.programHeaders < WORD_LIMIT
    && b.programHeaderCount < WORD_LIMIT && b.programHeaderEntrySize < WORD_LIMIT
  }

  // From the lowest address up. Without an interpreter the page size is listed twice.
  function AuxVector(p: Process): seq<AuxEntry> {
    if p.subBinary.Some? then BinaryAux(p.subBinary.value, false, CommonAux(p))
    else BinaryAux(p.binary, true, CommonAux(p))
  }

  function CommonAux(p: Process): (aux: seq<AuxEntry>)
    ensures |aux| == 3
  {
    [AuxEntry(AT_RANDOM, p.stackCookie)] + ([AuxEntry(AT_PAGESZ, 4096)] + ([AuxEntry(AT_NULL, 0)] + []))
  }

  function BinaryAux(b: Binary, pageSize: bool, above: seq<AuxEntry>): (aux: seq<AuxEntry>)
    ensures |aux| == |above| + if pageSize then 6 else 5
  {
    var low := [AuxEntry(AT_BASE, b.baseAddress)] + ([AuxEntry(AT_ENTRY, b.entry)] + above);
    [AuxEntry(AT_PHDR, b.programHeaders)]
    + ([AuxEntry(AT_PHENT, b.programHeaderEntrySize)]
       + ([AuxEntry(AT_PHNUM, b.programHeaderCount)]
          + (if pageSize then [AuxEntry(AT_PAGESZ, 4096)] + low else low)))
  }

  ghost predicate AuxAt(m: seq<Byte>, off: nat, aux: seq<AuxEntry>) {
    off + 16 * |aux| <= |m|
    && forall i :: 0 <= i < |aux| ==>
         ReadWord(m, off + 16 * i) == aux[i].key && ReadWord(m, off + 16 * i + 8) == aux[i].value
  }

  method WriteAuxEntry(mem: array<Byte>, sp: nat, key: nat, value: nat, dryRun: bool, ghost above: seq<AuxEntry>)
    returns (r: nat)
    requires 16 <= sp && sp + 16 * |above| <= mem.Length && key < WORD_LIMIT && value < WORD_LIMIT
    requires !dryRun ==> AuxAt(mem[..], sp, above)
    modifies mem
    ensures r == sp - 16
    ensures dryRun ==> mem[..] == old(mem[..])
    ensures !dryRun ==> AuxAt(mem[..], r, [AuxEntry(key, value)] + above)
    ensures Outside(old(mem[..]), mem[..], r, sp)
  {
    r := sp - 16;
    if !dryRun {
      ghost var m0 := mem[..];
      StoreWord(mem, r, key);
      ghost var m1 := mem[..];
      StoreWord(mem, r + 8, value);
      SameWord(m1, mem[..], r);
      AuxFrame(m0, mem[..], sp, above);
      AuxCons(mem[..], r, AuxEntry(key, value), above);
    }
  }

  lemma AuxFrame(m: seq<Byte>, m': seq<Byte>, off: nat, aux: seq<AuxEntry>)
    requires AuxAt(m, off, aux) && Same(m, m', off, off + 16 * |aux|)
    ensures AuxAt(m', off, aux)
  {
    forall i | 0 <= i < |aux|
      ensures ReadWord(m', off + 16 * i) == aux[i].key && ReadWord(m', off + 16 * i + 8) == aux[i].value
    {
      SameWord(m, m', off + 16 * i);
      SameWord(m, m', off + 16 * i + 8);
    }
  }

  lemma AuxCons(m: seq<Byte>, off: nat, e: AuxEntry, above: seq<AuxEntry>)
    requires AuxAt(m, off + 16, above)
    requires ReadWord(m, off) == e.key && ReadWord(m, off + 8) == e.value
    ensures AuxAt(m, off, [e] + above)
  {
    forall i | 0 <= i < 1 + |above|
      ensures ReadWord(m, off + 16 * i) == ([e] + above)[i].key
      ensures ReadWord(m, off + 16 * i + 8) == ([e] + above)[i].value
    {
      if i > 0 {
        assert off + 16 * i == off + 16 + 16 * (i - 1);
      }
    }
  }

  // The dry run and the real run end at the same position; only the real one writes.
  method WriteProcessAuxVectors(mem: array<Byte>, p: Process, stackPointer: nat, dryRun: bool) returns (r: nat)
    requires FitsWords(p) && 16 * |AuxVector(p)| <= stackPointer <= mem.Length
    modifies mem
    ensures r == stackPointer - 16 * |AuxVector(p)|
    ensures dryRun ==> mem[..] == old(mem[..])
    ensures !dryRun ==> AuxAt(mem[..], r, AuxVector(p))
    ensures Outside(old(mem[..]), mem[..], r, stackPointer)
  {
    ghost var w: seq<AuxEntry> := [];
    r := WriteAuxEntry(mem, stackPointer, AT_NULL, 0, dryRun, w);
    w := [AuxEntry(AT_NULL, 0)] + w;
    r := WriteAuxEntry(mem, r, AT_PAGESZ, 4096, dryRun, w);
    w := [AuxEntry(AT_PAGESZ, 4096)] + w;
    r := WriteAuxEntry(mem, r, AT_RANDOM, p.stackCookie, dryRun, w);
    w := [AuxEntry(AT_RANDOM, p.stackCookie)] + w;
    if p.subBinary.Some? {
      r, w := WriteBinary(mem, p.subBinary.value, r, dryRun, false, w);
    } else {
      r, w := WriteBinary(mem, p.binary, r, dryRun, true, w);
    }
    assert w == AuxVector(p);
  }

  // The two branches differ in the binary described and in a second page-size entry.
  method WriteBinary(mem: array<Byte>, b: Binary, sp: nat, dryRun: bool, pageSize: bool, ghost above: seq<AuxEntry>)
    returns (r: nat, ghost w: seq<AuxEntry>)
    requires BinaryFits(b) && (if pageSize then 96 else 80) <= sp && sp + 16 * |above| <= mem.Length
    requires !dryRun ==> AuxAt(mem[..], sp, above)
    modifies mem
    ensures w == BinaryAux(b, pageSize, above)
    ensures r == sp - (if pageSize then 96 else 80)
    ensures dryRun ==> mem[..] == old(mem[..])
    ensures !dryRun ==> AuxAt(mem[..], r, w)
    ensures Outside(old(mem[..]), mem[..], r, sp)
  {
    w := above;
    r := WriteAuxEntry(mem, sp, AT_ENTRY, b.entry, dryRun, w);
    w := [AuxEntry(AT_ENTRY, b.entry)] + w;
    r := WriteAuxEntry(mem, r, AT_BASE, b.baseAddress, dryRun, w);
    w := [AuxEntry(AT_BASE, b.baseAddress)] + w;
    if pageSize {
      r := WriteAuxEntry(mem, r, AT_PAGESZ, 4096, dryRun, w);
      w := [AuxEntry(AT_PAGESZ, 4096)] + w;
    }
    r := WriteAuxEntry(mem, r, AT_PHNUM, b.programHeaderCount, dryRun, w);
    w := [AuxEntry(AT_PHNUM, b.programHeaderCount)] + w;
    r := WriteAuxEntry(mem, r, AT_PHENT, b.programHeaderEntrySize, dryRun, w);
    w := [AuxEntry(AT_PHENT, b.programHeaderEntrySize)] + w;
    r := WriteAuxEntry(mem, r, AT_PHDR, b.programHeaders, dryRun, w);
    w := [AuxEntry(AT_PHDR, b.programHeaders)] + w;
  }

  ghost predicate EndsOnce(aux: seq<AuxEntry>) {
    aux != [] && forall i :: 0 <= i < |aux| ==> (aux[i].key == AT_NULL <==> i == |aux| - 1)
  }

  // A vector whose only AT_NULL entry is its last is read back whole.
  lemma {:induction false} AuxReadsBack(m: seq<Byte>, off: nat, aux: seq<AuxEntry>)
    requires AuxAt(m, off, aux) && EndsOnce(aux)
    ensures ReadAux(m, off) == aux
    decreases |aux|
  {
    AuxSplit(m, off, aux);
    if |aux| > 1 {
      AuxReadsBack(m, off + 16, aux[1..]);
    }
  }

  lemma AuxEndsOnce(p: Process)
    ensures EndsOnce(AuxVector(p))
  {
    ConsEndsOnce(AuxEntry(AT_PAGESZ, 4096), [AuxEntry(AT_NULL, 0)] + []);
    ConsEndsOnce(AuxEntry(AT_RANDOM, p.stackCookie), CommonAux(p)[1..]);
    if p.subBinary.Some? {
      BinaryEndsOnce(p.subBinary.value, false, CommonAux(p));
    } else {
      BinaryEndsOnce(p.binary, true, CommonAux(p));
    }
  }

  lemma ConsEndsOnce(e: AuxEntry, aux: seq<AuxEntry>)
    requires EndsOnce(aux) && e.key != AT_NULL
    ensures EndsOnce([e] + aux)
  {
  }

  lemma BinaryEndsOnce(b: Binary, pageSize: bool, above: seq<AuxEntry>)
    requires EndsOnce(above)
    ensures EndsOnce(BinaryAux(b, pageSize, above))
  {
    var entry := [AuxEntry(AT_ENTRY, b.entry)] + above;
    var low := [AuxEntry(AT_BASE, b.baseAddress)] + entry;
    var mid := if pageSize then [AuxEntry(AT_PAGESZ, 4096)] + low else low;
    var num := [AuxEntry(AT_PHNUM, b.programHeaderCount)] + mid;
    ConsEndsOnce(AuxEntry(AT_ENTRY, b.entry), above);
    ConsEndsOnce(AuxEntry(AT_BASE, b.baseAddress), entry);
    ConsEndsOnce(AuxEntry(AT_PAGESZ, 4096), low);
    ConsEndsOnce(AuxEntry(AT_PHNUM, b.programHeaderCount), mid);
    ConsEndsOnce(AuxEntry(AT_PHENT, b.programHeaderEntrySize), num);
    ConsEndsOnce(AuxEntry(AT_PHDR, b.programHeaders), [AuxEntry(AT_PHENT, b.programHeaderEntrySize)] + num);
  }

  // What a reader of the vector finds under a key: the first entry with it.
  function Lookup(aux: seq<AuxEntry>, key: nat): Option<nat> {
    if aux == [] then None else if aux[0].key == key then Some(aux[0].value) else Lookup(aux[1..], key)
  }

  // The vector describes subBinary when there is one, otherwise binary.
  lemma AuxDescribesBinary(p: Process)
    ensures var aux := AuxVector(p);
            var b := if p.subBinary.Some? then p.subBinary.value else p.binary;
            && Lookup(aux, AT_ENTRY) == Some(b.entry) && Lookup(aux, AT_BASE) == Some(b.baseAddress)
            && Lookup(aux, AT_PHDR) == Some(b.programHeaders) && Lookup(aux, AT_PHNUM) == Some(b.programHeaderCount)
            && Lookup(aux, AT_PHENT) == Some(b.programHeaderEntrySize)
            && Lookup(aux, AT_PAGESZ) == Some(4096) && Lookup(aux, AT_RANDOM) == Some(p.stackCookie)
  {
    var tail := CommonAux(p);
    if p.subBinary.Some? {
      BinaryDescribes(p.subBinary.value, false, tail);
    } else {
      BinaryDescribes(p.binary, true, tail);
    }
    LookupFirst(AuxEntry(AT_RANDOM, p.stackCookie), tail[1..]);
    LookupFirst(AuxEntry(AT_PAGESZ, 4096), [AuxEntry(AT_NULL, 0)]);
  }

  // With or without an interpreter, entry and program headers in the vector are the program's, as the ABI asks,
  // while control goes to the interpreter first when there is one.
  lemma AuxDescribes(program: Binary, interpreter: Option<Binary>, stackCookie: nat)
    ensures var p := Load(program, interpreter, stackCookie);
            var aux := AuxVector(p);
            && Lookup(aux, AT_ENTRY) == Some(program.entry) && Lookup(aux, AT_PHDR) == Some(program.programHeaders)
            && Lookup(aux, AT_PHNUM) == Some(program.programHeaderCount)
            && Lookup(aux, AT_PHENT) == Some(program.programHeaderEntrySize)
            && Lookup(aux, AT_PAGESZ) == Some(4096) && Lookup(aux, AT_RANDOM) == Some(stackCookie)
            && Lookup(aux, AT_BASE) == Some(program.baseAddress)
            && StartAddress(p) == if interpreter.Some? then interpreter.value.entry else program.entry
  {
    AuxDescribesBinary(Load(program, interpreter, stackCookie));
  }

  // AT_BASE should be the interpreter's base address. It is the program's, so it is right exactly when both were
  // loaded at the same address, which two live blocks of the allocator never are.
  lemma BaseIsProgram(program: Binary, interpreter: Binary, stackCookie: nat)
    ensures var aux := AuxVector(Load(program, Some(interpreter), stackCookie));
            && Lookup(aux, AT_BASE) == Some(program.baseAddress)
            && (Lookup(aux, AT_BASE) == Some(interpreter.baseAddress)
                <==> program.baseAddress == interpreter.baseAddress)
  {
    AuxDescribesBinary(Load(program, Some(interpreter), stackCookie));
  }

  // A program at 1 MiB with its interpreter at 2 MiB.
  lemma BaseIsNotInterpreter() returns (program: Binary, interpreter: Binary)
    ensures FitsWords(Load(program, Some(interpreter), 0))
    ensures Lookup(AuxVector(Load(program, Some(interpreter), 0)), AT_BASE) != Some(interpreter.baseAddress)
  {
    program := Binary(0x10_1000, 0x10_0000, 0x10_0040, 8, 56);
    interpreter := Binary(0x20_1000, 0x20_0000, 0x20_0040, 8, 56);
    BaseIsProgram(program, interpreter, 0);
  }

  lemma LookupFirst(e: AuxEntry, rest: seq<AuxEntry>)
    ensures forall key :: Lookup([e] + rest, key) == if e.key == key then Some(e.value) else Lookup(rest, key)
  {
    assert ([e] + rest)[1..] == rest;
  }

  lemma BinaryDescribes(b: Binary, pageSize: bool, above: seq<AuxEntry>)
    ensures var aux := BinaryAux(b, pageSize, above);
            && Lookup(aux, AT_ENTRY) == Some(b.entry) && Lookup(aux, AT_BASE) == Some(b.baseAddress)
            && Lookup(aux, AT_PHDR) == Some(b.programHeaders) && Lookup(aux, AT_PHNUM) == Some(b.programHeaderCount)
            && Lookup(aux, AT_PHENT) == Some(b.programHeaderEntrySize)
            && Lookup(aux, AT_PAGESZ) == (if pageSize then Some(4096) else Lookup(above, AT_PAGESZ))
            && Lookup(aux, AT_RANDOM) == Lookup(above, AT_RANDOM)
  {
    var entry := [AuxEntry(AT_ENTRY, b.entry)] + above;
    var low := [AuxEntry(AT_BASE, b.baseAddress)] + entry;
    var mid := if pageSize then [AuxEntry(AT_PAGESZ, 4096)] + low else low;
    var num := [AuxEntry(AT_PHNUM, b.programHeaderCount)] + mid;
    LookupFirst(AuxEntry(AT_ENTRY, b.entry), above);
    LookupFirst(AuxEntry(AT_BASE, b.baseAddress), entry);
    LookupFirst(AuxEntry(AT_PAGESZ, 4096), low);
    LookupFirst(AuxEntry(AT_PHNUM, b.programHeaderCount), mid);
    LookupFirst(AuxEntry(AT_PHENT, b.programHeaderEntrySize), num);
    LookupFirst(AuxEntry(AT_PHDR, b.programHeaders), [AuxEntry(AT_PHENT, b.programHeaderEntrySize)] + num);
  }

  lemma AuxSplit(m: seq<Byte>, off: nat, aux: seq<AuxEntry>)
    requires AuxAt(m, off, aux) && aux != []
    ensures AuxEntry(ReadWord(m, off), ReadWord(m, off + 8)) == aux[0]
    ensures AuxAt(m, off + 16, aux[1..]) && aux == [aux[0]] + aux[1..]
  {
    assert ReadWord(m, off + 16 * 0) == aux[0].key && ReadWord(m, off + 16 * 0 + 8) == aux[0].value;
    forall i | 0 <= i < |aux| - 1
      ensures ReadWord(m, off + 16 + 16 * i) == aux[1..][i].key
      ensures ReadWord(m, off + 16 + 16 * i + 8) == aux[1..][i].value
    {
      assert off + 16 + 16 * i == off + 16 * (i + 1);
    }
  }

  // -------------------------------------------------------------------------
  // Placing strings: written downwards from `top`, with a table of pointers ended by a null word

  // The bytes stored for one string, without the terminator.
  function Stored(s: seq<Wide>, limit: nat): seq<Byte> {
    Narrow(s[..Copied(s, limit)])
  }

  // String j and its pointer are in place.
  ghost predicate StringAt(m: seq<Byte>, base: nat, table: nat, top: nat, strs: seq<seq<Wide>>, limit: nat, j: nat)
    requires j < |strs|
  {
    var used := Used(strs[..j + 1], limit);
    && used <= top <= |m| && table + 8 * j + 8 <= |m|
    && ReadWord(m, table + 8 * j) == base + (top - used)
    && m[top - used..top - used + Copied(strs[j], limit) + 1] == Stored(strs[j], limit) + [0]
  }

  ghost predicate StringsAt(m: seq<Byte>, base: nat, table: nat, top: nat, strs: seq<seq<Wide>>, limit: nat, n: nat)
    requires n <= |strs|
  {
    forall j :: 0 <= j < n ==> StringAt(m, base, table, top, strs, limit, j)
  }

  lemma StringsFrame(m: seq<Byte>, m': seq<Byte>, base: nat, table: nat, top: nat, strs: seq<seq<Wide>>, limit: nat,
                     n: nat)
    requires n <= |strs| && StringsAt(m, base, table, top, strs, limit, n)
    requires Used(strs[..n], limit) <= top <= |m|
    requires Same(m, m', table, table + 8 * n) && Same(m, m', top - Used(strs[..n], limit), top)
    ensures StringsAt(m', base, table, top, strs, limit, n)
  {
    forall j | 0 <= j < n ensures StringAt(m', base, table, top, strs, limit, j) {
      assert StringAt(m, base, table, top, strs, limit, j);
      SameWord(m, m', table + 8 * j);
      UsedGrows(strs, limit, j + 1, n);
      UsedStep(strs, limit, j);
      var p := top - Used(strs[..j + 1], limit);
      assert m'[p..p + Copied(strs[j], limit) + 1] == m[p..p + Copied(strs[j], limit) + 1];
    }
  }

  method PlaceString(mem: array<Byte>, ghost base: nat, s: seq<Wide>, bytesAt: nat, limit: nat) returns (bytes: nat)
    requires Copied(s, limit) + 1 <= bytesAt <= mem.Length
    modifies mem
    ensures bytes == bytesAt - (Copied(s, limit) + 1)
    ensures mem[bytes..bytesAt] == Stored(s, limit) + [0]
    ensures Outside(old(mem[..]), mem[..], bytes, bytesAt)
  {
    var writing := CountCopied(s, limit);
    bytes := bytesAt - (writing + 1);
    writing := WideToAscii(mem, bytes, s, limit);
    mem[bytes + writing] := 0;
  }

  // The pointer table is cleared at its end first; then each string goes below the one before it.
  method PlaceStrings(mem: array<Byte>, base: nat, table: nat, strs: seq<seq<Wide>>, top: nat, limit: nat)
    returns (bytes: nat)
    requires base > 0 && base + mem.Length < WORD_LIMIT && top <= mem.Length
    requires table + 8 * (|strs| + 1) + Used(strs, limit) <= top
    modifies mem
    ensures bytes == top - Used(strs, limit)
    ensures StringsAt(mem[..], base, table, top, strs, limit, |strs|)
    ensures ReadWord(mem[..], table + 8 * |strs|) == 0
    ensures forall x :: 0 <= x < mem.Length && !(table <= x < table + 8 * (|strs| + 1)) && !(bytes <= x < top) ==>
              mem[x] == old(mem[x])
  {
    bytes := top;
    StoreWord(mem, table + 8 * |strs|, 0);
    var i := 0;
    while i < |strs|
      invariant 0 <= i <= |strs| && bytes == top - Used(strs[..i], limit) >= table + 8 * (|strs| + 1)
      invariant StringsAt(mem[..], base, table, top, strs, limit, i)
      invariant ReadWord(mem[..], table + 8 * |strs|) == 0
      invariant forall x :: 0 <= x < mem.Length && !(table <= x < table + 8 * (|strs| + 1)) && !(bytes <= x < top) ==>
                  mem[x] == old(mem[x])
    {
      bytes := PlaceOne(mem, base, table, strs, top, limit, i, bytes);
      i := i + 1;
    }
    assert strs[..|strs|] == strs;
  }

  method PlaceOne(mem: array<Byte>, base: nat, table: nat, strs: seq<seq<Wide>>, top: nat, limit: nat, i: nat,
                  bytesAt: nat)
    returns (bytes: nat)
    requires base > 0 && base + mem.Length < WORD_LIMIT && top <= mem.Length && i < |strs|
    requires table + 8 * (|strs| + 1) + Used(strs, limit) <= top
    requires bytesAt + Used(strs[..i], limit) == top
    requires StringsAt(mem[..], base, table, top, strs, limit, i)
    requires ReadWord(mem[..], table + 8 * |strs|) == 0
    modifies mem
    ensures bytes + Used(strs[..i + 1], limit) == top && table + 8 * (|strs| + 1) <= bytes <= bytesAt
    ensures StringsAt(mem[..], base, table, top, strs, limit, i + 1)
    ensures ReadWord(mem[..], table + 8 * |strs|) == 0
    ensures forall x :: 0 <= x < mem.Length && !(table <= x < table + 8 * (|strs| + 1)) && !(bytes <= x < bytesAt) ==>
              mem[x] == old(mem[x])
  {
    ghost var m0 := mem[..];
    UsedStep(strs, limit, i);
    UsedGrows(strs, limit, i + 1, |strs|);
    assert strs[..|strs|] == strs;
    bytes := PlaceString(mem, base, strs[i], bytesAt, limit);
    ghost var m1 := mem[..];
    StoreWord(mem, table + 8 * i, base + bytes);
    assert m1[bytes..bytesAt] == Stored(strs[i], limit) + [0];
    OneMoreString(m0, m1, mem[..], base, table, strs, top, limit, i, bytes, bytesAt);
  }

  lemma OneMoreString(m0: seq<Byte>, m1: seq<Byte>, m2: seq<Byte>, base: nat, table: nat, strs: seq<seq<Wide>>,
                      top: nat, limit: nat, i: nat, bytes: nat, bytesAt: nat)
    requires i < |strs| && top <= |m0| && table + 8 * (|strs| + 1) <= bytes < bytesAt <= top
    requires bytesAt + Used(strs[..i], limit) == top && bytes + Used(strs[..i + 1], limit) == top
    requires bytesAt == bytes + Copied(strs[i], limit) + 1
    requires StringsAt(m0, base, table, top, strs, limit, i) && ReadWord(m0, table + 8 * |strs|) == 0
    requires Outside(m0, m1, bytes, bytesAt) && m1[bytes..bytesAt] == Stored(strs[i], limit) + [0]
    requires Outside(m1, m2, table + 8 * i, table + 8 * i + 8) && ReadWord(m2, table + 8 * i) == base + bytes
    ensures StringsAt(m2, base, table, top, strs, limit, i + 1) && ReadWord(m2, table + 8 * |strs|) == 0
  {
    StringsFrame(m0, m2, base, table, top, strs, limit, i);
    SameWord(m0, m2, table + 8 * |strs|);
    assert m2[bytes..bytesAt] == m1[bytes..bytesAt];
    assert StringAt(m2, base, table, top, strs, limit, i);
  }

  // -------------------------------------------------------------------------
  // Reading placed strings back

  // What the new process sees of one string copied with this limit.
  function Received(s: seq<Wide>, limit: nat): seq<Byte> {
    UntilZero(Stored(s, limit))
  }

  // It is a prefix of the low bytes, ended by the limit, by the first zero among them, or by the end of the string.
  lemma ReceivedIsPrefix(s: seq<Wide>, limit: nat)
    ensures var r := Received(s, limit);
            && |r| <= |s| && |r| <= limit && (forall i :: 0 <= i < |r| ==> r[i] as nat == s[i] as nat % 256 != 0)
            && (|r| < |s| && |r| < limit ==> s[|r|] as nat % 256 == 0)
  {
    UntilZeroIsPrefix(Stored(s, limit));
    assert forall i :: 0 <= i < Copied(s, limit) ==> Stored(s, limit)[i] == LowByte(s[i]);
  }

  ghost function AllReceived(strs: seq<seq<Wide>>, limit: nat): seq<seq<Byte>> {
    seq(|strs|, i requires 0 <= i < |strs| => Received(strs[i], limit))
  }

  // A table of non-null words before a null word reads back as those words.
  lemma {:induction false} PointersReadBack(m: seq<Byte>, table: nat, list: seq<nat>, from: nat)
    requires from <= |list| && table + 8 * (|list| + 1) <= |m| && ReadWord(m, table + 8 * |list|) == 0
    requires forall i {:trigger list[i]} :: 0 <= i < |list| ==> ReadWord(m, table + 8 * i) == list[i] != 0
    ensures ReadPointers(m, table + 8 * from) == list[from..]
    decreases |list| - from
  {
    if from < |list| {
      PointersReadBack(m, table, list, from + 1);
      assert table + 8 * from + 8 == table + 8 * (from + 1);
      assert list[from..] == [list[from]] + list[from + 1..];
    }
  }

  // The table reads back as pointers to what was stored.
  lemma StringsReadBack(m: seq<Byte>, base: nat, table: nat, top: nat, strs: seq<seq<Wide>>, limit: nat)
    requires base > 0 && table + 8 * (|strs| + 1) <= |m|
    requires StringsAt(m, base, table, top, strs, limit, |strs|) && ReadWord(m, table + 8 * |strs|) == 0
    ensures |ReadPointers(m, table)| == |strs|
    ensures StringsOf(m, base, ReadPointers(m, table)) == AllReceived(strs, limit)
  {
    var list := seq(|strs|, i requires 0 <= i < |strs| => ReadWord(m, table + 8 * i));
    forall i | 0 <= i < |strs| ensures list[i] != 0 && StringOf(m, base, list[i]) == Received(strs[i], limit) {
      assert StringAt(m, base, table, top, strs, limit, i);
      StringReadsBack(m, base, table, top, strs, limit, i);
    }
    PointersReadBack(m, table, list, 0);
    AllEqual(m, base, list, strs, limit);
  }

  lemma AllEqual(m: seq<Byte>, base: nat, ps: seq<nat>, strs: seq<seq<Wide>>, limit: nat)
    requires |ps| == |strs|
    requires forall i :: 0 <= i < |strs| ==> StringOf(m, base, ps[i]) == Received(strs[i], limit)
    ensures StringsOf(m, base, ps) == AllReceived(strs, limit)
  {
  }

  lemma StringReadsBack(m: seq<Byte>, base: nat, table: nat, top: nat, strs: seq<seq<Wide>>, limit: nat, i: nat)
    requires i < |strs| && base > 0 && StringAt(m, base, table, top, strs, limit, i)
    ensures ReadWord(m, table + 8 * i) != 0
    ensures StringOf(m, base, ReadWord(m, table + 8 * i)) == Received(strs[i], limit)
  {
    UsedStep(strs, limit, i);
    CopiedString(m, top - Used(strs[..i + 1], limit), Stored(strs[i], limit));
  }

  // A string arrives whole exactly when it is within the limit and none of its code units has a zero low byte.
  lemma ReceivedWhole(s: seq<Wide>, limit: nat)
    ensures Received(s, limit) == Narrow(s) <==> |s| <= limit && forall i :: 0 <= i < |s| ==> LowByte(s[i]) != 0
  {
    var t := Stored(s, limit);
    UntilZeroExact(t);
    if |s| <= limit {
      assert s[..Copied(s, limit)] == s;
      assert forall i :: 0 <= i < |s| ==> t[i] == LowByte(s[i]);
    } else {
      assert |Received(s, limit)| <= |t| < |s|;
    }
  }

  // -------------------------------------------------------------------------
  // The whole block

  // The layout of the block, top down: end marker, strings, auxiliary vector, envp table, argv table, argc.
  function StringBytes(strs: seq<seq<Wide>>): nat {
    if strs == [] then 0 else StringBytes(strs[..|strs| - 1]) + |strs[|strs| - 1]| + 1
  }

  function BlockBytes(argv: seq<seq<Wide>>, envp: seq<seq<Wide>>): nat {
    (StringBytes(envp) + StringBytes(argv) + 15) / 16 * 16
  }

  // Bytes from the initial stack pointer to the top of the stack.
  function BlockSize(p: Process, argv: seq<seq<Wide>>, envp: seq<seq<Wide>>): nat {
    8 + BlockBytes(argv, envp) + 16 * |AuxVector(p)| + 8 * (|envp| + |argv| + 2) + 8
  }

  ghost predicate Fits(size: nat, p: Process, argv: seq<seq<Wide>>, envp: seq<seq<Wide>>) {
    BlockSize(p, argv, envp) <= size
  }

  // STACK_LEFT subtracts a number of words from a number of bytes; it serves as the copy limit. For envp the
  // stack pointer stands below the auxiliary vector, for argv at the argc word.
  function EnvLimit(size: nat, p: Process, argv: seq<seq<Wide>>, envp: seq<seq<Wide>>): int {
    size - (8 + BlockBytes(argv, envp) + 16 * |AuxVector(p)|) / 8
  }

  function ArgLimit(size: nat, p: Process, argv: seq<seq<Wide>>, envp: seq<seq<Wide>>): int {
    size - BlockSize(p, argv, envp) / 8
  }

  // The limits, whatever is on the stack: at least seven eighths of it, and less than all of it.
  lemma LimitBounds(size: nat, p: Process, argv: seq<seq<Wide>>, envp: seq<seq<Wide>>)
    requires Fits(size, p, argv, envp)
    ensures size - size / 8 <= ArgLimit(size, p, argv, envp) <= EnvLimit(size, p, argv, envp) < size
  {
  }

  lemma {:induction false} UsedIsStringBytes(strs: seq<seq<Wide>>, limit: nat)
    ensures Used(strs, limit) <= StringBytes(strs)
    ensures StringBytes(strs) <= limit + 1 ==> Used(strs, limit) == StringBytes(strs)
  {
    if strs != [] {
      UsedIsStringBytes(strs[..|strs| - 1], limit);
    }
  }

  // One pointer table, its null word, and its strings below `top`.
  ghost predicate TableAt(m: seq<Byte>, base: nat, table: nat, top: nat, strs: seq<seq<Wide>>, limit: nat) {
    && Used(strs, limit) <= top <= |m| && table + 8 * (|strs| + 1) <= |m|
    && StringsAt(m, base, table, top, strs, limit, |strs|)
    && ReadWord(m, table + 8 * |strs|) == 0
  }

  // Writes outside the table and outside its strings leave both in place.
  lemma TableFrame(m: seq<Byte>, m': seq<Byte>, base: nat, table: nat, end: nat, bottom: nat, top: nat,
                   strs: seq<seq<Wide>>, limit: nat)
    requires TableAt(m, base, table, top, strs, limit)
    requires end == table + 8 * (|strs| + 1) && bottom + Used(strs, limit) == top
    requires Same(m, m', table, end) && Same(m, m', bottom, top)
    ensures TableAt(m', base, table, top, strs, limit)
  {
    assert strs[..|strs|] == strs;
    StringsFrame(m, m', base, table, top, strs, limit, |strs|);
    SameWord(m, m', table + 8 * |strs|);
  }

  // argv's table lies right below envp's, and argv's strings right below envp's, which end at `top`.
  ghost predicate TablesAt(m: seq<Byte>, base: nat, argvAt: nat, argv: seq<seq<Wide>>, argLimit: nat,
                           envp: seq<seq<Wide>>, envLimit: nat, top: nat)
  {
    && TableAt(m, base, argvAt + 8 * (|argv| + 1), top, envp, envLimit)
    && TableAt(m, base, argvAt, top - Used(envp, envLimit), argv, argLimit)
  }

  lemma TablesFrame(m: seq<Byte>, m': seq<Byte>, base: nat, argvAt: nat, argv: seq<seq<Wide>>, argLimit: nat,
                    envp: seq<seq<Wide>>, envLimit: nat, top: nat, end: nat, floor: nat)
    requires TablesAt(m, base, argvAt, argv, argLimit, envp, envLimit, top)
    requires floor + Used(envp, envLimit) + Used(argv, argLimit) <= top
    requires end == argvAt + 8 * (|argv| + 1) + 8 * (|envp| + 1)
    requires Same(m, m', argvAt, end) && Same(m, m', floor, top)
    ensures TablesAt(m', base, argvAt, argv, argLimit, envp, envLimit, top)
  {
    var envpAt := argvAt + 8 * (|argv| + 1);
    var argTop := top - Used(envp, envLimit);
    assert TableAt(m', base, envpAt, top, envp, envLimit) by {
      TableFrameWithin(m, m', base, envpAt, argTop, top, envp, envLimit, argvAt, end, floor, top);
    }
    assert TableAt(m', base, argvAt, argTop, argv, argLimit) by {
      TableFrameWithin(m, m', base, argvAt, floor, argTop, argv, argLimit, argvAt, end, floor, top);
    }
  }

  // The same when more than the table, [lo, hi), and more than its strings, [floor, roof), is known to stay.
  lemma TableFrameWithin(m: seq<Byte>, m': seq<Byte>, base: nat, table: nat, bottom: nat, top: nat,
                         strs: seq<seq<Wide>>, limit: nat, lo: nat, hi: nat, floor: nat, roof: nat)
    requires TableAt(m, base, table, top, strs, limit)
    requires lo <= table && table + 8 * (|strs| + 1) <= hi
    requires floor <= bottom && bottom + Used(strs, limit) <= top <= roof
    requires Same(m, m', lo, hi) && Same(m, m', floor, roof)
    ensures TableAt(m', base, table, top, strs, limit)
  {
    var end, low := table + 8 * (|strs| + 1), top - Used(strs, limit);
    SameWithin(m, m', lo, hi, table, end);
    SameWithin(m, m', floor, roof, low, top);
    TableFrame(m, m', base, table, end, low, top, strs, limit);
  }

  method PlaceTables(mem: array<Byte>, base: nat, argvAt: nat, argv: seq<seq<Wide>>, argLimit: nat,
                     envp: seq<seq<Wide>>, envLimit: nat, top: nat, ghost floor: nat)
    requires base > 0 && base + mem.Length < WORD_LIMIT && top <= mem.Length
    requires argvAt + 8 * (|argv| + |envp| + 2) <= floor
    requires floor + Used(envp, envLimit) + Used(argv, argLimit) <= top
    modifies mem
    ensures TablesAt(mem[..], base, argvAt, argv, argLimit, envp, envLimit, top)
    ensures Outside(old(mem[..]), mem[..], argvAt, top)
  {
    var envpAt := argvAt + 8 * (|argv| + 1);
    var bytes := PlaceStrings(mem, base, envpAt, envp, top, envLimit);
    ghost var m1, argTop := mem[..], bytes;
    bytes := PlaceStrings(mem, base, argvAt, argv, bytes, argLimit);
    TableFrame(m1, mem[..], base, envpAt, envpAt + 8 * (|envp| + 1), argTop, top, envp, envLimit);
  }

  // The strings take a whole number of 16-byte units, the fewest that hold them.
  lemma BlockIsRounded(argv: seq<seq<Wide>>, envp: seq<seq<Wide>>)
    ensures BlockBytes(argv, envp) % 16 == 0
    ensures StringBytes(envp) + StringBytes(argv) <= BlockBytes(argv, envp) < StringBytes(envp) + StringBytes(argv) + 16
  {
    var n := StringBytes(envp) + StringBytes(argv) + 15;
    assert n == n / 16 * 16 + n % 16;
  }

  lemma EntryCount(p: Process)
    ensures |AuxVector(p)| == if p.subBinary.Some? then 8 else 9
  {
  }

  // With the end marker, the vector of 8 or 9 entries, both tables and argc, the block keeps the alignment of the
  // stack's end to 8 bytes.
  lemma BlockKeepsAlignment(size: nat, p: Process, argv: seq<seq<Wide>>, envp: seq<seq<Wide>>)
    requires Fits(size, p, argv, envp)
    ensures BlockSize(p, argv, envp)
         == BlockBytes(argv, envp) + 8 * (|argv| + |envp|) + if p.subBinary.Some? then 160 else 176
    ensures (size - BlockSize(p, argv, envp)) % 8 == size % 8
  {
    EntryCount(p);
    BlockIsRounded(argv, envp);
    var words := BlockSize(p, argv, envp) / 8;
    assert BlockSize(p, argv, envp) == 8 * words;
    assert size == 8 * words + (size - 8 * words);
  }

  // A fitting stack holds the whole block. What arrives is exactly what was given if and only if both lists are
  // deliverable, and so whenever their strings are within seven eighths of the stack and free of zero low bytes.
  method BuildStack(mem: array<Byte>, base: nat, p: Process, argv: seq<seq<Wide>>, envp: seq<seq<Wide>>)
    returns (stackPointer: nat)
    requires base > 0 && base + mem.Length < WORD_LIMIT && FitsWords(p) && Fits(mem.Length, p, argv, envp)
    modifies mem
    ensures stackPointer == mem.Length - BlockSize(p, argv, envp) && stackPointer % 8 == mem.Length % 8
    ensures EnvLimit(mem.Length, p, argv, envp) > 0 && ArgLimit(mem.Length, p, argv, envp) > 0
    ensures Decode(mem[..], base, stackPointer)
         == Startup(|argv|,
                    AllReceived(argv, ArgLimit(mem.Length, p, argv, envp)),
                    AllReceived(envp, EnvLimit(mem.Length, p, argv, envp)),
                    AuxVector(p))
    ensures Decode(mem[..], base, stackPointer) == AsGiven(p, argv, envp)
       <==> && Deliverable(argv, ArgLimit(mem.Length, p, argv, envp))
            && Deliverable(envp, EnvLimit(mem.Length, p, argv, envp))
    ensures Deliverable(argv, mem.Length - mem.Length / 8) && Deliverable(envp, mem.Length - mem.Length / 8) ==>
              Decode(mem[..], base, stackPointer) == AsGiven(p, argv, envp)
  {
    CountsExact(mem.Length, p, argv, envp);
    StartupExact(mem.Length, p, argv, envp);
    LimitBounds(mem.Length, p, argv, envp);
    BlockKeepsAlignment(mem.Length, p, argv, envp);
    var envLimit, argLimit;
    stackPointer, envLimit, argLimit := Assemble(mem, base, p, argv, envp);
  }

  // Both halves, below an end marker of zero.
  method Assemble(mem: array<Byte>, base: nat, p: Process, argv: seq<seq<Wide>>, envp: seq<seq<Wide>>)
    returns (stackPointer: nat, envLimit: nat, argLimit: nat)
    requires base > 0 && base + mem.Length < WORD_LIMIT && FitsWords(p) && Fits(mem.Length, p, argv, envp)
    modifies mem
    ensures stackPointer == mem.Length - BlockSize(p, argv, envp)
    ensures envLimit == EnvLimit(mem.Length, p, argv, envp) && argLimit == ArgLimit(mem.Length, p, argv, envp)
    ensures ReadWord(mem[..], mem.Length - 8) == 0
    ensures Decode(mem[..], base, stackPointer)
         == Startup(|argv|, AllReceived(argv, argLimit), AllReceived(envp, envLimit), AuxVector(p))
  {
    var auxTop;
    auxTop, stackPointer, envLimit, argLimit := MeasureBlock(mem, p, argv, envp);
    FillBlock(mem, base, p, stackPointer, auxTop, argv, argLimit, envp, envLimit, mem.Length - 8);
  }

  // Where the first of the strings that end at `top` starts, 0 for an empty list.
  function StartOfFirst(base: nat, top: int, strs: seq<seq<Wide>>, limit: nat): int {
    if |strs| == 0 then 0 else base + (top - Copied(strs[0], limit) - 1)
  }

  // The first pointer of a table of n pointers.
  ghost function FirstPointer(m: seq<Byte>, table: nat, n: nat): int
    requires table + 8 * (n + 1) <= |m|
  {
    if n == 0 then 0 else ReadWord(m, table)
  }

  // The pointers to the first argument and to the first environment string.
  ghost function FirstPointers(m: seq<Byte>, sp: nat, argc: nat, envc: nat): (int, int)
    requires sp + 8 + 8 * (argc + envc + 2) <= |m|
  {
    (FirstPointer(m, sp + 8, argc), FirstPointer(m, sp + 8 + 8 * (argc + 1), envc))
  }

  lemma FirstPointersAre(m: seq<Byte>, base: nat, sp: nat, argvAt: nat, argv: seq<seq<Wide>>, argLimit: nat,
                         envp: seq<seq<Wide>>, envLimit: nat, top: nat)
    requires TablesAt(m, base, argvAt, argv, argLimit, envp, envLimit, top) && argvAt == sp + 8
    ensures FirstPointers(m, sp, |argv|, |envp|)
         == (StartOfFirst(base, top - Used(envp, envLimit), argv, argLimit), StartOfFirst(base, top, envp, envLimit))
  {
    var argTop := top - Used(envp, envLimit);
    assert FirstPointer(m, argvAt, |argv|) == StartOfFirst(base, argTop, argv, argLimit) by {
      FirstIsThere(m, base, argvAt, argTop, argv, argLimit);
    }
    var envpAt := argvAt + 8 * (|argv| + 1);
    assert FirstPointer(m, envpAt, |envp|) == StartOfFirst(base, top, envp, envLimit) by {
      FirstIsThere(m, base, envpAt, top, envp, envLimit);
    }
  }

  lemma FirstIsThere(m: seq<Byte>, base: nat, table: nat, top: nat, strs: seq<seq<Wide>>, limit: nat)
    requires TableAt(m, base, table, top, strs, limit)
    ensures FirstPointer(m, table, |strs|) == StartOfFirst(base, top, strs, limit)
  {
    if strs != [] {
      assert StringAt(m, base, table, top, strs, limit, 0);
      UsedStep(strs, limit, 0);
      assert strs[..0] == [];
    }
  }

  // The second half: both tables with their strings, argc, and the vector. The first string of envp ends at `top`, and
  // the first one of argv where the strings of envp end; StringsApart orders the others below them.
  method FillBlock(mem: array<Byte>, base: nat, p: Process, stackPointer: nat, auxTop: nat, argv: seq<seq<Wide>>,
                   argLimit: nat, envp: seq<seq<Wide>>, envLimit: nat, top: nat)
    requires base > 0 && base + mem.Length < WORD_LIMIT && FitsWords(p) && |argv| < WORD_LIMIT
    requires stackPointer + 8 + 8 * (|argv| + |envp| + 2) + 16 * |AuxVector(p)| == auxTop <= mem.Length
    requires auxTop + Used(envp, envLimit) + Used(argv, argLimit) <= top == mem.Length - 8
    modifies mem
    ensures ReadWord(mem[..], top) == old(ReadWord(mem[..], top))
    ensures FirstPointers(mem[..], stackPointer, |argv|, |envp|)
         == (StartOfFirst(base, top - Used(envp, envLimit), argv, argLimit), StartOfFirst(base, top, envp, envLimit))
    ensures Decode(mem[..], base, stackPointer)
         == Startup(|argv|, AllReceived(argv, argLimit), AllReceived(envp, envLimit), AuxVector(p))
  {
    ghost var m := mem[..];
    var argvOnStack := stackPointer + 8;
    PlaceTables(mem, base, argvOnStack, argv, argLimit, envp, envLimit, top, auxTop);
    Finish(mem, base, p, stackPointer, argvOnStack, auxTop, argv, argLimit, envp, envLimit, top);
    assert ReadWord(mem[..], top) == ReadWord(m, top) by {
      SameWord(m, mem[..], top);
    }
  }

  // The first half of the stack-building code: end marker, counting, padding and the dry run fix every position.
  method MeasureBlock(mem: array<Byte>, p: Process, argv: seq<seq<Wide>>, envp: seq<seq<Wide>>)
    returns (auxTop: nat, stackPointer: nat, envLimit: nat, argLimit: nat)
    requires FitsWords(p) && Fits(mem.Length, p, argv, envp)
    modifies mem
    ensures stackPointer == mem.Length - BlockSize(p, argv, envp)
    ensures envLimit == EnvLimit(mem.Length, p, argv, envp) && argLimit == ArgLimit(mem.Length, p, argv, envp)
    ensures stackPointer + 8 + 8 * (|argv| + |envp| + 2) + 16 * |AuxVector(p)| == auxTop
    ensures auxTop + Used(envp, envLimit) + Used(argv, argLimit) <= mem.Length - 8
    ensures ReadWord(mem[..], mem.Length - 8) == 0
  {
    var size := mem.Length;
    CountsExact(size, p, argv, envp);
    var stringBlockBytes, argc, envc := CountAndPad(mem, argv, envp);
    auxTop := size - 8 - stringBlockBytes;
    ghost var padded := mem[..];
    var auxBottom := WriteProcessAuxVectors(mem, p, auxTop, true);
    assert mem[..] == padded;
    assert size - auxBottom == 8 + BlockBytes(argv, envp) + 16 * |AuxVector(p)|;
    envLimit := size - (size - auxBottom) / 8;
    var argvOnStack := auxBottom - 8 * (envc + argc + 2);
    stackPointer := argvOnStack - 8;
    assert size - stackPointer == BlockSize(p, argv, envp);
    argLimit := size - (size - stackPointer) / 8;
  }

  // The end marker, the two counting loops below it, and the padding of the strings.
  method CountAndPad(mem: array<Byte>, argv: seq<seq<Wide>>, envp: seq<seq<Wide>>)
    returns (stringBlockBytes: nat, argc: nat, envc: nat)
    requires BlockBytes(argv, envp) + 8 <= mem.Length
    requires Used(envp, mem.Length - 1) == StringBytes(envp) && Used(argv, mem.Length - 1) == StringBytes(argv)
    modifies mem
    ensures stringBlockBytes == BlockBytes(argv, envp) && argc == |argv| && envc == |envp|
    ensures ReadWord(mem[..], mem.Length - 8) == 0
  {
    var stackPointer := mem.Length - 8;
    StoreWord(mem, stackPointer, 0); // end marker
    BlockIsRounded(argv, envp);
    stringBlockBytes, argc, envc := CountBlock(mem.Length - (mem.Length - stackPointer) / 8, argv, envp);
    PadStrings(mem, stackPointer - stringBlockBytes, stackPointer);
  }

  // Clears the lowest word of the string block, which may be empty; the end marker stays.
  method PadStrings(mem: array<Byte>, bottom: nat, marker: nat)
    requires (bottom + 8 <= marker || bottom == marker) && marker + 8 <= mem.Length
    requires ReadWord(mem[..], marker) == 0
    modifies mem
    ensures ReadWord(mem[..], marker) == 0
  {
    ghost var m := mem[..];
    StoreWord(mem, bottom, 0);
    if bottom < marker {
      SameWord(m, mem[..], marker);
    }
  }

  // The two counting loops, and the size of the string block rounded up to 16 bytes.
  method CountBlock(limit: nat, argv: seq<seq<Wide>>, envp: seq<seq<Wide>>)
    returns (stringBlockBytes: nat, argc: nat, envc: nat)
    requires Used(envp, limit) == StringBytes(envp) && Used(argv, limit) == StringBytes(argv)
    ensures stringBlockBytes == BlockBytes(argv, envp) && argc == |argv| && envc == |envp|
  {
    var envBytes, argBytes;
    envBytes, envc := CountAllCopied(envp, limit);
    argBytes, argc := CountAllCopied(argv, limit);
    stringBlockBytes := (envBytes + argBytes + 15) / 16 * 16;
  }

  // Writes argc, and the auxiliary vector for real.
  method Finish(mem: array<Byte>, base: nat, p: Process, stackPointer: nat, ghost argvAt: nat, auxTop: nat,
                argv: seq<seq<Wide>>, ghost argLimit: nat, envp: seq<seq<Wide>>, ghost envLimit: nat, ghost top: nat)
    requires base > 0 && base + mem.Length < WORD_LIMIT && FitsWords(p) && |argv| < WORD_LIMIT
    requires stackPointer + 8 == argvAt
    requires argvAt + 8 * (|argv| + |envp| + 2) + 16 * |AuxVector(p)| == auxTop <= mem.Length
    requires auxTop + Used(envp, envLimit) + Used(argv, argLimit) <= top <= mem.Length
    requires TablesAt(mem[..], base, argvAt, argv, argLimit, envp, envLimit, top)
    modifies mem
    ensures Decode(mem[..], base, stackPointer)
         == Startup(|argv|, AllReceived(argv, argLimit), AllReceived(envp, envLimit), AuxVector(p))
    ensures FirstPointers(mem[..], stackPointer, |argv|, |envp|)
         == (StartOfFirst(base, top - Used(envp, envLimit), argv, argLimit), StartOfFirst(base, top, envp, envLimit))
    ensures Outside(old(mem[..]), mem[..], stackPointer, auxTop)
  {
    ghost var m2 := mem[..];
    StoreWord(mem, stackPointer, |argv|);
    ghost var m3 := mem[..];
    var auxBottom := WriteProcessAuxVectors(mem, p, auxTop, false);
    SameWord(m3, mem[..], stackPointer);
    assert Same(m2, mem[..], argvAt, auxBottom) && Same(m2, mem[..], auxTop, top);
    AuxEndsOnce(p);
    FinishedReadsBack(m2, mem[..], base, stackPointer, argvAt, auxBottom, AuxVector(p), argv, argLimit, envp, envLimit,
                      top);
  }

  lemma FinishedReadsBack(m: seq<Byte>, m': seq<Byte>, base: nat, sp: nat, argvAt: nat, auxAt: nat, aux: seq<AuxEntry>,
                          argv: seq<seq<Wide>>, argLimit: nat, envp: seq<seq<Wide>>, envLimit: nat, top: nat)
    requires base > 0 && argvAt == sp + 8 && auxAt == argvAt + 8 * (|argv| + |envp| + 2)
    requires auxAt + 16 * |aux| + Used(envp, envLimit) + Used(argv, argLimit) <= top <= |m|
    requires TablesAt(m, base, argvAt, argv, argLimit, envp, envLimit, top)
    requires Same(m, m', argvAt, auxAt) && Same(m, m', auxAt + 16 * |aux|, top)
    requires AuxAt(m', auxAt, aux) && EndsOnce(aux) && ReadWord(m', sp) == |argv|
    ensures Decode(m', base, sp) == Startup(|argv|, AllReceived(argv, argLimit), AllReceived(envp, envLimit), aux)
    ensures FirstPointers(m', sp, |argv|, |envp|)
         == (StartOfFirst(base, top - Used(envp, envLimit), argv, argLimit), StartOfFirst(base, top, envp, envLimit))
  {
    TablesFrame(m, m', base, argvAt, argv, argLimit, envp, envLimit, top, auxAt, auxAt + 16 * |aux|);
    BlockReadsBack(m', base, sp, argvAt, auxAt, aux, argv, argLimit, envp, envLimit, top);
    FirstPointersAre(m', base, sp, argvAt, argv, argLimit, envp, envLimit, top);
  }

  // Inside a fitting stack no string is cut while counting, and every limit is positive.
  lemma CountsExact(size: nat, p: Process, argv: seq<seq<Wide>>, envp: seq<seq<Wide>>)
    requires Fits(size, p, argv, envp)
    ensures Used(envp, size - 1) == StringBytes(envp) && Used(argv, size - 1) == StringBytes(argv)
    ensures StringBytes(envp) + StringBytes(argv) <= BlockBytes(argv, envp)
    ensures EnvLimit(size, p, argv, envp) >= ArgLimit(size, p, argv, envp) > 0
    ensures Used(envp, EnvLimit(size, p, argv, envp)) + Used(argv, ArgLimit(size, p, argv, envp))
         <= BlockBytes(argv, envp)
  {
    BlockHoldsStrings(argv, envp);
    LimitsPositive(size, p, argv, envp);
    UsedIsStringBytes(envp, size - 1);
    UsedIsStringBytes(argv, size - 1);
    UsedIsStringBytes(envp, EnvLimit(size, p, argv, envp));
    UsedIsStringBytes(argv, ArgLimit(size, p, argv, envp));
  }

  lemma BlockHoldsStrings(argv: seq<seq<Wide>>, envp: seq<seq<Wide>>)
    ensures StringBytes(envp) + StringBytes(argv) <= BlockBytes(argv, envp)
  {
  }

  lemma LimitsPositive(size: nat, p: Process, argv: seq<seq<Wide>>, envp: seq<seq<Wide>>)
    requires Fits(size, p, argv, envp)
    ensures EnvLimit(size, p, argv, envp) >= ArgLimit(size, p, argv, envp) > 0
  {
  }

  // String j and its terminator lie below string i.
  lemma StringsApart(strs: seq<seq<Wide>>, limit: nat, top: nat, i: nat, j: nat)
    requires i < j < |strs| && Used(strs, limit) <= top
    ensures top - Used(strs[..j + 1], limit) + Copied(strs[j], limit) + 1 <= top - Used(strs[..i + 1], limit)
    ensures top - Used(strs[..j + 1], limit) >= top - Used(strs, limit)
  {
    UsedStep(strs, limit, j);
    UsedGrows(strs, limit, i + 1, j);
    UsedGrows(strs, limit, j + 1, |strs|);
    assert strs[..|strs|] == strs;
  }

  // The parts of the block lie one above the other without overlapping, and fill it from the stack pointer up:
  // argc, argv and its null, envp and its null, auxiliary vector, argv strings, envp strings, end marker.
  lemma PartsApart(size: nat, p: Process, argv: seq<seq<Wide>>, envp: seq<seq<Wide>>)
    requires Fits(size, p, argv, envp)
    ensures var sp := size - BlockSize(p, argv, envp);
            var envpAt := sp + 8 + 8 * (|argv| + 1);
            var auxAt := envpAt + 8 * (|envp| + 1);
            var envLimit, argLimit := EnvLimit(size, p, argv, envp), ArgLimit(size, p, argv, envp);
            && 0 <= sp && envLimit > 0 && argLimit > 0
            && auxAt + 16 * |AuxVector(p)| <= size - 8 - Used(envp, envLimit) - Used(argv, argLimit)
  {
    CountsExact(size, p, argv, envp);
  }

  lemma BlockReadsBack(m: seq<Byte>, base: nat, sp: nat, argvAt: nat, auxAt: nat, aux: seq<AuxEntry>,
                       argv: seq<seq<Wide>>, argLimit: nat, envp: seq<seq<Wide>>, envLimit: nat, top: nat)
    requires base > 0 && argvAt == sp + 8 && auxAt == argvAt + 8 * (|argv| + |envp| + 2) && auxAt + 16 * |aux| <= |m|
    requires ReadWord(m, sp) == |argv|
    requires TablesAt(m, base, argvAt, argv, argLimit, envp, envLimit, top)
    requires AuxAt(m, auxAt, aux) && EndsOnce(aux)
    ensures Decode(m, base, sp) == Startup(|argv|, AllReceived(argv, argLimit), AllReceived(envp, envLimit), aux)
  {
    var envpAt := argvAt + 8 * (|argv| + 1);
    TableReadsBack(m, base, argvAt, top - Used(envp, envLimit), argv, argLimit);
    TableReadsBack(m, base, envpAt, top, envp, envLimit);
    AuxReadsBack(m, auxAt, aux);
    DecodeParts(m, base, sp, argvAt, envpAt, auxAt);
  }

  lemma TableReadsBack(m: seq<Byte>, base: nat, table: nat, top: nat, strs: seq<seq<Wide>>, limit: nat)
    requires base > 0 && TableAt(m, base, table, top, strs, limit)
    ensures |ReadPointers(m, table)| == |strs|
    ensures StringsOf(m, base, ReadPointers(m, table)) == AllReceived(strs, limit)
  {
    StringsReadBack(m, base, table, top, strs, limit);
  }

  lemma DecodeParts(m: seq<Byte>, base: nat, sp: nat, argvAt: nat, envpAt: nat, auxAt: nat)
    requires sp + 8 <= |m| && argvAt == sp + 8
    requires envpAt == argvAt + 8 * (|ReadPointers(m, argvAt)| + 1)
    requires auxAt == envpAt + 8 * (|ReadPointers(m, envpAt)| + 1)
    ensures Decode(m, base, sp)
         == Startup(ReadWord(m, sp), StringsOf(m, base, ReadPointers(m, argvAt)),
                    StringsOf(m, base, ReadPointers(m, envpAt)), ReadAux(m, auxAt))
  {
  }

  ghost function AllNarrow(strs: seq<seq<Wide>>): seq<seq<Byte>> {
    seq(|strs|, i requires 0 <= i < |strs| => Narrow(strs[i]))
  }

  // The block whose strings are the given ones, unit by unit.
  ghost function AsGiven(p: Process, argv: seq<seq<Wide>>, envp: seq<seq<Wide>>): Startup {
    Startup(|argv|, AllNarrow(argv), AllNarrow(envp), AuxVector(p))
  }

  // A caller-checkable condition on one list: short enough for the limit, and no low byte is zero.
  ghost predicate Deliverable(strs: seq<seq<Wide>>, limit: nat) {
    forall i :: 0 <= i < |strs| ==> |strs[i]| <= limit && forall k :: 0 <= k < |strs[i]| ==> LowByte(strs[i][k]) != 0
  }

  // The strings arrive unchanged exactly when the list is deliverable.
  lemma AllReceivedWhole(strs: seq<seq<Wide>>, limit: nat)
    ensures AllReceived(strs, limit) == AllNarrow(strs) <==> Deliverable(strs, limit)
  {
    forall i | 0 <= i < |strs|
      ensures Received(strs[i], limit) == Narrow(strs[i])
         <==> |strs[i]| <= limit && forall k :: 0 <= k < |strs[i]| ==> LowByte(strs[i][k]) != 0
    {
      ReceivedWhole(strs[i], limit);
    }
    if AllReceived(strs, limit) == AllNarrow(strs) {
      forall i | 0 <= i < |strs| ensures Received(strs[i], limit) == Narrow(strs[i]) {
        assert AllReceived(strs, limit)[i] == AllNarrow(strs)[i];
      }
    }
  }

  // The new process reads exactly the strings it was given if and only if both lists are deliverable.
  lemma StartupExact(size: nat, p: Process, argv: seq<seq<Wide>>, envp: seq<seq<Wide>>)
    requires Fits(size, p, argv, envp)
    ensures EnvLimit(size, p, argv, envp) > 0 && ArgLimit(size, p, argv, envp) > 0
    ensures var argLimit, envLimit := ArgLimit(size, p, argv, envp), EnvLimit(size, p, argv, envp);
            Startup(|argv|, AllReceived(argv, argLimit), AllReceived(envp, envLimit), AuxVector(p))
            == AsGiven(p, argv, envp)
            <==> Deliverable(argv, argLimit) && Deliverable(envp, envLimit)
  {
    CountsExact(size, p, argv, envp);
    AllReceivedWhole(argv, ArgLimit(size, p, argv, envp));
    AllReceivedWhole(envp, EnvLimit(size, p, argv, envp));
  }

  // Fitting the stack is not enough: one argument of 120000 characters fits in 128 KiB and is cut short.
  lemma FittingArgumentIsCut(p: Process) returns (argv: seq<seq<Wide>>)
    ensures Fits(131072, p, argv, []) && ArgLimit(131072, p, argv, []) > 0
    ensures forall i, k :: 0 <= i < |argv| && 0 <= k < |argv[i]| ==> LowByte(argv[i][k]) != 0
    ensures AllReceived(argv, ArgLimit(131072, p, argv, [])) != AllNarrow(argv)
  {
    var a: seq<Wide> := seq(120000, _ => 97);
    argv := [a];
    assert argv[..0] == [];
    assert StringBytes(argv) == 120001;
    assert StringBytes([]) == 0;
    assert BlockBytes(argv, []) == 120016;
    assert 8 <= |AuxVector(p)| <= 9;
    assert |argv[0]| == 120000;
    AllReceivedWhole(argv, ArgLimit(131072, p, argv, []));
  }

  // Nor is the limit: the one-character argument U+0100 has a zero low byte and arrives empty.
  lemma ZeroLowByteIsCut(p: Process) returns (argv: seq<seq<Wide>>)
    ensures Fits(131072, p, argv, []) && ArgLimit(131072, p, argv, []) > 0
    ensures forall i :: 0 <= i < |argv| ==> |argv[i]| <= ArgLimit(131072, p, argv, [])
    ensures AllReceived(argv, ArgLimit(131072, p, argv, [])) != AllNarrow(argv)
  {
    var a: seq<Wide> := [0x0100];
    argv := [a];
    assert argv[..0] == [];
    assert StringBytes(argv) == 2;
    assert StringBytes([]) == 0;
    assert BlockBytes(argv, []) == 16;
    assert 8 <= |AuxVector(p)| <= 9;
    assert LowByte(argv[0][0]) == 0;
    AllReceivedWhole(argv, ArgLimit(131072, p, argv, []));
  }
}
