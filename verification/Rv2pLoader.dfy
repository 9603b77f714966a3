/**
 Loading the two RV2P processors: one pass that writes every instruction, a second that
 rewrites the instructions named by the fixup table.

 The device model: the two instruction registers hold the halves of an instruction, the
 high one five bits wide; writing a processor's address register with the read-write bit
 set stores them at the address in its low ten bits.
 */
module Rv2pLoader {
  import opened Machine
  import opened FirmwareFile

  const RV2P_COMMAND: U32 := 0x2800
  const INSTR_HIGH: U32 := 0x2830
  const INSTR_LOW: U32 := 0x2834
  const PROC1_ADDR_CMD: U32 := 0x2838
  const PROC2_ADDR_CMD: U32 := 0x283c
  const ADDR_CMD_RDWR: U32 := 0x8000_0000
  const COMMAND_PROC1_RESET: U32 := 0x1_0000
  const COMMAND_PROC2_RESET: U32 := 0x2_0000

  const INSTRUCTIONS := 0x400
  const HIGH_LIMIT := 0x20
  const FIXUP_COUNT := 8
  const BD_PAGE_SIZE := 1023

  datatype Processor = Proc1 | Proc2

  datatype Instr = Instr(high: U32, low: U32)

  /** A decoded table entry: where the code is and which of its words to fix up. */
  datatype Entry = Entry(offset: U32, length: U32, fixups: seq<U32>)

  /** Instructions the first pass writes; a trailing part of an instruction counts as one. */
  function InstrCount(length: U32): nat {
    (length + 7) / 8
  }

  /** The entry and its fixups stay inside the file. */
  ghost predicate Fits(file: File, e: Entry) {
    && |e.fixups| == FIXUP_COUNT
    && e.offset + 8 * InstrCount(e.length) <= |file|
    && forall i | 0 <= i < FIXUP_COUNT :: e.fixups[i] < 0x4000_0000
  }

  function Code(file: File, e: Entry): (ws: seq<U32>)
    requires Fits(file, e)
    ensures |ws| == 2 * InstrCount(e.length)
  {
    Words(file, e.offset, 2 * InstrCount(e.length))
  }

  /** The patch for fixup `index`: only index 0 changes anything. */
  function ProcessFixup(index: nat, code: U32): U32 {
    if index == 0 then code / TWO16 * TWO16 + BD_PAGE_SIZE else code
  }

  predicate Active(fixup: U32, length: U32) {
    fixup != 0 && Wrap32(fixup * 4) < length
  }

  function StoredInstr(high: U32, low: U32): Instr {
    Instr(high % HIGH_LIMIT, low)
  }

  /** Instruction memory after `n` instructions of the first pass. */
  function FirstPass(mem: seq<Instr>, code: seq<U32>, n: nat): (mem': seq<Instr>)
    requires |mem| == INSTRUCTIONS && 2 * n <= |code|
    ensures |mem'| == INSTRUCTIONS
  {
    if n == 0 then mem
    else FirstPass(mem, code, n - 1)[(n - 1) % INSTRUCTIONS := StoredInstr(code[2 * n - 2], code[2 * n - 1])]
  }

  /** Instruction memory after the first `k` fixups of the second pass. */
  function SecondPass(mem: seq<Instr>, code: seq<U32>, e: Entry, k: nat): (mem': seq<Instr>)
    requires |mem| == INSTRUCTIONS && k <= |e.fixups| && |code| == 2 * InstrCount(e.length)
    requires forall i | 0 <= i < |e.fixups| :: e.fixups[i] < 0x4000_0000
    ensures |mem'| == INSTRUCTIONS
  {
    if k == 0 then mem
    else
      var m, f := SecondPass(mem, code, e, k - 1), e.fixups[k - 1];
      if Active(f, e.length)
      then m[f / 2 % INSTRUCTIONS := StoredInstr(code[f - 1], ProcessFixup(k - 1, code[f]))]
      else m
  }

  function Loaded(mem: seq<Instr>, file: File, e: Entry): (mem': seq<Instr>)
    requires |mem| == INSTRUCTIONS && Fits(file, e)
    ensures |mem'| == INSTRUCTIONS
  {
    SecondPass(FirstPass(mem, Code(file, e), InstrCount(e.length)), Code(file, e), e, FIXUP_COUNT)
  }

  class Device {
    const mem1: array<Instr>
    const mem2: array<Instr>
    var instrHigh: U32
    var instrLow: U32
    var command: U32

    ghost predicate Valid()
      reads this
    {
      mem1 != mem2 && mem1.Length == INSTRUCTIONS && mem2.Length == INSTRUCTIONS
    }

    constructor (mem1: array<Instr>, mem2: array<Instr>)
      requires mem1 != mem2 && mem1.Length == INSTRUCTIONS && mem2.Length == INSTRUCTIONS
      ensures Valid() && this.mem1 == mem1 && this.mem2 == mem2
    {
      this.mem1, this.mem2 := mem1, mem2;
      instrHigh, instrLow, command := 0, 0, 0;
    }

    ghost function Memory(proc: Processor): (m: seq<Instr>)
      reads this, mem1, mem2
      requires Valid()
      ensures |m| == INSTRUCTIONS
    {
      if proc.Proc1? then mem1[..] else mem2[..]
    }

    method WriteReg32(offset: U32, value: U32)
      requires Valid()
      modifies this, mem1, mem2
      ensures Valid()
      ensures instrHigh == if offset == 0x2830 then value else old(instrHigh)
      ensures instrLow == if offset == 0x2834 then value else old(instrLow)
      ensures command == if offset == 0x2800 then value else old(command)
      ensures Memory(Proc1) == if offset == 0x2838 && value >= 0x8000_0000
                               then old(Memory(Proc1))[value % 1024 := StoredInstr(old(instrHigh), old(instrLow))]
                               else old(Memory(Proc1))
      ensures Memory(Proc2) == if offset == 0x283c && value >= 0x8000_0000
                               then old(Memory(Proc2))[value % 1024 := StoredInstr(old(instrHigh), old(instrLow))]
                               else old(Memory(Proc2))
    {
      if offset == INSTR_HIGH {
        instrHigh := value;
      } else if offset == INSTR_LOW {
        instrLow := value;
      } else if offset == RV2P_COMMAND {
        command := value;
      } else if offset == PROC1_ADDR_CMD && value >= ADDR_CMD_RDWR {
        mem1[value % INSTRUCTIONS] := StoredInstr(instrHigh, instrLow);
      } else if offset == PROC2_ADDR_CMD && value >= ADDR_CMD_RDWR {
        mem2[value % INSTRUCTIONS] := StoredInstr(instrHigh, instrLow);
      }
    }

    /** The three register writes that store one instruction. */
    method StoreInstr(proc: Processor, high: U32, low: U32, index: nat)
      requires Valid() && index < ADDR_CMD_RDWR
      modifies this, mem1, mem2
      ensures Valid() && command == old(command)
      ensures Memory(proc) == old(Memory(proc))[index % INSTRUCTIONS := StoredInstr(high, low)]
      ensures forall other: Processor | other != proc :: Memory(other) == old(Memory(other))
    {
      WriteReg32(INSTR_HIGH, high);
      WriteReg32(INSTR_LOW, low);
      AddressField(index);
      WriteReg32(if proc.Proc1? then PROC1_ADDR_CMD else PROC2_ADDR_CMD, index + ADDR_CMD_RDWR);
    }

    /** The pass that writes every instruction. */
    method WriteImage(proc: Processor, file: File, e: Entry)
      requires Valid() && Fits(file, e)
      modifies this, mem1, mem2
      ensures Valid() && command == old(command)
      ensures Memory(proc) == FirstPass(old(Memory(proc)), Code(file, e), InstrCount(e.length))
      ensures forall other: Processor | other != proc :: Memory(other) == old(Memory(other))
    {
      hide StoredInstr, BigEndian, Code, Words;
      ghost var code := Code(file, e);
      ghost var n := 0;
      var codePtr := e.offset;
      var i := 0;
      while i < e.length
        invariant Valid() && command == old(command)
        invariant i == 8 * n && n <= InstrCount(e.length) && codePtr == e.offset + i
        invariant Memory(proc) == FirstPass(old(Memory(proc)), code, n)
        invariant forall other: Processor | other != proc :: Memory(other) == old(Memory(other))
        decreases e.length - i
      {
        CodeWords(file, e, n);
        assert i / 8 == n;
        var high := BigEndian(file, codePtr);
        codePtr := codePtr + 4;
        var low := BigEndian(file, codePtr);
        codePtr := codePtr + 4;
        StoreInstr(proc, high, low, i / 8);
        i := i + 8;
        n := n + 1;
      }
    }

    /** The pass that rewrites the instructions named by the fixup table. */
    method ApplyFixups(proc: Processor, file: File, e: Entry)
      requires Valid() && Fits(file, e)
      modifies this, mem1, mem2
      ensures Valid() && command == old(command)
      ensures Memory(proc) == SecondPass(old(Memory(proc)), Code(file, e), e, FIXUP_COUNT)
      ensures forall other: Processor | other != proc :: Memory(other) == old(Memory(other))
    {
      hide StoredInstr, BigEndian, ProcessFixup;
      for k := 0 to FIXUP_COUNT
        invariant Valid() && command == old(command)
        invariant Memory(proc) == SecondPass(old(Memory(proc)), Code(file, e), e, k)
        invariant forall other: Processor | other != proc :: Memory(other) == old(Memory(other))
      {
        var fixup := e.fixups[k];
        if fixup != 0 && Wrap32(fixup * 4) < e.length {
          FixupWords(file, e, fixup);
          var high := BigEndian(file, e.offset + 4 * (fixup - 1));
          var low := ProcessFixup(k, BigEndian(file, e.offset + 4 * fixup));
          StoreInstr(proc, high, low, fixup / 2);
        }
      }
    }

    /** Both passes and the start of the processor; the other processor is untouched. */
    method LoadRv2pFirmware(proc: Processor, file: File, e: Entry)
      requires Valid() && Fits(file, e)
      modifies this, mem1, mem2
      ensures Valid()
      ensures Memory(proc) == Loaded(old(Memory(proc)), file, e)
      ensures forall other: Processor | other != proc :: Memory(other) == old(Memory(other))
      ensures command == if proc.Proc1? then 0x1_0000 else 0x2_0000
    {
      WriteImage(proc, file, e);
      ApplyFixups(proc, file, e);
      WriteReg32(RV2P_COMMAND, if proc.Proc1? then COMMAND_PROC1_RESET else COMMAND_PROC2_RESET);
    }
  }

  lemma FixupWords(file: File, e: Entry, f: U32)
    requires Fits(file, e) && Active(f, e.length) && f < 0x4000_0000
    ensures 4 * f < e.length && f < |Code(file, e)| && f / 2 < ADDR_CMD_RDWR
    ensures Code(file, e)[f - 1] == BigEndian(file, e.offset + 4 * (f - 1))
    ensures Code(file, e)[f] == BigEndian(file, e.offset + 4 * f)
  {
  }

  lemma AddressField(index: nat)
    requires index < ADDR_CMD_RDWR
    ensures (index + ADDR_CMD_RDWR) % INSTRUCTIONS == index % INSTRUCTIONS
  {
  }

  lemma CodeWords(file: File, e: Entry, n: nat)
    requires Fits(file, e) && 8 * n < e.length
    ensures n < InstrCount(e.length) && n < ADDR_CMD_RDWR
    ensures Code(file, e)[2 * n] == BigEndian(file, e.offset + 8 * n)
    ensures Code(file, e)[2 * n + 1] == BigEndian(file, e.offset + 8 * n + 4)
  {
  }

  // ----- What is in instruction memory afterwards -----

  /** The instruction the file holds at position `n`. */
  function FileInstr(code: seq<U32>, n: nat): Instr
    requires 2 * n + 1 < |code|
  {
    StoredInstr(code[2 * n], code[2 * n + 1])
  }

  /** The last of the first `n` instructions that the first pass writes at position `i`. */
  function LastCopy(n: nat, i: nat): (l: nat)
    requires i < INSTRUCTIONS && i < n
    ensures l < n <= l + INSTRUCTIONS && l % INSTRUCTIONS == i
  {
    i + (n - 1 - i) / INSTRUCTIONS * INSTRUCTIONS
  }

  lemma {:induction false} FirstPassAt(mem: seq<Instr>, code: seq<U32>, n: nat, i: nat)
    requires |mem| == INSTRUCTIONS && 2 * n <= |code| && i < INSTRUCTIONS
    ensures FirstPass(mem, code, n)[i] == if i < n then FileInstr(code, LastCopy(n, i)) else mem[i]
  {
    if n != 0 {
      hide LastCopy;
      FirstPassAt(mem, code, n - 1, i);
      if i < n {
        LastCopyStep(n, i);
      } else {
        assert (n - 1) % INSTRUCTIONS == n - 1;
      }
    }
  }

  lemma LastCopyStep(n: nat, i: nat)
    requires i < INSTRUCTIONS && i < n
    ensures LastCopy(n, i) == if (n - 1) % INSTRUCTIONS == i then n - 1 else if i < n - 1 then LastCopy(n - 1, i) else i
    ensures i < n - 1 || (n - 1) % INSTRUCTIONS == i
  {
  }

  /** Fixup `j` takes effect and names instruction `i`. */
  predicate Names(e: Entry, j: nat, i: nat)
    requires j < |e.fixups|
  {
    Active(e.fixups[j], e.length) && e.fixups[j] / 2 % INSTRUCTIONS == i
  }

  /** The last of the first `k` fixups that names instruction `i`. */
  function LastNaming(e: Entry, i: nat, k: nat): (last: Option<nat>)
    requires k <= |e.fixups|
    ensures last.Some? ==> last.value < k && Names(e, last.value, i)
    ensures forall j | (if last.Some? then last.value + 1 else 0) <= j < k :: !Names(e, j, i)
  {
    if k == 0 then None
    else if Names(e, k - 1, i) then Some(k - 1)
    else LastNaming(e, i, k - 1)
  }

  /** What fixup `j` stores. */
  function FixedInstr(code: seq<U32>, e: Entry, j: nat): Instr
    requires j < |e.fixups| && 0 < e.fixups[j] < |code|
  {
    StoredInstr(code[e.fixups[j] - 1], ProcessFixup(j, code[e.fixups[j]]))
  }

  lemma ActiveInCode(e: Entry, j: nat)
    requires j < |e.fixups| && e.fixups[j] < 0x4000_0000 && Active(e.fixups[j], e.length)
    ensures 0 < e.fixups[j] < 2 * InstrCount(e.length) && e.fixups[j] / 2 < InstrCount(e.length)
  {
  }

  /** An instruction is decided by the last active fixup that names it, and by the first pass if none does. */
  lemma {:induction false} SecondPassAt(mem: seq<Instr>, code: seq<U32>, e: Entry, k: nat, i: nat)
    requires |mem| == INSTRUCTIONS && k <= |e.fixups| && |code| == 2 * InstrCount(e.length) && i < INSTRUCTIONS
    requires forall j | 0 <= j < |e.fixups| :: e.fixups[j] < 0x4000_0000
    ensures var last := LastNaming(e, i, k);
            match last
            case None => SecondPass(mem, code, e, k)[i] == mem[i]
            case Some(j) => 0 < e.fixups[j] < |code| && SecondPass(mem, code, e, k)[i] == FixedInstr(code, e, j)
  {
    if k != 0 {
      SecondPassAt(mem, code, e, k - 1, i);
      if Active(e.fixups[k - 1], e.length) {
        ActiveInCode(e, k - 1);
      }
    }
  }

  /**
   What both passes leave in every place of instruction memory, for every table and every
   length: the instruction stored by the last active fixup that names the place, otherwise
   the last instruction of the image written there, otherwise what was there before.
   */
  lemma LoadedImage(mem: seq<Instr>, file: File, e: Entry, i: nat)
    requires |mem| == INSTRUCTIONS && Fits(file, e) && i < INSTRUCTIONS
    ensures var code, n := Code(file, e), InstrCount(e.length);
            match LastNaming(e, i, FIXUP_COUNT)
            case Some(j) => 0 < e.fixups[j] < |code| && Loaded(mem, file, e)[i] == FixedInstr(code, e, j)
            case None => Loaded(mem, file, e)[i] == if i < n then FileInstr(code, LastCopy(n, i)) else mem[i]
  {
    hide Code, FixedInstr, FileInstr, LastCopy, LastNaming, FirstPass, SecondPass;
    var code, n := Code(file, e), InstrCount(e.length);
    FirstPassAt(mem, code, n, i);
    SecondPassAt(FirstPass(mem, code, n), code, e, FIXUP_COUNT, i);
  }

  /** Fixup `j` is not zero, lies within the image and names place `i`. */
  ghost predicate Rewrites(e: Entry, j: nat, i: nat)
    requires j < |e.fixups|
  {
    e.fixups[j] != 0 && 4 * e.fixups[j] < e.length && e.fixups[j] / 2 % 1024 == i
  }

  /**
   The same byte by byte. The last fixup that rewrites a place takes the word before the one it
   names as the high half, of which five bits are kept, and the named word as the low half, in
   which fixup 0 puts 1023 into the low 16 bits. A place no fixup rewrites holds the last eight
   bytes of the image that fall on it, and one the image does not reach is unchanged.
   */
  lemma LoadedBytes(mem: seq<Instr>, file: File, e: Entry, i: nat) returns (l: nat)
    requires |mem| == 1024 && Fits(file, e) && i < 1024
    ensures forall j | 0 <= j < 8 && Rewrites(e, j, i) && forall k | j < k < 8 :: !Rewrites(e, k, i) ::
              var instr, at := Loaded(mem, file, e)[i], e.offset + 4 * e.fixups[j];
              && at + 4 <= |file| && instr.high == file[at - 1] % 0x20
              && (if j == 0 then instr.low / 0x100_0000 == file[at] && instr.low / 0x1_0000 % 0x100 == file[at + 1]
                                 && instr.low % 0x1_0000 == 1023
                  else HasBytes(instr.low, file, at))
    ensures (forall j | 0 <= j < 8 :: !Rewrites(e, j, i)) ==>
              var instr := Loaded(mem, file, e)[i];
              if 8 * i < e.length then
                && l % 1024 == i && 8 * l < e.length <= 8 * (l + 1024)
                && e.offset + 8 * l + 8 <= |file|
                && instr.high == file[e.offset + 8 * l + 3] % 0x20 && HasBytes(instr.low, file, e.offset + 8 * l + 4)
              else instr == mem[i]
  {
    hide Code, FixedInstr, FileInstr, LastCopy, Loaded, BigEndian, HasBytes;
    LoadedImage(mem, file, e, i);
    forall j | 0 <= j < 8
      ensures Rewrites(e, j, i) <==> Names(e, j, i)
    {
    }
    var last := LastNaming(e, i, FIXUP_COUNT);
    l := 0;
    match last
    case Some(j) => FixedBytes(file, e, j);
    case None =>
      if i < InstrCount(e.length) {
        l := LastCopy(InstrCount(e.length), i);
        ImageBytes(file, e, l);
      }
  }

  lemma ImageBytes(file: File, e: Entry, n: nat)
    requires Fits(file, e) && n < InstrCount(e.length)
    ensures 8 * n < e.length && e.offset + 8 * n + 8 <= |file|
    ensures var instr := FileInstr(Code(file, e), n);
            instr.high == file[e.offset + 8 * n + 3] % 0x20 && HasBytes(instr.low, file, e.offset + 8 * n + 4)
  {
    hide BigEndian;
    CodeWords(file, e, n);
    BytesOfWord(file, e.offset + 8 * n);
    BytesOfWord(file, e.offset + 8 * n + 4);
    LowBits(Code(file, e)[2 * n]);
  }

  lemma FixedBytes(file: File, e: Entry, j: nat)
    requires Fits(file, e) && j < FIXUP_COUNT && Active(e.fixups[j], e.length)
    ensures 0 < e.fixups[j] < |Code(file, e)|
    ensures var instr, at := FixedInstr(Code(file, e), e, j), e.offset + 4 * e.fixups[j];
            && at + 4 <= |file| && instr.high == file[at - 1] % 0x20
            && (if j == 0 then instr.low / 0x100_0000 == file[at] && instr.low / 0x1_0000 % 0x100 == file[at + 1]
                               && instr.low % 0x1_0000 == 1023
                else HasBytes(instr.low, file, at))
  {
    hide BigEndian, Code;
    var at := e.offset + 4 * e.fixups[j];
    FixupWords(file, e, e.fixups[j]);
    BytesOfWord(file, at - 4);
    BytesOfWord(file, at);
    LowBits(Code(file, e)[e.fixups[j] - 1]);
    PatchedHalves(Code(file, e)[e.fixups[j]]);
    UpperBytes(Code(file, e)[e.fixups[j]]);
    UpperBytes(ProcessFixup(0, Code(file, e)[e.fixups[j]]));
  }

  lemma LowBits(word: U32)
    ensures word % HIGH_LIMIT == word % 0x100 % 0x20
  {
  }

  lemma UpperBytes(word: U32)
    ensures word / 0x100_0000 == word / 0x1_0000 / 0x100
  {
  }

  /**
   The page size is in the low half of the instruction fixup 0 names if and only if no later
   active fixup names that instruction or the word of the last that does already has it.
   */
  lemma PatchSurvivesIff(mem: seq<Instr>, file: File, e: Entry)
    requires |mem| == INSTRUCTIONS && Fits(file, e) && Active(e.fixups[0], e.length)
    ensures var i := e.fixups[0] / 2 % INSTRUCTIONS; var last := LastNaming(e, i, FIXUP_COUNT);
            && last.Some? && e.fixups[last.value] < |Code(file, e)|
            && var word := Code(file, e)[e.fixups[last.value]];
               && Loaded(mem, file, e)[i].low / TWO16 == word / TWO16
               && (Loaded(mem, file, e)[i].low % TWO16 == BD_PAGE_SIZE <==>
                     word % TWO16 == BD_PAGE_SIZE || forall j | 0 < j < FIXUP_COUNT :: !Names(e, j, i))
  {
    hide Code, LastNaming, FirstPass, SecondPass, Loaded, ProcessFixup;
    var i := e.fixups[0] / 2 % INSTRUCTIONS;
    assert Names(e, 0, i);
    LoadedImage(mem, file, e, i);
    var j := LastNaming(e, i, FIXUP_COUNT).value;
    PatchedHalves(Code(file, e)[e.fixups[j]]);
    LaterFixup(j, Code(file, e)[e.fixups[j]]);
  }

  lemma LaterFixup(j: nat, word: U32)
    ensures j != 0 ==> ProcessFixup(j, word) == word
  {
  }

  lemma PatchedHalves(word: U32)
    ensures ProcessFixup(0, word) / TWO16 == word / TWO16 && ProcessFixup(0, word) % TWO16 == BD_PAGE_SIZE
  {
  }

  // ----- When the image is loaded as intended -----

  /** The image with the page size patched into the word fixup 0 names. */
  function PatchedCode(code: seq<U32>, e: Entry): (code': seq<U32>)
    requires |e.fixups| == FIXUP_COUNT
    ensures |code'| == |code|
  {
    var f := e.fixups[0];
    if Active(f, e.length) && f < |code| then code[f := ProcessFixup(0, code[f])] else code
  }

  /** Instruction memory holds the patched image and, beyond it, what it held before. */
  ghost predicate HoldsImage(mem': seq<Instr>, mem: seq<Instr>, code: seq<U32>, e: Entry)
    requires |mem| == |mem'| == INSTRUCTIONS && |code| == 2 * InstrCount(e.length) && |e.fixups| == FIXUP_COUNT
  {
    forall i | 0 <= i < INSTRUCTIONS ::
      mem'[i] == if i < InstrCount(e.length) then FileInstr(PatchedCode(code, e), i) else mem[i]
  }

  /**
   Fixup `j` may be the last to name its instruction. With an odd word it rewrites that
   instruction from the file, which is wrong only over the patch of fixup 0 and only if the
   patch changed something. With an even word it stores halves of two instructions, which is
   right only if the file happens to repeat them.
   */
  predicate Harmless(code: seq<U32>, e: Entry, j: nat)
    requires |e.fixups| == FIXUP_COUNT && j < FIXUP_COUNT && |code| % 2 == 0 && 0 < e.fixups[j] < |code|
  {
    var f, f0 := e.fixups[j], e.fixups[0];
    if f % 2 == 1 then
      j == 0 || !Active(f0, e.length) || f0 / 2 != f / 2
      || (if f0 == f then code[f] % TWO16 == BD_PAGE_SIZE else code[f - 1] % HIGH_LIMIT == BD_PAGE_SIZE % HIGH_LIMIT)
    else
      && code[f - 1] % HIGH_LIMIT == PatchedCode(code, e)[f] % HIGH_LIMIT
      && ProcessFixup(j, code[f]) == PatchedCode(code, e)[f + 1]
  }

  lemma PatchNoOp(word: U32)
    ensures ProcessFixup(0, word) == word <==> word % TWO16 == BD_PAGE_SIZE
    ensures ProcessFixup(0, word) % HIGH_LIMIT == BD_PAGE_SIZE % HIGH_LIMIT
  {
  }

  /** A fixup stores the patched image's instruction exactly when it is harmless. */
  lemma HarmlessIff(code: seq<U32>, e: Entry, j: nat)
    requires |e.fixups| == FIXUP_COUNT && j < FIXUP_COUNT && |code| % 2 == 0 && 0 < e.fixups[j] < |code|
    requires Active(e.fixups[j], e.length)
    ensures FixedInstr(code, e, j) == FileInstr(PatchedCode(code, e), e.fixups[j] / 2) <==> Harmless(code, e, j)
  {
    hide ProcessFixup, Active;
    var f := e.fixups[j];
    PatchNoOp(code[f]);
    PatchNoOp(code[f - 1]);
    LaterFixup(j, code[f]);
    assert f == 2 * (f / 2) + f % 2;
  }

  /** Without a fixup that names it, an instruction of the image is not patched either. */
  lemma UnnamedUnpatched(code: seq<U32>, e: Entry, i: nat)
    requires |e.fixups| == FIXUP_COUNT && i < INSTRUCTIONS && 2 * i + 1 < |code| && !Names(e, 0, i)
    ensures FileInstr(PatchedCode(code, e), i) == FileInstr(code, i)
  {
    hide ProcessFixup, Active;
  }

  /**
   For every table and every image that instruction memory can hold: both passes leave the
   patched image there if and only if each fixup that is the last to name its instruction is
   harmless.
   */
  lemma ImageLoadedIff(mem: seq<Instr>, file: File, e: Entry)
    requires |mem| == INSTRUCTIONS && Fits(file, e) && e.length <= 8 * INSTRUCTIONS
    ensures forall j | 0 <= j < FIXUP_COUNT && Active(e.fixups[j], e.length) :: 0 < e.fixups[j] < |Code(file, e)|
    ensures HoldsImage(Loaded(mem, file, e), mem, Code(file, e), e) <==>
            forall j | 0 <= j < FIXUP_COUNT && Active(e.fixups[j], e.length) && LastNaming(e, e.fixups[j] / 2, FIXUP_COUNT) == Some(j) ::
              Harmless(Code(file, e), e, j)
  {
    hide Code, Loaded, FixedInstr, FileInstr, LastCopy, Active, Harmless, PatchedCode;
    var code, n, mem' := Code(file, e), InstrCount(e.length), Loaded(mem, file, e);
    assert n <= INSTRUCTIONS;
    forall j | 0 <= j < FIXUP_COUNT && Active(e.fixups[j], e.length)
      ensures 0 < e.fixups[j] < |code| && e.fixups[j] / 2 < n
      ensures LastNaming(e, e.fixups[j] / 2, FIXUP_COUNT) == Some(j) ==>
              (mem'[e.fixups[j] / 2] == FileInstr(PatchedCode(code, e), e.fixups[j] / 2) <==> Harmless(code, e, j))
    {
      ActiveInCode(e, j);
      LoadedImage(mem, file, e, e.fixups[j] / 2);
      HarmlessIff(code, e, j);
    }
    forall i | 0 <= i < INSTRUCTIONS
      ensures match LastNaming(e, i, FIXUP_COUNT)
              case Some(j) => e.fixups[j] / 2 == i
              case None => mem'[i] == if i < n then FileInstr(PatchedCode(code, e), i) else mem[i]
    {
      LoadedImage(mem, file, e, i);
      match LastNaming(e, i, FIXUP_COUNT)
      case Some(j) => ActiveInCode(e, j);
      case None =>
        if i < n {
          OnlyCopy(n, i);
          UnnamedUnpatched(code, e, i);
        }
    }
  }

  lemma OnlyCopy(n: nat, i: nat)
    requires i < n <= INSTRUCTIONS
    ensures LastCopy(n, i) == i
  {
  }

  /**
   With odd fixups only, as a table that names the low words of instructions has them, the
   patched image is loaded if and only if there is no patch, no later fixup repeats fixup 0,
   or the file already has the page size there.
   */
  lemma OddTableLoadedIff(mem: seq<Instr>, file: File, e: Entry)
    requires |mem| == INSTRUCTIONS && Fits(file, e) && e.length <= 8 * INSTRUCTIONS
    requires forall j | 0 <= j < FIXUP_COUNT && Active(e.fixups[j], e.length) :: e.fixups[j] % 2 == 1
    ensures var f := e.fixups[0];
            HoldsImage(Loaded(mem, file, e), mem, Code(file, e), e) <==>
            || !Active(f, e.length)
            || (f < |Code(file, e)| && Code(file, e)[f] % TWO16 == BD_PAGE_SIZE)
            || (forall j | 0 < j < FIXUP_COUNT :: e.fixups[j] != f)
  {
    hide Code, Loaded, LastNaming, HoldsImage, Active, PatchedCode;
    ImageLoadedIff(mem, file, e);
    var f := e.fixups[0];
    if Active(f, e.length) {
      ActiveInCode(e, 0);
      if j: nat :| 0 < j < FIXUP_COUNT && e.fixups[j] == f {
        assert Names(e, j, f / 2);
        var last := LastNaming(e, f / 2, FIXUP_COUNT).value;
        ActiveInCode(e, last);
        SameOddWord(e.fixups[last], f);
      }
    }
  }

  lemma SameOddWord(f: nat, g: nat)
    requires f % 2 == 1 && g % 2 == 1 && f / 2 == g / 2
    ensures f == g
  {
  }

  /** An even fixup stores halves of two neighbouring instructions: its parity matters. */
  lemma EvenFixupCorrupts(mem: seq<Instr>, code: seq<U32>)
    requires |mem| == INSTRUCTIONS && |code| == 4 && code[1] % HIGH_LIMIT != code[2] % HIGH_LIMIT
    ensures var e := Entry(0, 16, [0, 2, 0, 0, 0, 0, 0, 0]);
            SecondPass(FirstPass(mem, code, 2), code, e, FIXUP_COUNT)[1].high == code[1] % HIGH_LIMIT != FileInstr(code, 1).high
  {
    var e := Entry(0, 16, [0, 2, 0, 0, 0, 0, 0, 0]);
    var m := FirstPass(mem, code, 2);
    SecondPassSkips(m, code, e, 2);
  }

  /** Zero fixups change nothing. */
  lemma {:induction false} SecondPassSkips(mem: seq<Instr>, code: seq<U32>, e: Entry, k: nat)
    requires |mem| == INSTRUCTIONS && |code| == 2 * InstrCount(e.length) && k <= |e.fixups|
    requires forall i | 0 <= i < |e.fixups| :: e.fixups[i] < 0x4000_0000
    requires forall i | k <= i < |e.fixups| :: e.fixups[i] == 0
    ensures SecondPass(mem, code, e, |e.fixups|) == SecondPass(mem, code, e, k)
    decreases |e.fixups| - k
  {
    if k < |e.fixups| {
      SecondPassSkips(mem, code, e, k + 1);
    }
  }
}
