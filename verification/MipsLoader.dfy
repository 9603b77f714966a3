/**
 Loading and starting one of the five MIPS processors: halt it, copy three sections into its
 scratchpad through the indirect register window, set the start address, and release it.

 The device model: the indirect window addresses 32-bit registers that keep what was last
 written; `log` records the writes in order.
 */
module MipsLoader {
  import opened Machine
  import opened FirmwareFile

  const HALT := 0x400
  const STATE_CLEAR: U32 := 0xFF_FFFF
  const MIPS_VIEW_BASE: U32 := 0x800_0000

  /** The registers of one processor and the base of its scratchpad. */
  datatype Cpu = Cpu(mode: U32, state: U32, pc: U32, inst: U32, spadBase: U32)

  const RXP := Cpu(0xc5000, 0xc5004, 0xc501c, 0xc5020, 0xe0000)
  const TXP := Cpu(0x45000, 0x45004, 0x4501c, 0x45020, 0x60000)
  const TPAT := Cpu(0x85000, 0x85004, 0x8501c, 0x85020, 0xa0000)
  const COM := Cpu(0x105000, 0x105004, 0x10501c, 0x105020, 0x120000)
  const CP := Cpu(0x185000, 0x185004, 0x18501c, 0x185020, 0x1a0000)

  datatype Section = Section(address: U32, length: U32, offset: U32)
  datatype Entry = Entry(start: U32, text: Section, data: Section, roData: Section)

  datatype Write = Write(offset: U32, value: U32)

  /** Register contents; a register never written reads as zero. */
  type Regs = map<U32, U32>

  function Read(m: Regs, a: U32): U32 {
    if a in m then m[a] else 0
  }

  function Apply(m: Regs, ws: seq<Write>): Regs {
    if ws == [] then m else Apply(m, ws[..|ws| - 1])[ws[|ws| - 1].offset := ws[|ws| - 1].value]
  }

  predicate Halted(mode: U32) {
    mode / HALT % 2 == 1
  }

  function SetHalt(mode: U32): U32 {
    if Halted(mode) then mode else mode + HALT
  }

  function ClearHalt(mode: U32): U32 {
    if Halted(mode) then mode - HALT else mode
  }

  ghost predicate SectionFits(file: File, s: Section) {
    s.offset + s.length <= |file|
  }

  ghost predicate Fits(file: File, e: Entry) {
    SectionFits(file, e.text) && SectionFits(file, e.data) && SectionFits(file, e.roData)
  }

  /** Where a section starts in the register window. */
  function Base(cpu: Cpu, s: Section): U32 {
    Wrap32(cpu.spadBase + Wrap32(s.address - MIPS_VIEW_BASE))
  }

  /** Where word `i` of a section goes. */
  function WordAddress(cpu: Cpu, s: Section, i: nat): U32 {
    Wrap32(Base(cpu, s) + 4 * i)
  }

  function WordCount(s: Section): nat {
    s.length / 4
  }

  function SectionWord(file: File, s: Section, i: nat): U32
    requires SectionFits(file, s) && i < WordCount(s)
  {
    BigEndian(file, s.offset + 4 * i)
  }

  function SectionWrites(cpu: Cpu, file: File, s: Section): (ws: seq<Write>)
    requires SectionFits(file, s)
    ensures |ws| == WordCount(s)
  {
    seq(WordCount(s), i requires 0 <= i < WordCount(s) => Write(WordAddress(cpu, s, i), SectionWord(file, s, i)))
  }

  function StopWrites(cpu: Cpu, mode: U32): seq<Write> {
    [Write(cpu.mode, SetHalt(mode)), Write(cpu.state, STATE_CLEAR)]
  }

  function CopyWrites(cpu: Cpu, file: File, e: Entry): seq<Write>
    requires Fits(file, e)
  {
    SectionWrites(cpu, file, e.text) + SectionWrites(cpu, file, e.data) + SectionWrites(cpu, file, e.roData)
    + [Write(cpu.inst, 0), Write(cpu.pc, e.start)]
  }

  function StartWrites(cpu: Cpu, mode: U32): seq<Write> {
    [Write(cpu.state, STATE_CLEAR), Write(cpu.mode, ClearHalt(mode))]
  }

  /** Everything one processor's initialisation writes, from register contents `m`. */
  function InitWrites(cpu: Cpu, file: File, e: Entry, m: Regs): seq<Write>
    requires Fits(file, e)
  {
    var loaded := StopWrites(cpu, Read(m, cpu.mode)) + CopyWrites(cpu, file, e);
    loaded + StartWrites(cpu, Read(Apply(m, loaded), cpu.mode))
  }

  class Device {
    var regs: Regs
    var log: seq<Write>

    constructor (regs: Regs)
      ensures this.regs == regs && log == []
    {
      this.regs, log := regs, [];
    }

    method WriteRegIndr32(offset: U32, value: U32)
      modifies this
      ensures log == old(log) + [Write(offset, value)] && regs == old(regs)[offset := value]
    {
      log := log + [Write(offset, value)];
      regs := regs[offset := value];
    }

    method StopCpu(cpu: Cpu)
      modifies this
      ensures log == old(log) + StopWrites(cpu, Read(old(regs), cpu.mode))
      ensures regs == Apply(old(regs), StopWrites(cpu, Read(old(regs), cpu.mode)))
    {
      var reg := SetHalt(Read(regs, cpu.mode));
      ApplyTwo(regs, Write(cpu.mode, reg), Write(cpu.state, STATE_CLEAR));
      WriteRegIndr32(cpu.mode, reg);
      WriteRegIndr32(cpu.state, STATE_CLEAR);
    }

    method StartCpu(cpu: Cpu)
      modifies this
      ensures log == old(log) + StartWrites(cpu, Read(old(regs), cpu.mode))
      ensures regs == Apply(old(regs), StartWrites(cpu, Read(old(regs), cpu.mode)))
    {
      var reg := ClearHalt(Read(regs, cpu.mode));
      ApplyTwo(regs, Write(cpu.state, STATE_CLEAR), Write(cpu.mode, reg));
      WriteRegIndr32(cpu.state, STATE_CLEAR);
      WriteRegIndr32(cpu.mode, reg);
    }

    method LoadSection(cpu: Cpu, file: File, s: Section)
      requires SectionFits(file, s)
      modifies this
      ensures log == old(log) + SectionWrites(cpu, file, s)
      ensures regs == Apply(old(regs), SectionWrites(cpu, file, s))
    {
      hide Apply, WordAddress, Base, Wrap32, BigEndian;
      NextAddress(cpu, s, 0);
      ghost var ws := SectionWrites(cpu, file, s);
      ApplyNone(regs);
      assert ws[..0] == [];
      var offset := Base(cpu, s);
      if s.length != 0 {
        for i := 0 to s.length / 4
          invariant offset == WordAddress(cpu, s, i)
          invariant log == old(log) + ws[..i] && regs == Apply(old(regs), ws[..i])
        {
          assert ws[i] == Write(offset, SectionWord(file, s, i));
          WriteRegIndr32(offset, BigEndian(file, s.offset + 4 * i));
          NextAddress(cpu, s, i);
          offset := Wrap32(offset as int + 4);
          assert ws[..i + 1] == ws[..i] + [ws[i]];
          ApplySnoc(old(regs), ws[..i], ws[i]);
        }
      }
      assert ws[..|ws|] == ws;
    }

    /** The processor is stopped, its sections copied, its start address set. */
    method LoadCpuFirmware(cpu: Cpu, file: File, e: Entry)
      requires Fits(file, e)
      modifies this
      ensures var ws := StopWrites(cpu, Read(old(regs), cpu.mode)) + CopyWrites(cpu, file, e);
              log == old(log) + ws && regs == Apply(old(regs), ws)
    {
      hide SectionWrites, StopWrites, Apply;
      ghost var stop := StopWrites(cpu, Read(regs, cpu.mode));
      ghost var text, data, ro := SectionWrites(cpu, file, e.text), SectionWrites(cpu, file, e.data), SectionWrites(cpu, file, e.roData);
      StopCpu(cpu);
      LoadSection(cpu, file, e.text);
      ApplyConcat(old(regs), stop, text);
      LoadSection(cpu, file, e.data);
      ApplyConcat(old(regs), stop + text, data);
      LoadSection(cpu, file, e.roData);
      ApplyConcat(old(regs), stop + text + data, ro);
      ApplyTwo(regs, Write(cpu.inst, 0), Write(cpu.pc, e.start));
      WriteRegIndr32(cpu.inst, 0);
      WriteRegIndr32(cpu.pc, e.start);
      ApplyConcat(old(regs), stop + text + data + ro, [Write(cpu.inst, 0), Write(cpu.pc, e.start)]);
      assert stop + CopyWrites(cpu, file, e) == stop + text + data + ro + [Write(cpu.inst, 0), Write(cpu.pc, e.start)];
    }

    method InitCpu(cpu: Cpu, file: File, e: Entry)
      requires Fits(file, e)
      modifies this
      ensures log == old(log) + InitWrites(cpu, file, e, old(regs))
      ensures regs == Apply(old(regs), InitWrites(cpu, file, e, old(regs)))
    {
      hide StopWrites, CopyWrites, StartWrites, Apply;
      LoadCpuFirmware(cpu, file, e);
      ghost var mode := Read(regs, cpu.mode);
      ApplyConcat(old(regs), StopWrites(cpu, Read(regs, cpu.mode)) + CopyWrites(cpu, file, e), StartWrites(cpu, mode));
      ApplyConcat(old(regs), StopWrites(cpu, Read(old(regs), cpu.mode)) + CopyWrites(cpu, file, e), StartWrites(cpu, mode));
      StartCpu(cpu);
    }
  }

  lemma NextAddress(cpu: Cpu, s: Section, i: nat)
    ensures WordAddress(cpu, s, i + 1) == Wrap32(WordAddress(cpu, s, i) as int + 4)
    ensures WordAddress(cpu, s, 0) == Base(cpu, s)
  {
    var base: int := Base(cpu, s);
    Wrap32Absorbs(base + 4 * i, 4);
  }

  // ----- Folding writes -----

  lemma ApplyNone(m: Regs)
    ensures Apply(m, []) == m
  {
  }

  lemma ApplySnoc(m: Regs, ws: seq<Write>, w: Write)
    ensures Apply(m, ws + [w]) == Apply(m, ws)[w.offset := w.value]
  {
    assert (ws + [w])[..|ws|] == ws;
  }

  lemma ApplyTwo(m: Regs, a: Write, b: Write)
    ensures Apply(m, [a, b]) == m[a.offset := a.value][b.offset := b.value]
  {
    assert [a, b] == [a] + [b] && [a] == [] + [a];
    ApplySnoc(m, [a], b);
    ApplySnoc(m, [], a);
  }

  lemma {:induction false} ApplyConcat(m: Regs, a: seq<Write>, b: seq<Write>)
    ensures Apply(m, a + b) == Apply(Apply(m, a), b)
  {
    if b == [] {
      assert a + b == a;
    } else {
      var init, w := b[..|b| - 1], b[|b| - 1];
      assert a + b == (a + init) + [w];
      ApplyConcat(m, a, init);
      ApplySnoc(m, a + init, w);
    }
  }

  /** A register no write names keeps its value. */
  lemma {:induction false} ApplyFrame(m: Regs, ws: seq<Write>, a: U32)
    requires forall i | 0 <= i < |ws| :: ws[i].offset != a
    ensures Read(Apply(m, ws), a) == Read(m, a)
  {
    if ws != [] {
      ApplyFrame(m, ws[..|ws| - 1], a);
    }
  }

  /** A register named by exactly one write holds that write's value. */
  lemma {:induction false} ApplyAt(m: Regs, ws: seq<Write>, k: nat)
    requires k < |ws| && forall i | k < i < |ws| :: ws[i].offset != ws[k].offset
    ensures Read(Apply(m, ws), ws[k].offset) == ws[k].value
  {
    if k < |ws| - 1 {
      ApplyAt(m, ws[..|ws| - 1], k);
    }
  }

  // ----- Main results -----

  predicate InSection(cpu: Cpu, s: Section, a: U32) {
    exists i | 0 <= i < WordCount(s) :: WordAddress(cpu, s, i) == a
  }

  function Control(cpu: Cpu): set<U32> {
    {cpu.mode, cpu.state, cpu.pc, cpu.inst}
  }

  predicate DistinctControl(cpu: Cpu) {
    && cpu.mode != cpu.state && cpu.mode != cpu.pc && cpu.mode != cpu.inst
    && cpu.state != cpu.pc && cpu.state != cpu.inst && cpu.pc != cpu.inst
  }

  /** The sections overlap neither each other nor the control registers, which are distinct. */
  ghost predicate Separate(cpu: Cpu, e: Entry) {
    && DistinctControl(cpu)
    && (forall a | InSection(cpu, e.text, a) :: !InSection(cpu, e.data, a) && !InSection(cpu, e.roData, a) && a !in Control(cpu))
    && (forall a | InSection(cpu, e.data, a) :: !InSection(cpu, e.roData, a) && a !in Control(cpu))
    && (forall a | InSection(cpu, e.roData, a) :: a !in Control(cpu))
  }

  /**
   Word `i` of a section goes to the scratchpad base plus the section's offset in the
   processor's view, which starts at 0x800_0000, in 32-bit arithmetic.
   */
  lemma AddressOf(cpu: Cpu, s: Section, i: nat)
    ensures WordAddress(cpu, s, i) == (cpu.spadBase + s.address - 0x800_0000 + 4 * i) % 0x1_0000_0000
    ensures s.address >= 0x800_0000 && cpu.spadBase + (s.address - 0x800_0000) + 4 * i < 0x1_0000_0000 ==>
              WordAddress(cpu, s, i) == cpu.spadBase + (s.address - 0x800_0000) + 4 * i
  {
    Wrap32Absorbs(s.address - MIPS_VIEW_BASE, cpu.spadBase);
    Wrap32Absorbs(cpu.spadBase + s.address - MIPS_VIEW_BASE, 4 * i);
  }

  lemma WordAddressInjective(cpu: Cpu, s: Section, i: nat, j: nat)
    requires i < j < WordCount(s)
    ensures WordAddress(cpu, s, i) != WordAddress(cpu, s, j)
  {
    DistinctOffsets(Base(cpu, s), 4 * i, 4 * j);
  }

  lemma DistinctOffsets(b: U32, x: nat, y: nat)
    requires x < y < TWO32
    ensures Wrap32(b + x) != Wrap32(b + y)
  {
  }

  lemma SectionHit(m: Regs, cpu: Cpu, file: File, s: Section, i: nat)
    requires SectionFits(file, s) && i < WordCount(s)
    ensures Read(Apply(m, SectionWrites(cpu, file, s)), WordAddress(cpu, s, i)) == SectionWord(file, s, i)
  {
    hide WordAddress, SectionWord, Apply;
    var ws := SectionWrites(cpu, file, s);
    forall j | i < j < |ws|
      ensures ws[j].offset != ws[i].offset
    {
      WordAddressInjective(cpu, s, i, j);
    }
    ApplyAt(m, ws, i);
  }

  lemma SectionMiss(m: Regs, cpu: Cpu, file: File, s: Section, a: U32)
    requires SectionFits(file, s) && !InSection(cpu, s, a)
    ensures Read(Apply(m, SectionWrites(cpu, file, s)), a) == Read(m, a)
  {
    hide WordAddress, SectionWord, Apply;
    ApplyFrame(m, SectionWrites(cpu, file, s), a);
  }

  /** Register contents after each stage of the initialisation. */
  function AfterStop(cpu: Cpu, m: Regs): Regs {
    Apply(m, StopWrites(cpu, Read(m, cpu.mode)))
  }

  function AfterText(cpu: Cpu, file: File, e: Entry, m: Regs): Regs
    requires Fits(file, e)
  {
    Apply(AfterStop(cpu, m), SectionWrites(cpu, file, e.text))
  }

  function AfterData(cpu: Cpu, file: File, e: Entry, m: Regs): Regs
    requires Fits(file, e)
  {
    Apply(AfterText(cpu, file, e, m), SectionWrites(cpu, file, e.data))
  }

  function AfterRoData(cpu: Cpu, file: File, e: Entry, m: Regs): Regs
    requires Fits(file, e)
  {
    Apply(AfterData(cpu, file, e, m), SectionWrites(cpu, file, e.roData))
  }

  /** The whole initialisation, stage by stage. */
  lemma InitStages(cpu: Cpu, file: File, e: Entry, m: Regs)
    requires Fits(file, e)
    ensures var copied := AfterRoData(cpu, file, e, m)[cpu.inst := 0][cpu.pc := e.start];
            Apply(m, InitWrites(cpu, file, e, m)) ==
            copied[cpu.state := STATE_CLEAR][cpu.mode := ClearHalt(Read(copied, cpu.mode))]
  {
    hide SectionWrites, StopWrites, Apply, ClearHalt, SetHalt;
    var stop := StopWrites(cpu, Read(m, cpu.mode));
    var text, data, ro := SectionWrites(cpu, file, e.text), SectionWrites(cpu, file, e.data), SectionWrites(cpu, file, e.roData);
    var tail := [Write(cpu.inst, 0), Write(cpu.pc, e.start)];
    ApplyConcat(m, stop, text);
    ApplyConcat(m, stop + text, data);
    ApplyConcat(m, stop + text + data, ro);
    ApplyConcat(m, stop + text + data + ro, tail);
    ApplyTwo(AfterRoData(cpu, file, e, m), Write(cpu.inst, 0), Write(cpu.pc, e.start));
    var loaded := stop + CopyWrites(cpu, file, e);
    assert loaded == stop + text + data + ro + tail;
    var mode := Read(Apply(m, loaded), cpu.mode);
    ApplyConcat(m, loaded, StartWrites(cpu, mode));
    ApplyTwo(Apply(m, loaded), Write(cpu.state, STATE_CLEAR), Write(cpu.mode, ClearHalt(mode)));
  }

  /** Copying leaves alone whatever lies in no section. */
  lemma CopyMiss(cpu: Cpu, file: File, e: Entry, m: Regs, a: U32)
    requires Fits(file, e)
    requires !InSection(cpu, e.text, a) && !InSection(cpu, e.data, a) && !InSection(cpu, e.roData, a)
    ensures Read(AfterRoData(cpu, file, e, m), a) == Read(AfterStop(cpu, m), a)
  {
    SectionMiss(AfterStop(cpu, m), cpu, file, e.text, a);
    SectionMiss(AfterText(cpu, file, e, m), cpu, file, e.data, a);
    SectionMiss(AfterData(cpu, file, e, m), cpu, file, e.roData, a);
  }

  lemma StopEffect(cpu: Cpu, m: Regs)
    ensures AfterStop(cpu, m) == m[cpu.mode := SetHalt(Read(m, cpu.mode))][cpu.state := STATE_CLEAR]
  {
    ApplyTwo(m, Write(cpu.mode, SetHalt(Read(m, cpu.mode))), Write(cpu.state, STATE_CLEAR));
  }

  /** Which section, if any, a copied word belongs to. */
  datatype Part = Text | Data | RoData

  function PartOf(e: Entry, part: Part): Section {
    match part
    case Text => e.text
    case Data => e.data
    case RoData => e.roData
  }

  /**
   After initialisation the bytes of every section are in the scratchpad, four to a register,
   at the section's address moved from the processor's view to the register window.
   */
  lemma SectionsLoaded(cpu: Cpu, file: File, e: Entry, m: Regs, part: Part, i: nat)
    requires Fits(file, e) && Separate(cpu, e) && i < PartOf(e, part).length / 4
    ensures var s, m' := PartOf(e, part), Apply(m, InitWrites(cpu, file, e, m));
            var a := (cpu.spadBase + s.address - 0x800_0000 + 4 * i) % 0x1_0000_0000;
            && HasBytes(Read(m', a), file, s.offset + 4 * i)
            && (s.address >= 0x800_0000 && cpu.spadBase + (s.address - 0x800_0000) + s.length <= 0x1_0000_0000 ==>
                  a == cpu.spadBase + (s.address - 0x800_0000) + 4 * i)
  {
    hide Apply, InitWrites, WordAddress, Separate, BigEndian, HasBytes;
    var s, m' := PartOf(e, part), Apply(m, InitWrites(cpu, file, e, m));
    SectionWordsLoaded(cpu, file, e, m, part, i);
    AddressOf(cpu, s, i);
    BytesOfWord(file, s.offset + 4 * i);
  }

  lemma SectionWordsLoaded(cpu: Cpu, file: File, e: Entry, m: Regs, part: Part, i: nat)
    requires Fits(file, e) && Separate(cpu, e) && i < WordCount(PartOf(e, part))
    ensures SectionFits(file, PartOf(e, part))
    ensures Read(Apply(m, InitWrites(cpu, file, e, m)), WordAddress(cpu, PartOf(e, part), i)) ==
            SectionWord(file, PartOf(e, part), i)
  {
    hide SectionWrites, StopWrites, StartWrites, CopyWrites, InitWrites, Apply, WordAddress, SectionWord, ClearHalt, WordCount;
    var s := PartOf(e, part);
    var a := WordAddress(cpu, s, i);
    assert InSection(cpu, s, a);
    InitStages(cpu, file, e, m);
    match part
    case Text =>
      SectionHit(AfterStop(cpu, m), cpu, file, e.text, i);
      SectionMiss(AfterText(cpu, file, e, m), cpu, file, e.data, a);
      SectionMiss(AfterData(cpu, file, e, m), cpu, file, e.roData, a);
    case Data =>
      SectionHit(AfterText(cpu, file, e, m), cpu, file, e.data, i);
      SectionMiss(AfterData(cpu, file, e, m), cpu, file, e.roData, a);
    case RoData =>
      SectionHit(AfterData(cpu, file, e, m), cpu, file, e.roData, i);
  }

  /** Nothing outside the sections and the four control registers changes. */
  lemma RestUnchanged(cpu: Cpu, file: File, e: Entry, m: Regs, a: U32)
    requires Fits(file, e) && a !in Control(cpu)
    requires forall part: Part :: !InSection(cpu, PartOf(e, part), a)
    ensures Read(Apply(m, InitWrites(cpu, file, e, m)), a) == Read(m, a)
  {
    assert !InSection(cpu, PartOf(e, Text), a) && !InSection(cpu, PartOf(e, Data), a) && !InSection(cpu, PartOf(e, RoData), a);
    hide SectionWrites, StopWrites, StartWrites, CopyWrites, InitWrites, Apply, ClearHalt, SetHalt;
    InitStages(cpu, file, e, m);
    CopyMiss(cpu, file, e, m, a);
    StopEffect(cpu, m);
  }

  lemma ControlNotCopied(cpu: Cpu, e: Entry, a: U32)
    requires Separate(cpu, e) && a in Control(cpu)
    ensures !InSection(cpu, e.text, a) && !InSection(cpu, e.data, a) && !InSection(cpu, e.roData, a)
  {
  }

  /**
   The processor ends at its start address, running; its mode register is what it was
   before if and only if it was not halted then.
   */
  lemma ModeRestoredIff(cpu: Cpu, file: File, e: Entry, m: Regs)
    requires Fits(file, e) && Separate(cpu, e)
    ensures var m' := Apply(m, InitWrites(cpu, file, e, m));
            && Read(m', cpu.pc) == e.start && Read(m', cpu.inst) == 0
            && !Halted(Read(m', cpu.mode))
            && (Read(m', cpu.mode) == Read(m, cpu.mode) <==> !Halted(Read(m, cpu.mode)))
  {
    ControlNotCopied(cpu, e, cpu.mode);
    HaltBits(Read(m, cpu.mode));
    hide SectionWrites, StopWrites, StartWrites, CopyWrites, InitWrites, Apply, ClearHalt, SetHalt, Halted, Separate;
    InitStages(cpu, file, e, m);
    CopyMiss(cpu, file, e, m, cpu.mode);
    StopEffect(cpu, m);
  }

  lemma HaltBits(mode: U32)
    ensures Halted(SetHalt(mode)) && !Halted(ClearHalt(SetHalt(mode)))
    ensures ClearHalt(SetHalt(mode)) == mode <==> !Halted(mode)
  {
  }

  function SectionWords(e: Entry): nat {
    WordCount(e.text) + WordCount(e.data) + WordCount(e.roData)
  }

  /** Where write `k` of an initialisation goes. */
  ghost predicate Goes(cpu: Cpu, e: Entry, k: nat, offset: U32) {
    var n := SectionWords(e);
    if k == 0 || k == n + 5 then offset == cpu.mode
    else if k == 1 || k == n + 4 then offset == cpu.state
    else if k == n + 2 then offset == cpu.inst
    else if k == n + 3 then offset == cpu.pc
    else exists part: Part :: InSection(cpu, PartOf(e, part), offset)
  }

  function SectionCopies(cpu: Cpu, file: File, e: Entry): (ws: seq<Write>)
    requires Fits(file, e)
    ensures |ws| == SectionWords(e)
  {
    SectionWrites(cpu, file, e.text) + SectionWrites(cpu, file, e.data) + SectionWrites(cpu, file, e.roData)
  }

  lemma Layout(cpu: Cpu, file: File, e: Entry, m: Regs)
    requires Fits(file, e)
    ensures var all, n := InitWrites(cpu, file, e, m), SectionWords(e);
            && |all| == n + 6
            && all[0] == Write(cpu.mode, SetHalt(Read(m, cpu.mode))) && all[1].offset == cpu.state
            && all[2..n + 2] == SectionCopies(cpu, file, e)
            && all[n + 2].offset == cpu.inst && all[n + 3].offset == cpu.pc
            && all[n + 4].offset == cpu.state && all[n + 5].offset == cpu.mode
  {
    hide SectionWrites, WordCount, Apply, SetHalt, ClearHalt, Read;
  }

  lemma WriteOrder(cpu: Cpu, file: File, e: Entry, m: Regs)
    requires Fits(file, e)
    ensures var all := InitWrites(cpu, file, e, m);
            && |all| == SectionWords(e) + 6
            && all[0] == Write(cpu.mode, SetHalt(Read(m, cpu.mode)))
            && forall k | 0 <= k < |all| :: Goes(cpu, e, k, all[k].offset)
  {
    hide InitWrites, SectionCopies, InSection, SectionWords, Fits, SetHalt, Read;
    var all, n := InitWrites(cpu, file, e, m), SectionWords(e);
    Layout(cpu, file, e, m);
    CopiesAreInSections(cpu, file, e);
    forall k | 2 <= k < n + 2
      ensures Goes(cpu, e, k, all[k].offset)
    {
      assert all[k] == all[2..n + 2][k - 2];
    }
  }

  /**
   The writes besides the sections: the halt bit set in the mode as found and the state
   cleared before them; then the prefetch register cleared, the start address, the state
   cleared and the halt bit cleared in the mode as it then reads.
   */
  lemma ControlWrites(cpu: Cpu, file: File, e: Entry, m: Regs)
    requires Fits(file, e)
    ensures var all, n := InitWrites(cpu, file, e, m), e.text.length / 4 + e.data.length / 4 + e.roData.length / 4;
            var found, last := Read(m, cpu.mode), Read(Apply(m, InitWrites(cpu, file, e, m)[..n + 4]), cpu.mode);
            && |all| == n + 6
            && all[0] == Write(cpu.mode, if found / 0x400 % 2 == 1 then found else found + 0x400)
            && all[1] == Write(cpu.state, 0xFF_FFFF)
            && all[n + 2] == Write(cpu.inst, 0) && all[n + 3] == Write(cpu.pc, e.start)
            && all[n + 4] == Write(cpu.state, 0xFF_FFFF)
            && all[n + 5] == Write(cpu.mode, if last / 0x400 % 2 == 1 then last - 0x400 else last)
  {
    hide SectionWrites, Apply, Read;
    var n := SectionWords(e);
    var loaded := StopWrites(cpu, Read(m, cpu.mode)) + CopyWrites(cpu, file, e);
    assert InitWrites(cpu, file, e, m)[..n + 4] == loaded;
  }

  /**
   From the first write to the last the halt bit of the processor is set: while the state is
   cleared, while every section word, the prefetch register and the start address are
   written, and until the write that releases it.
   */
  lemma HaltedWhileCopying(cpu: Cpu, file: File, e: Entry, m: Regs, k: nat)
    requires Fits(file, e) && Separate(cpu, e) && 1 <= k < SectionWords(e) + 6
    ensures |InitWrites(cpu, file, e, m)| == SectionWords(e) + 6
    ensures Goes(cpu, e, k, InitWrites(cpu, file, e, m)[k].offset)
    ensures Halted(Read(Apply(m, InitWrites(cpu, file, e, m)[..k]), cpu.mode))
  {
    hide InitWrites, Halted, SetHalt, ClearHalt, InSection, Separate, SectionWords, Goes;
    var all := InitWrites(cpu, file, e, m);
    WriteOrder(cpu, file, e, m);
    HaltBits(Read(m, cpu.mode));
    forall t | 1 <= t < k
      ensures all[t].offset != cpu.mode
    {
      NotMode(cpu, e, t, all[t].offset);
    }
    assert all[..k] == [all[0]] + all[1..k];
    assert [all[0]][..0] == [];
    ApplyConcat(m, [all[0]], all[1..k]);
    ApplyFrame(Apply(m, [all[0]]), all[1..k], cpu.mode);
  }

  lemma NotMode(cpu: Cpu, e: Entry, k: nat, offset: U32)
    requires Separate(cpu, e) && Goes(cpu, e, k, offset) && 0 < k < SectionWords(e) + 5
    ensures offset != cpu.mode
  {
    hide InSection, SectionWords;
    ControlNotCopied(cpu, e, cpu.mode);
  }

  lemma CopiesAreInSections(cpu: Cpu, file: File, e: Entry)
    requires Fits(file, e)
    ensures var copy := SectionCopies(cpu, file, e);
            forall j | 0 <= j < |copy| :: exists part: Part :: InSection(cpu, PartOf(e, part), copy[j].offset)
  {
    var text, data, ro := SectionWrites(cpu, file, e.text), SectionWrites(cpu, file, e.data), SectionWrites(cpu, file, e.roData);
    var copy := text + data + ro;
    forall j | 0 <= j < |copy|
      ensures exists part: Part :: InSection(cpu, PartOf(e, part), copy[j].offset)
    {
      if j < |text| {
        assert copy[j] == text[j] && InSection(cpu, PartOf(e, Text), copy[j].offset);
      } else if j < |text| + |data| {
        assert copy[j] == data[j - |text|] && InSection(cpu, PartOf(e, Data), copy[j].offset);
      } else {
        assert copy[j] == ro[j - |text| - |data|] && InSection(cpu, PartOf(e, RoData), copy[j].offset);
      }
    }
  }

  /**
   The five processors have a window of 0x4_0000 bytes each: numbers 1, 2, 3, 4 and 6 belong
   to TXP, TPAT, RXP, COM and CP.
   */
  ghost predicate InWindow(cpu: Cpu, window: nat) {
    var base := 0x4_0000 * window;
    && cpu.mode == base + 0x5000 && cpu.state == base + 0x5004 && cpu.pc == base + 0x501c && cpu.inst == base + 0x5020
    && cpu.spadBase == base + 0x2_0000
  }

  /** The processors' registers lie in their own windows and are distinct, so the results apply to each. */
  lemma ControlRegistersDistinct()
    ensures InWindow(TXP, 1) && InWindow(TPAT, 2) && InWindow(RXP, 3) && InWindow(COM, 4) && InWindow(CP, 6)
    ensures forall cpu | cpu in {RXP, TXP, TPAT, COM, CP} :: DistinctControl(cpu)
  {
  }
}
