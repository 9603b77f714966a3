/**
 On-chip context memory of the 5706 and 5708 and its initialisation.

 The device model: context words live in 64-byte physical pages; a page table maps the page
 number of a context address to a physical page. Writing PAGE_TBL stores into the entry
 that VIRT_ADDR selects, and writing DATA stores at the address held in DATA_ADR, through
 the page table. The field widths are those of the four registers.
 */
module ContextMemory {
  import opened Machine

  const CTX_VIRT_ADDR: U32 := 0x1008
  const CTX_PAGE_TBL: U32 := 0x100c
  const CTX_DATA_ADR: U32 := 0x1010
  const CTX_DATA: U32 := 0x1014

  const CTX_SIZE := 128
  const PHY_CTX_SIZE := 64
  const WORDS_PER_PAGE := 16
  const VIRT_PAGES := 0x8000
  const PHYS_PAGES := 0x4000
  const INIT_CIDS := 96
  const INIT_PAGES := 192

  type PhysPage = p: nat | p < PHYS_PAGES

  /** The page and word fields of a context address. */
  function PageOf(addr: U32): (p: nat)
    ensures p < VIRT_PAGES
  {
    addr / PHY_CTX_SIZE % VIRT_PAGES
  }

  function WordOf(addr: U32): (w: nat)
    ensures w < WORDS_PER_PAGE
  {
    addr / 4 % WORDS_PER_PAGE
  }

  function Cell(page: PhysPage, word: nat): (c: nat)
    requires word < WORDS_PER_PAGE
    ensures c < PHYS_PAGES * WORDS_PER_PAGE
  {
    page * WORDS_PER_PAGE + word
  }

  class Device {
    const table: array<PhysPage>
    const memory: array<U32>
    var virtAddr: U32
    var dataAdr: U32

    ghost predicate Valid()
      reads this
    {
      table.Length == VIRT_PAGES && memory.Length == PHYS_PAGES * WORDS_PER_PAGE
    }

    constructor (table: array<PhysPage>, memory: array<U32>)
      requires table.Length == VIRT_PAGES && memory.Length == PHYS_PAGES * WORDS_PER_PAGE
      ensures Valid() && this.table == table && this.memory == memory
    {
      this.table, this.memory := table, memory;
      virtAddr, dataAdr := 0, 0;
    }

    /** The word a context access at `addr` reads. */
    function ContextWord(addr: U32): U32
      reads this, table, memory
      requires Valid()
    {
      memory[Cell(table[PageOf(addr)], WordOf(addr))]
    }

    /** Where that word is: bits 6 to 20 name the page, bits 2 to 5 the word in it. */
    ghost predicate At(addr: U32, c: nat)
      reads this, table
      requires Valid()
    {
      c == table[addr / 64 % 0x8000] * 16 + addr / 4 % 16
    }

    method WriteReg32(offset: U32, value: U32)
      requires Valid()
      modifies this, table, memory
      ensures Valid()
      ensures virtAddr == if offset == 0x1008 then value else old(virtAddr)
      ensures dataAdr == if offset == 0x1010 then value else old(dataAdr)
      ensures table[..] == if offset == 0x100c
                           then old(table[..])[old(virtAddr) / 64 % 0x8000 := value / 64 % 0x4000]
                           else old(table[..])
      ensures memory[..] == if offset == 0x1014
                            then old(memory[..])[Cell(old(table[PageOf(dataAdr)]), WordOf(old(dataAdr))) := value]
                            else old(memory[..])
    {
      if offset == CTX_VIRT_ADDR {
        virtAddr := value;
      } else if offset == CTX_PAGE_TBL {
        table[PageOf(virtAddr)] := value / PHY_CTX_SIZE % PHYS_PAGES;
      } else if offset == CTX_DATA_ADR {
        dataAdr := value;
      } else if offset == CTX_DATA {
        memory[Cell(table[PageOf(dataAdr)], WordOf(dataAdr))] := value;
      }
    }

    method WriteContext32(cid: U32, offset: U32, value: U32)
      requires Valid() && cid + offset < TWO32
      modifies this, table, memory
      ensures Valid() && virtAddr == old(virtAddr) && table[..] == old(table[..])
      ensures memory[..] == old(memory[..])[Cell(old(table[PageOf(cid + offset)]), WordOf(cid + offset)) := value]
      ensures forall c | 0 <= c < memory.Length :: memory[c] == if old(At(cid + offset, c)) then value else old(memory[c])
    {
      WriteReg32(CTX_DATA_ADR, cid + offset);
      assert table[PageOf(dataAdr)] == table[..][PageOf(dataAdr)];
      WriteReg32(CTX_DATA, value);
      assert forall c | 0 <= c < memory.Length :: memory[c] == memory[..][c];
    }

    /** Maps one virtual page, by its number. */
    method MapPage(virtualAddr: U32, physicalAddr: U32)
      requires Valid()
      modifies this, table, memory
      ensures Valid() && memory[..] == old(memory[..])
      ensures table[..] == old(table[..])[PageOf(virtualAddr) := physicalAddr / PHY_CTX_SIZE % PHYS_PAGES]
    {
      WriteReg32(CTX_VIRT_ADDR, virtualAddr);
      WriteReg32(CTX_PAGE_TBL, physicalAddr);
    }

    /** Zeroes, through page 0, the physical page that page 0 is mapped to. */
    method ZeroFirstPage()
      requires Valid()
      modifies this, table, memory
      ensures Valid() && table[..] == old(table[..])
      ensures forall c | 0 <= c < memory.Length ::
                memory[c] == if c / WORDS_PER_PAGE == old(table[0]) then 0 else old(memory[c])
    {
      ghost var page := table[0];
      var i := 0;
      while i < PHY_CTX_SIZE
        invariant 0 <= i <= PHY_CTX_SIZE && i % 4 == 0
        invariant Valid() && table[..] == old(table[..])
        invariant forall c | 0 <= c < memory.Length ::
                    memory[c] == if c / WORDS_PER_PAGE == page && c % WORDS_PER_PAGE < i / 4 then 0 else old(memory[c])
      {
        ghost var before := memory[..];
        assert table[..][0] == page;
        assert PageOf(i) == 0 && WordOf(i) == i / 4;
        WriteContext32(0, i, 0);
        forall c | 0 <= c < memory.Length
          ensures memory[c] == if c == Cell(page, i / 4) then 0 else before[c]
          ensures c == Cell(page, i / 4) <==> c / WORDS_PER_PAGE == page && c % WORDS_PER_PAGE == i / 4
        {
          assert memory[c] == memory[..][c];
        }
        i := i + 4;
      }
    }

    /**
     From any state of memory and table: the first 192 physical pages end up zero and
     mapped one to one, and nothing else changes, although page 0 serves throughout as a
     moving alias for the page being cleared.
     */
    method InitContext()
      requires Valid()
      modifies this, table, memory
      ensures Valid()
      ensures forall p | 0 <= p < 0x8000 :: table[p] == if p < 192 then p else old(table[p])
      ensures forall c | 0 <= c < 0x4_0000 :: memory[c] == if c < 192 * 16 then 0 else old(memory[c])
      ensures forall addr: U32 | addr < 96 * 128 :: ContextWord(addr) == 0 && At(addr, addr / 4)
    {
      var virtualCidAddr := INIT_CIDS * CTX_SIZE;
      ghost var n := INIT_PAGES;
      while virtualCidAddr != 0
        invariant Valid() && 0 <= n <= INIT_PAGES && virtualCidAddr == n * PHY_CTX_SIZE
        invariant n < INIT_PAGES ==> table[0] == n
        invariant forall p | 0 < p < VIRT_PAGES :: table[p] == if n <= p < INIT_PAGES then p else old(table[p])
        invariant forall c | 0 <= c < memory.Length ::
                    memory[c] == if n <= c / WORDS_PER_PAGE < INIT_PAGES then 0 else old(memory[c])
        decreases n
      {
        virtualCidAddr := virtualCidAddr - PHY_CTX_SIZE;
        n := n - 1;
        PageAddress(n);
        ghost var t: seq<PhysPage> := table[..];
        ghost var m := memory[..];
        MapPage(0, virtualCidAddr);
        assert table[0] == table[..][0] == n;
        assert forall c | 0 <= c < memory.Length :: memory[c] == memory[..][c] == m[c];
        ZeroFirstPage();
        ghost var m1 := memory[..];
        MapPage(virtualCidAddr, virtualCidAddr);
        assert forall p | 0 <= p < VIRT_PAGES :: table[p] == table[..][p] == if p == 0 || p == n then n else t[p];
        assert forall c | 0 <= c < memory.Length :: memory[c] == memory[..][c] == m1[c];
      }
      forall addr: U32 | addr < INIT_CIDS * CTX_SIZE
        ensures ContextWord(addr) == 0 && At(addr, addr / 4)
      {
        assert PageOf(addr) < INIT_PAGES;
        WordPlace(addr);
      }
    }
  }

  lemma WordPlace(addr: U32)
    requires addr < 96 * 128
    ensures addr / 64 < 192 && addr / 64 % 0x8000 == addr / 64 && addr / 64 * 16 + addr / 4 % 16 == addr / 4
  {
    assert addr / 64 == addr / 4 / 16;
  }

  lemma PageAddress(n: nat)
    requires n < INIT_PAGES
    ensures n * PHY_CTX_SIZE < TWO32
    ensures PageOf(n * PHY_CTX_SIZE) == n && n * PHY_CTX_SIZE / PHY_CTX_SIZE % PHYS_PAGES == n
    ensures PageOf(0) == 0
  {
  }
}
