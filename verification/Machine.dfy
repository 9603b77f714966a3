/** Fixed-width integers, optional values and the address split shared by all components. */
module Machine {
  const TWO16 := 0x1_0000
  const TWO32 := 0x1_0000_0000

  type U8 = x: int | 0 <= x < 0x100
  type U16 = x: int | 0 <= x < 0x1_0000
  type U32 = x: int | 0 <= x < 0x1_0000_0000
  type U64 = x: int | 0 <= x < 0x1_0000_0000_0000_0000

  datatype Option<+T> = None | Some(value: T)

  /** Unsigned 16-bit and 32-bit truncation. */
  function Wrap16(x: int): U16 {
    x % TWO16
  }

  function Wrap32(x: int): U32 {
    x % TWO32
  }

  lemma Wrap16Absorbs(x: int, y: int)
    ensures Wrap16(Wrap16(x) + y) == Wrap16(x + y)
  {
    var q := x / TWO16;
    var z := Wrap16(x) + y;
    assert x + y == q * TWO16 + z;
    assert x + y == (q + z / TWO16) * TWO16 + Wrap16(z);
  }

  lemma Wrap32Absorbs(x: int, y: int)
    ensures Wrap32(Wrap32(x) + y) == Wrap32(x + y)
  {
    var q := x / TWO32;
    assert x + y == q * TWO32 + (Wrap32(x) + y);
    var z := Wrap32(x) + y;
    assert x + y == (q + z / TWO32) * TWO32 + Wrap32(z);
  }

  /** A physical DMA segment as the memory cursor reports it. */
  datatype Segment = Segment(location: U64, length: U32)

  function AddrHi(a: U64): U32 {
    a / TWO32
  }

  function AddrLo(a: U64): U32 {
    a % TWO32
  }

  /** The address a device rebuilds from the two halves of a descriptor. */
  function JoinAddr(hi: U32, lo: U32): U64 {
    hi * TWO32 + lo
  }
}
