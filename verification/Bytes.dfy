/** Bytes, machine words and the big-endian decoding the boot firmware relies on. */
module Bytes {

  type byte = b: int | 0 <= b < 0x100
  type uint16 = w: int | 0 <= w < 0x1_0000
  type uint32 = w: int | 0 <= w < 0x1_0000_0000
  type uint64 = w: int | 0 <= w < 0x1_0000_0000_0000_0000

  const TWO16 := 0x1_0000
  const TWO32 := 0x1_0000_0000
  const TWO64 := 0x1_0000_0000_0000_0000

  function U32(x: int): uint32 {
    x % TWO32
  }

  function Plus32(a: int, b: int): uint32 {
    U32(a + b)
  }

  function Minus32(a: int, b: int): uint32 {
    U32(a - b)
  }

  lemma Minus32Twice(a: int, b: int, c: int)
    ensures Minus32(Minus32(a, b), c) == Minus32(a, b + c)
  {
  }

  function U64(x: int): uint64 {
    x % TWO64
  }

  /** The big-endian halfword at offset `o`. */
  function Be16(s: seq<byte>, o: nat): uint16
    requires o + 2 <= |s|
  {
    var high: int := s[o];
    high * 0x100 + s[o + 1]
  }

  /** The big-endian word at offset `o`. */
  function Be32(s: seq<byte>, o: nat): uint32
    requires o + 4 <= |s|
  {
    var high: int := Be16(s, o);
    high * 0x1_0000 + Be16(s, o + 2)
  }

  /** The big-endian doubleword at offset `o`. */
  function Be64(s: seq<byte>, o: nat): uint64
    requires o + 8 <= |s|
  {
    var high: int := Be32(s, o);
    high * 0x1_0000_0000 + Be32(s, o + 4)
  }
}
