/** Bytes and the big-endian words of network byte order. */
module Bytes {
  type byte = x: int | 0 <= x < 256
  type uint16 = x: int | 0 <= x < 0x1_0000
  type uint32 = x: int | 0 <= x < 0x1_0000_0000

  const TWO_TO_32: int := 0x1_0000_0000
  const TWO_TO_64: int := 0x1_0000_0000_0000_0000

  function Word16(x: uint16): (w: seq<byte>)
    ensures |w| == 2
  {
    [x / 0x100, x % 0x100]
  }

  function Word32(x: uint32): (w: seq<byte>)
    ensures |w| == 4
  {
    Word16(x / 0x1_0000) + Word16(x % 0x1_0000)
  }

  function ReadWord16(data: seq<byte>, at: nat): uint16
    requires at + 2 <= |data|
  {
    data[at] as int * 0x100 + data[at + 1] as int
  }

  /** `ntohl` of the four bytes at offset `at`. */
  function ReadWord32(data: seq<byte>, at: nat): uint32
    requires at + 4 <= |data|
  {
    ReadWord16(data, at) as int * 0x1_0000 + ReadWord16(data, at + 2) as int
  }

  lemma ReadsWord32(data: seq<byte>, at: nat, x: uint32)
    requires at + 4 <= |data| && data[at..at + 4] == Word32(x)
    ensures ReadWord32(data, at) == x
  {
    var w := data[at..at + 4];
    assert data[at] == w[0] && data[at + 1] == w[1] && data[at + 2] == w[2] && data[at + 3] == w[3];
  }

  lemma Word32Injective(x: uint32, y: uint32)
    requires Word32(x) == Word32(y)
    ensures x == y
  {
    ReadsWord32(Word32(x), 0, x);
    ReadsWord32(Word32(y), 0, y);
  }

  lemma Word16Injective(x: uint16, y: uint16)
    requires Word16(x) == Word16(y)
    ensures x == y
  {
    assert ReadWord16(Word16(x), 0) == x && ReadWord16(Word16(y), 0) == y;
  }

  /** In network byte order the most significant octet comes first, when writing and when reading. */
  lemma NetworkByteOrder(x: uint32, data: seq<byte>, at: nat)
    requires at + 4 <= |data|
    ensures var w := Word32(x);
            x == w[0] as int * 0x100_0000 + w[1] as int * 0x1_0000 + w[2] as int * 0x100 + w[3] as int
    ensures ReadWord32(data, at) ==
            data[at] as int * 0x100_0000 + data[at + 1] as int * 0x1_0000 + data[at + 2] as int * 0x100 + data[at + 3] as int
  {
  }
}
