/** The byte format of an SDES packet, from section 6.5 of RFC 3550. */
module SdesFormat {
  import opened Bytes

  datatype Item = Item(id: byte, value: seq<byte>)
  datatype Chunk = Chunk(ssrc: uint32, items: seq<Item>)

  /** The largest value of a packet's five bit count field. */
  const MAX_COUNT: nat := 31

  predicate ValidItem(item: Item) {
    item.id != 0 && |item.value| <= 255
  }

  predicate ValidItems(items: seq<Item>) {
    forall i :: 0 <= i < |items| ==> ValidItem(items[i])
  }

  predicate ValidChunks(chunks: seq<Chunk>) {
    forall c :: 0 <= c < |chunks| ==> ValidItems(chunks[c].items)
  }

  function Zeros(n: nat): (z: seq<byte>)
    ensures |z| == n && forall i :: 0 <= i < n ==> z[i] == 0
  {
    seq(n, _ => 0)
  }

  function ItemBytes(item: Item): (b: seq<byte>)
    requires ValidItem(item)
    ensures |b| == 2 + |item.value|
  {
    [item.id, |item.value|] + item.value
  }

  function ItemsBytes(items: seq<Item>): seq<byte>
    requires ValidItems(items)
  {
    if items == [] then [] else ItemBytes(items[0]) + ItemsBytes(items[1..])
  }

  /** The item list ends with a null octet and is padded with more of them to a 32-bit boundary. */
  function Terminator(itemslength: nat): (z: seq<byte>)
    ensures 1 <= |z| <= 4 && (itemslength + |z|) % 4 == 0 && z[0] == 0
  {
    Zeros(4 - itemslength % 4)
  }

  lemma TerminatorIsNull(itemslength: nat, i: nat)
    requires i < |Terminator(itemslength)|
    ensures Terminator(itemslength)[i] == 0
  {
  }

  function ChunkBytes(chunk: Chunk): (b: seq<byte>)
    requires ValidItems(chunk.items)
    ensures |b| % 4 == 0 && |b| >= 8
  {
    Word32(chunk.ssrc) + ItemsBytes(chunk.items) + Terminator(|ItemsBytes(chunk.items)|)
  }

  function ChunksBytes(chunks: seq<Chunk>): (b: seq<byte>)
    requires ValidChunks(chunks)
    ensures |b| % 4 == 0
  {
    if chunks == [] then [] else ChunkBytes(chunks[0]) + ChunksBytes(chunks[1..])
  }

  /** A whole packet: version 2, source count, type 202, length in 32-bit words minus one. */
  function PacketBytes(chunks: seq<Chunk>): seq<byte>
    requires ValidChunks(chunks) && |chunks| <= MAX_COUNT
    requires |ChunksBytes(chunks)| / 4 < 0x1_0000
  {
    [(0x80 + |chunks|) as byte, 202] + Word16(|ChunksBytes(chunks)| / 4) + ChunksBytes(chunks)
  }

  /** The header of section 6.5 of RFC 3550: version 2, no padding, the source count, the packet type, and
      the length of the whole packet in 32-bit words minus one. */
  lemma PacketHeader(chunks: seq<Chunk>)
    requires ValidChunks(chunks) && |chunks| <= MAX_COUNT
    requires |ChunksBytes(chunks)| / 4 < 0x1_0000
    ensures var p := PacketBytes(chunks);
            && p[0] as int == 2 * 64 + 0 * 32 + |chunks| && p[1] == 202
            && |p| == 4 * (ReadWord16(p, 2) as int + 1)
  {
  }

  // ---------------------------------------------------------------- concatenation

  lemma {:induction false} ItemsBytesConcat(a: seq<Item>, b: seq<Item>)
    requires ValidItems(a) && ValidItems(b)
    ensures ItemsBytes(a + b) == ItemsBytes(a) + ItemsBytes(b)
  {
    if a == [] {
      assert a + b == b;
    } else {
      assert (a + b)[1..] == a[1..] + b;
      ItemsBytesConcat(a[1..], b);
    }
  }

  lemma {:induction false} ChunksBytesConcat(a: seq<Chunk>, b: seq<Chunk>)
    requires ValidChunks(a) && ValidChunks(b)
    ensures ChunksBytes(a + b) == ChunksBytes(a) + ChunksBytes(b)
  {
    if a == [] {
      assert a + b == b;
    } else {
      assert (a + b)[1..] == a[1..] + b;
      ChunksBytesConcat(a[1..], b);
    }
  }

  lemma ItemsBytesAt(items: seq<Item>, i: nat)
    requires ValidItems(items) && i < |items|
    ensures ItemsBytes(items[..i + 1]) == ItemsBytes(items[..i]) + ItemBytes(items[i])
  {
    assert items[..i + 1] == items[..i] + [items[i]];
    ItemsBytesConcat(items[..i], [items[i]]);
    assert ItemsBytes([items[i]]) == ItemBytes(items[i]) + ItemsBytes([]);
  }

  lemma ChunksBytesUpTo(chunks: seq<Chunk>, c: nat)
    requires ValidChunks(chunks) && c < |chunks|
    ensures ChunksBytes(chunks[..c + 1]) == ChunksBytes(chunks[..c]) + ChunkBytes(chunks[c])
  {
    assert chunks[..c + 1] == chunks[..c] + [chunks[c]];
    ChunksBytesConcat(chunks[..c], [chunks[c]]);
    assert ChunksBytes([chunks[c]]) == ChunkBytes(chunks[c]) + ChunksBytes([]);
  }

  lemma SplitAround<T>(s: seq<T>, i: nat)
    requires i < |s|
    ensures s == s[..i] + ([s[i]] + s[i + 1..])
  {
  }

  lemma ChunksBytesAround(chunks: seq<Chunk>, c: nat)
    requires ValidChunks(chunks) && c < |chunks|
    ensures ChunksBytes(chunks) == ChunksBytes(chunks[..c]) + (ChunkBytes(chunks[c]) + ChunksBytes(chunks[c + 1..]))
  {
    var front, here, rest := chunks[..c], chunks[c], chunks[c + 1..];
    SplitAround(chunks, c);
    ChunksBytesConcat(front, [here] + rest);
    assert ([here] + rest)[1..] == rest;
  }

  function RoundUp4(n: nat): (r: nat)
    ensures r % 4 == 0 && n <= r < n + 4
  {
    if n % 4 != 0 then n + (4 - n % 4) else n
  }

  /** The reader's sum (SSRC, items, one null octet, then rounded up) and the builder's sum (items, one
      null octet, rounded up, then the SSRC) are both the length of the encoded chunk. */
  lemma ChunkSize(chunk: Chunk)
    requires ValidItems(chunk.items)
    ensures RoundUp4(4 + |ItemsBytes(chunk.items)| + 1) == |ChunkBytes(chunk)|
    ensures RoundUp4(|ItemsBytes(chunk.items)| + 1) + 4 == |ChunkBytes(chunk)|
  {
  }

  // ---------------------------------------------------------------- unique decoding

  /** Two item lists with the same bytes up to and including the terminator are the same list. */
  lemma {:induction false} ItemsAreUnique(a: seq<Item>, b: seq<Item>, x: seq<byte>, y: seq<byte>)
    requires ValidItems(a) && ValidItems(b)
    requires ItemsBytes(a) + [0] + x == ItemsBytes(b) + [0] + y
    ensures a == b
    decreases |a|
  {
    var s, t := ItemsBytes(a) + [0] + x, ItemsBytes(b) + [0] + y;
    assert s[0] == if a == [] then 0 else a[0].id;
    assert t[0] == if b == [] then 0 else b[0].id;
    if a != [] {
      assert s == ItemBytes(a[0]) + (ItemsBytes(a[1..]) + [0] + x);
      assert t == ItemBytes(b[0]) + (ItemsBytes(b[1..]) + [0] + y);
      assert s[0] == t[0] && s[1] == t[1];
      SplitsAt(ItemBytes(a[0]), ItemsBytes(a[1..]) + [0] + x, ItemBytes(b[0]), ItemsBytes(b[1..]) + [0] + y);
      assert a[0].value == ItemBytes(a[0])[2..] && b[0].value == ItemBytes(b[0])[2..];
      ItemsAreUnique(a[1..], b[1..], x, y);
    }
  }

  lemma SplitsAt(a: seq<byte>, x: seq<byte>, b: seq<byte>, y: seq<byte>)
    requires a + x == b + y && |a| == |b|
    ensures a == b && x == y
  {
    assert a == (a + x)[..|a|] && x == (a + x)[|a|..];
    assert b == (b + y)[..|b|] && y == (b + y)[|b|..];
  }

  lemma ChunkShape(c: Chunk, x: seq<byte>)
    requires ValidItems(c.items)
    ensures var i := ItemsBytes(c.items);
            ChunkBytes(c) + x == Word32(c.ssrc) + (i + [0] + (Terminator(|i|)[1..] + x))
  {
    var i := ItemsBytes(c.items);
    assert Terminator(|i|) == [0] + Terminator(|i|)[1..];
  }

  lemma ChunkIsUnique(p: Chunk, q: Chunk, x: seq<byte>, y: seq<byte>)
    requires ValidItems(p.items) && ValidItems(q.items)
    requires ChunkBytes(p) + x == ChunkBytes(q) + y
    ensures p == q && x == y
  {
    var (i, j) := (ItemsBytes(p.items), ItemsBytes(q.items));
    var (u, v) := (Terminator(|i|)[1..] + x, Terminator(|j|)[1..] + y);
    ChunkShape(p, x);
    ChunkShape(q, y);
    SplitsAt(Word32(p.ssrc), i + [0] + u, Word32(q.ssrc), j + [0] + v);
    Word32Injective(p.ssrc, q.ssrc);
    ItemsAreUnique(p.items, q.items, u, v);
    SplitsAt(ChunkBytes(p), x, ChunkBytes(q), y);
  }

  lemma {:induction false} ChunksAreUnique(a: seq<Chunk>, b: seq<Chunk>)
    requires ValidChunks(a) && ValidChunks(b) && |a| == |b|
    requires ChunksBytes(a) == ChunksBytes(b)
    ensures a == b
  {
    if a != [] {
      ChunkIsUnique(a[0], b[0], ChunksBytes(a[1..]), ChunksBytes(b[1..]));
      ChunksAreUnique(a[1..], b[1..]);
    }
  }

  /** No two chunk lists share an encoding. */
  lemma PacketsAreUnique(a: seq<Chunk>, b: seq<Chunk>)
    requires ValidChunks(a) && |a| <= MAX_COUNT && |ChunksBytes(a)| / 4 < 0x1_0000
    requires ValidChunks(b) && |b| <= MAX_COUNT && |ChunksBytes(b)| / 4 < 0x1_0000
    requires PacketBytes(a) == PacketBytes(b)
    ensures a == b
  {
    assert PacketBytes(a)[0] == PacketBytes(b)[0];
    assert ChunksBytes(a) == PacketBytes(a)[4..] && ChunksBytes(b) == PacketBytes(b)[4..];
    ChunksAreUnique(a, b);
  }
}
