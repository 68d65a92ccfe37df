/** Where the chunks and items of an SDES packet lie in its bytes. */
module SdesLayout {
  import opened Bytes
  import opened SdesFormat
  import opened SdesItems

  function ChunkStart(chunks: seq<Chunk>, c: nat): nat
    requires ValidChunks(chunks) && c <= |chunks|
  {
    4 + |ChunksBytes(chunks[..c])|
  }

  function ItemOffset(items: seq<Item>, i: nat): nat
    requires ValidItems(items) && i <= |items|
  {
    4 + |ItemsBytes(items[..i])|
  }

  /** The reader's three variables while it is on item `i` of chunk `c`. In a chunk without items it
      stays at the terminator. */
  predicate IsPosition(chunks: seq<Chunk>, c: nat, i: nat, currentchunk: nat, curchunknum: int, itemoffset: nat)
    requires ValidChunks(chunks)
  {
    && c < |chunks| && currentchunk == ChunkStart(chunks, c) && curchunknum == c + 1
    && (i < |chunks[c].items| || (i == 0 && chunks[c].items == []))
    && itemoffset == ItemOffset(chunks[c].items, i)
  }

  /** The data holds the chunks, after a four byte header and before anything else. */
  predicate Holds(data: seq<byte>, chunks: seq<Chunk>, tail: seq<byte>) {
    |data| >= 4 && ValidChunks(chunks) && data[4..] == ChunksBytes(chunks) + tail
  }

  lemma DropPrefix(a: seq<byte>, b: seq<byte>)
    ensures (a + b)[|a|..] == b
  {
  }

  lemma DropDrop(s: seq<byte>, a: nat, b: nat)
    requires a + b <= |s|
    ensures s[a..][b..] == s[a + b..]
  {
  }

  lemma SliceOfDrop(s: seq<byte>, o: nat, a: nat, b: nat)
    requires a <= b && o + b <= |s|
    ensures s[o..][a..b] == s[o + a..o + b]
  {
  }

  lemma DropToMiddle(s: seq<byte>, o: nat, a: seq<byte>, b: seq<byte>, c: seq<byte>, tail: seq<byte>)
    requires o <= |s| && s[o..] == a + (b + c) + tail
    ensures o + |a| + |b| <= |s| && s[o + |a|..] == b + (c + tail)
  {
    assert s[o..] == a + (b + (c + tail));
    DropPrefix(a, b + (c + tail));
    DropDrop(s, o, |a|);
  }

  lemma ChunkAt(data: seq<byte>, chunks: seq<Chunk>, tail: seq<byte>, c: nat)
    requires Holds(data, chunks, tail) && c < |chunks|
    ensures ChunkStart(chunks, c + 1) == ChunkStart(chunks, c) + |ChunkBytes(chunks[c])| <= |data|
    ensures data[ChunkStart(chunks, c)..] == ChunkBytes(chunks[c]) + (ChunksBytes(chunks[c + 1..]) + tail)
  {
    var before, here, after := ChunksBytes(chunks[..c]), ChunkBytes(chunks[c]), ChunksBytes(chunks[c + 1..]);
    ChunksBytesUpTo(chunks, c);
    ChunksBytesAround(chunks, c);
    DropToMiddle(data, 4, before, here, after, tail);
  }

  /** The size of a chunk leads from its start to the first position of the next one. */
  lemma NextChunkPosition(data: seq<byte>, chunks: seq<Chunk>, tail: seq<byte>, c: nat)
    requires Holds(data, chunks, tail) && c + 1 < |chunks|
    ensures IsPosition(chunks, c + 1, 0, ChunkStart(chunks, c) + |ChunkBytes(chunks[c])|, c + 2, 4)
  {
    ChunkAt(data, chunks, tail, c);
    assert ItemOffset(chunks[c + 1].items, 0) == 4;
  }

  lemma ItemAt(chunk: Chunk, i: nat, rest: seq<byte>)
    requires ValidItems(chunk.items) && i <= |chunk.items|
    ensures ItemOffset(chunk.items, i) < |ChunkBytes(chunk)|
    ensures (ChunkBytes(chunk) + rest)[ItemOffset(chunk.items, i)..] ==
            ItemsBytes(chunk.items[i..]) + (Terminator(|ItemsBytes(chunk.items)|) + rest)
  {
    var before, after, end := ItemsBytes(chunk.items[..i]), ItemsBytes(chunk.items[i..]), Terminator(|ItemsBytes(chunk.items)|);
    assert chunk.items == chunk.items[..i] + chunk.items[i..];
    ItemsBytesConcat(chunk.items[..i], chunk.items[i..]);
    assert ChunkBytes(chunk) + rest == (Word32(chunk.ssrc) + before) + (after + (end + rest));
    DropPrefix(Word32(chunk.ssrc) + before, after + (end + rest));
  }

  /** The bytes at the front of an item list's encoding. */
  lemma ItemInFront(items: seq<Item>, rest: seq<byte>)
    requires ValidItems(items) && items != []
    ensures var s, item := ItemsBytes(items) + rest, items[0];
            |s| >= 2 + |item.value| && s[0] == item.id && s[1] == |item.value| && s[2..2 + |item.value|] == item.value
  {
    var item := items[0];
    assert ItemsBytes(items) + rest == [item.id, |item.value|] + item.value + (ItemsBytes(items[1..]) + rest);
  }

  /** The data from item `i` of chunk `c` on. */
  lemma DataFrom(data: seq<byte>, chunks: seq<Chunk>, tail: seq<byte>, c: nat, i: nat) returns (rest: seq<byte>)
    requires Holds(data, chunks, tail) && c < |chunks| && i <= |chunks[c].items|
    ensures ChunkStart(chunks, c) + ItemOffset(chunks[c].items, i) < ChunkStart(chunks, c + 1) <= |data|
    ensures data[ChunkStart(chunks, c) + ItemOffset(chunks[c].items, i)..] == ItemsBytes(chunks[c].items[i..]) + rest
    ensures rest != [] && rest[0] == 0
  {
    var after := ChunksBytes(chunks[c + 1..]) + tail;
    ChunkAt(data, chunks, tail, c);
    ItemAt(chunks[c], i, after);
    DropDrop(data, ChunkStart(chunks, c), ItemOffset(chunks[c].items, i));
    rest := Terminator(|ItemsBytes(chunks[c].items)|) + after;
  }

  lemma NextItemOffset(items: seq<Item>, i: nat)
    requires ValidItems(items) && i < |items|
    ensures ItemOffset(items, i + 1) == ItemOffset(items, i) + 2 + |items[i].value|
  {
    ItemsBytesAt(items, i);
  }

  /** Item `i` of a chunk, or a stand-in past the last one. */
  function ItemOrNone(items: seq<Item>, i: nat): Item {
    if i < |items| then items[i] else Item(1, [])
  }

  /** Everything the iteration reads of item `i` of chunk `c` is where it belongs and lies inside
      that chunk; past the last item lies a null octet of the same chunk. */
  lemma ReadsStayInTheChunk(data: seq<byte>, chunks: seq<Chunk>, tail: seq<byte>, c: nat, i: nat)
    requires Holds(data, chunks, tail) && c < |chunks| && i <= |chunks[c].items|
    ensures LiesAt(data, ChunkStart(chunks, c) + ItemOffset(chunks[c].items, i), ChunkStart(chunks, c + 1),
                   i < |chunks[c].items|, ItemOrNone(chunks[c].items, i))
  {
    var items, o := chunks[c].items, ChunkStart(chunks, c) + ItemOffset(chunks[c].items, i);
    var rest := DataFrom(data, chunks, tail, c, i);
    assert data[o..][0] == data[o];
    if i < |items| {
      ItemInFront(items[i..], rest);
      assert data[o..][1] == data[o + 1];
      SliceOfDrop(data, o, 2, 2 + |items[i].value|);
      NextItemOffset(items, i);
      var _ := DataFrom(data, chunks, tail, c, i + 1);
    } else {
      assert items[i..] == [];
    }
  }

  /** Stepping over an item with the length octet that is read leads to the next item, or to the
      null octet that ends the chunk's items. */
  lemma StepOverItem(data: seq<byte>, chunks: seq<Chunk>, tail: seq<byte>, c: nat, i: nat, at: nat, offset: nat)
    requires Holds(data, chunks, tail) && c < |chunks| && i <= |chunks[c].items|
    requires at == ChunkStart(chunks, c) && offset == ItemOffset(chunks[c].items, i)
    ensures at + offset < |data| && (data[at + offset] != 0 <==> i < |chunks[c].items|)
    ensures i < |chunks[c].items| ==>
              && at + offset + 1 < |data|
              && offset + 2 + data[at + offset + 1] as int == ItemOffset(chunks[c].items, i + 1)
              && at + (offset + 2 + data[at + offset + 1] as int) < |data|
              && (data[at + (offset + 2 + data[at + offset + 1] as int)] != 0 <==> i + 1 < |chunks[c].items|)
  {
    ReadsStayInTheChunk(data, chunks, tail, c, i);
    if i < |chunks[c].items| {
      NextItemOffset(chunks[c].items, i);
      ReadsStayInTheChunk(data, chunks, tail, c, i + 1);
    }
  }

  lemma SsrcAt(data: seq<byte>, chunks: seq<Chunk>, tail: seq<byte>, c: nat)
    requires Holds(data, chunks, tail) && c < |chunks|
    ensures ChunkStart(chunks, c) + 4 <= |data|
    ensures ReadWord32(data, ChunkStart(chunks, c)) == chunks[c].ssrc
  {
    ChunkAt(data, chunks, tail, c);
    var s := ChunkStart(chunks, c);
    assert data[s..s + 4] == data[s..][..4];
    ReadsWord32(data, s, chunks[c].ssrc);
  }
}
