# JRTPLIB core, modelled and verified in Dafny

This project models the parts of the vendored RTP library JRTPLIB whose algorithms are written out in
its headers, and proves what callers of those parts rely on. Every file is verified by

    dafny verify dfyconfig.toml

## What is modelled

* **Hash tables.** `HashTables.HashTable` is the intrusive table: every node lies on a bucket chain and
  on a list over all nodes, both doubly linked, and a cursor walks the list. `OrderedTable` is its
  specification, a list of entries with a cursor, and an insertion-ordered map that knows no buckets.
  Each method is proved against the specification on the linked heap structure, the specification is
  proved to refine the map, and `TableClients` lifts both to whole runs and to deleting while
  iterating. The library has two tables, one keyed and one a set. They consist of the same statements
  with the element in the place of the key, so one class stands for both: for the set, `Key` is the
  element type and `same` its `==`. Status values stand for the error codes of either table.
* **SDES packets.** `SdesFormat` is the encoding of section 6.5 of RFC 3550, `SdesPackets` the reader,
  `SdesReader` the two nested iterations a caller writes with it, `SdesBuild` the chunks that come out of
  the builder's objects.
* **Sizes of a compound packet.** `CompoundBuilder` has the classes for reports and SDES sources,
  `Packing` the packets they are spread over, `GuardedBuild` the runs of a builder that admits an
  addition only if the announced size fits, on values and on the builder's objects.
* **Reports.** `ReportPackets` has the accessors of sender and receiver reports over the format of
  section 6.4 of RFC 3550 in `ReportFormat`.
* **Times.** `Clock` is the clock on the performance counter, in wrapping 64 bit arithmetic; `RtpTimes`
  has the conversions between seconds, microseconds, NTP times and milliseconds. A `double` is the
  exact real it stands for.

## What the code does not do

* The documentation of the builder says that an addition over the maximum size is refused
  (`rtcpcompoundpacketbuilder.h`, lines 53-57). The forecast for a first SDES source is 0 although it
  takes 12 bytes. The body of `AddSDESSource` is not in the header; if it decides by that forecast, as
  `GuardedBuild.Admit` does, a first source can push a packet over the maximum
  (`GuardedBuild.FirstSourceOvershoots`: from 592 bytes to 604 with a maximum of 600).
  `GuardedBuild.RunExceedsIff` says exactly when; `RunStaysBounded` says by how much at most.
* Converting a time to NTP and back loses a microsecond each time until a multiple of 15625
  microseconds is reached, where the loss stops (`RtpTimes.TripsDrift`).
* A time between -1 and 0 seconds loses its sign when it is split into seconds and microseconds
  (`RtpTimes.SignIsLost`); `RtpTimes.TimeFromPartsIff` says which times come back.
* `CalculateMicroseconds` is exact for every frequency the clock is meant for, and
  `Clock.CalculatesFloorIff` says exactly for which inputs it is not; `Clock.WhereTheFloorIsLost` is one.
* `Clear` leaves the cursor of a table as it was, and a new table does not set it. `CursorOk` is
  therefore a condition apart from the invariant; `OrderedTable.WhenTheCursorDangles` and
  `OnlyClearLosesTheCursor` say when it holds.
* IPv4 destinations that differ only in the RTCP port count as the same
  (`Destinations.RtcpPortIsIgnored`).

## Model

| member | source | states |
|---|---|---|
| `OrderedTable.Find` | ConsoleApplication-RTPVoice/ConsoleApplication-RTPVoice/lib/jrtplib/include/jrtplib3/rtpkeyhashtable.h:185-193 | A bucket search stops at the latest entry of the bucket that equals the key, or at none; no later entry answers the search |
| `OrderedTable.StepKeepsConsistent` | ConsoleApplication-RTPVoice/ConsoleApplication-RTPVoice/lib/jrtplib/include/jrtplib3/rtpkeyhashtable.h:119-315 | Every call keeps each entry in an existing bucket, no entry answering the search for a later one, and the cursor on an entry or on none |
| `OrderedTable.RunKeepsConsistent` | ConsoleApplication-RTPVoice/ConsoleApplication-RTPVoice/lib/jrtplib/include/jrtplib3/rtpkeyhashtable.h:119-315 | The same over every sequence of calls |
| `OrderedTable.WhenTheCursorDangles` | ConsoleApplication-RTPVoice/ConsoleApplication-RTPVoice/lib/jrtplib/include/jrtplib3/rtpkeyhashtable.h:236-253 | After which calls the cursor must not be dereferenced: exactly Clear with a set cursor, and calls that leave an already dangling cursor alone (AddElement, or a search refused for its hash index) |
| `OrderedTable.OnlyClearLosesTheCursor` | ConsoleApplication-RTPVoice/ConsoleApplication-RTPVoice/lib/jrtplib/include/jrtplib3/rtpkeyhashtable.h:59-69 | From a usable cursor every sequence of calls without Clear is legal and leaves a usable cursor |
| `OrderedTable.KeysAreUnique` | ConsoleApplication-RTPVoice/ConsoleApplication-RTPVoice/lib/jrtplib/include/jrtplib3/rtpkeyhashtable.h:266-276 | With lawful keys no two entries of a reachable table have equal keys |
| `OrderedTable.FindIsLinearSearch` | ConsoleApplication-RTPVoice/ConsoleApplication-RTPVoice/lib/jrtplib/include/jrtplib3/rtpkeyhashtable.h:199-220 | With lawful keys searching one bucket from its newest node finds what a front-to-back search of the whole list finds, and fails exactly when that fails |
| `OrderedTable.WithoutRemovesOne` | ConsoleApplication-RTPVoice/ConsoleApplication-RTPVoice/lib/jrtplib/include/jrtplib3/rtpkeyhashtable.h:306-315 | Deleting by key removes exactly the entries equal to the key and keeps the order of the rest |
| `OrderedTable.StepRefinesReference` | ConsoleApplication-RTPVoice/ConsoleApplication-RTPVoice/lib/jrtplib/include/jrtplib3/rtpkeyhashtable.h:119-315 | Each call does to entries, cursor and status what the insertion-ordered map without buckets does |
| `OrderedTable.MovesUndoEachOtherIff` | ConsoleApplication-RTPVoice/ConsoleApplication-RTPVoice/lib/jrtplib/include/jrtplib3/rtpkeyhashtable.h:222-234 | GotoNextElement and GotoPreviousElement undo each other if and only if the first of the two does not run off the list |
| `OrderedTable.DeleteCurrentIsDelete` | ConsoleApplication-RTPVoice/ConsoleApplication-RTPVoice/lib/jrtplib/include/jrtplib3/rtpkeyhashtable.h:119-173 | With lawful keys deleting the current element does what deleting by its key does, and is refused without a current element |
| `OrderedTable.RunRefinesReference` | ConsoleApplication-RTPVoice/ConsoleApplication-RTPVoice/lib/jrtplib/include/jrtplib3/rtpkeyhashtable.h:119-315 | Every legal sequence of calls is a run of the insertion-ordered map, with the same statuses |
| `OrderedTable.BucketSearchIsMembershipIff` | ConsoleApplication-RTPVoice/ConsoleApplication-RTPVoice/lib/jrtplib/include/jrtplib3/rtphashtable.h:196-217 | HasElement is membership in the whole list, for all tables and keys, if and only if a stored key shares its hash index with every key equal to it |
| `OrderedTable.SweepStep` | ConsoleApplication-RTPVoice/ConsoleApplication-RTPVoice/lib/jrtplib/include/jrtplib3/rtpkeyhashtable.h:119-173 | One turn of deleting while iterating: the cursor is on the first unvisited entry before and after |
| `OrderedTable.SweepEnds` | ConsoleApplication-RTPVoice/ConsoleApplication-RTPVoice/lib/jrtplib/include/jrtplib3/rtpkeyhashtable.h:119-173 | When a sweep ends, all entries were visited in order and exactly the kept ones are left |
| `HashChains.ChainMembers` | ConsoleApplication-RTPVoice/ConsoleApplication-RTPVoice/lib/jrtplib/include/jrtplib3/rtpkeyhashtable.h:284-288 | A chain holds just the list nodes with its hash index, so the list is the disjoint union of the chains |
| `HashChains.ChainHasNoDuplicates` | ConsoleApplication-RTPVoice/ConsoleApplication-RTPVoice/lib/jrtplib/include/jrtplib3/rtpkeyhashtable.h:284-288 | No node is linked twice into a chain |
| `HashChains.ChainOfRemoved` | ConsoleApplication-RTPVoice/ConsoleApplication-RTPVoice/lib/jrtplib/include/jrtplib3/rtpkeyhashtable.h:127-143 | Taking a node out of the list takes just that node out of its own chain and leaves all other chains as they were |
| `HashChains.ChainSearchIsFind` | ConsoleApplication-RTPVoice/ConsoleApplication-RTPVoice/lib/jrtplib/include/jrtplib3/rtpkeyhashtable.h:210-219 | Walking a chain from its head stops at the node that the search of the entries names |
| `HashChains.RemovedNodes` | ConsoleApplication-RTPVoice/ConsoleApplication-RTPVoice/lib/jrtplib/include/jrtplib3/rtpkeyhashtable.h:145-164 | Removing a list node keeps the link-free invariant and removes one entry and one live node |
| `HashChains.AppendedNode` | ConsoleApplication-RTPVoice/ConsoleApplication-RTPVoice/lib/jrtplib/include/jrtplib3/rtpkeyhashtable.h:278-303 | Appending a node whose key was not found keeps the link-free invariant |
| `HashTables.HashTable.constructor` | ConsoleApplication-RTPVoice/ConsoleApplication-RTPVoice/lib/jrtplib/include/jrtplib3/rtpkeyhashtable.h:105-117 | An empty table in which both link structures hold; the cursor is whatever it is |
| `HashTables.HashTable.NodeCount` | ConsoleApplication-RTPVoice/ConsoleApplication-RTPVoice/lib/jrtplib/include/jrtplib3/rtpkeyhashtable.h:280-282 | Live nodes and entries are equally many, and all nodes ever created are these and the released ones |
| `HashTables.HashTable.GetCurrentElement` | ConsoleApplication-RTPVoice/ConsoleApplication-RTPVoice/lib/jrtplib/include/jrtplib3/rtpkeyhashtable.h:63 | The element of the entry under the cursor |
| `HashTables.HashTable.GetCurrentKey` | ConsoleApplication-RTPVoice/ConsoleApplication-RTPVoice/lib/jrtplib/include/jrtplib3/rtpkeyhashtable.h:64 | The key of the entry under the cursor |
| `HashTables.HashTable.HasCurrentElement` | ConsoleApplication-RTPVoice/ConsoleApplication-RTPVoice/lib/jrtplib/include/jrtplib3/rtpkeyhashtable.h:61 | Whether the cursor is not null |
| `HashTables.HashTable.GotoFirstElement` | ConsoleApplication-RTPVoice/ConsoleApplication-RTPVoice/lib/jrtplib/include/jrtplib3/rtpkeyhashtable.h:59 | The cursor goes to the oldest entry, or to none |
| `HashTables.HashTable.GotoLastElement` | ConsoleApplication-RTPVoice/ConsoleApplication-RTPVoice/lib/jrtplib/include/jrtplib3/rtpkeyhashtable.h:60 | The cursor goes to the newest entry, or to none |
| `HashTables.HashTable.GotoNextElement` | ConsoleApplication-RTPVoice/ConsoleApplication-RTPVoice/lib/jrtplib/include/jrtplib3/rtpkeyhashtable.h:222-227 | The cursor goes one entry on, off the end to none |
| `HashTables.HashTable.GotoPreviousElement` | ConsoleApplication-RTPVoice/ConsoleApplication-RTPVoice/lib/jrtplib/include/jrtplib3/rtpkeyhashtable.h:229-234 | The cursor goes one entry back, off the front to none |
| `HashTables.HashTable.HasElement` | ConsoleApplication-RTPVoice/ConsoleApplication-RTPVoice/lib/jrtplib/include/jrtplib3/rtpkeyhashtable.h:199-220 | True exactly when the hash index is in range and the bucket search of the ordered table succeeds |
| `HashTables.HashTable.GotoElement` | ConsoleApplication-RTPVoice/ConsoleApplication-RTPVoice/lib/jrtplib/include/jrtplib3/rtpkeyhashtable.h:175-197 | Cursor and status are those of the ordered table; the cursor becomes null when the key is absent and stays when the index is out of range |
| `HashTables.HashTable.UnlinkFromChain` | ConsoleApplication-RTPVoice/ConsoleApplication-RTPVoice/lib/jrtplib/include/jrtplib3/rtpkeyhashtable.h:127-143 | A doubly linked chain without one node is again doubly linked, and no other bucket head changes |
| `HashTables.HashTable.UnlinkFromList` | ConsoleApplication-RTPVoice/ConsoleApplication-RTPVoice/lib/jrtplib/include/jrtplib3/rtpkeyhashtable.h:145-164 | The doubly linked list without one node is again doubly linked with right ends, and the chains are untouched |
| `HashTables.HashTable.DeleteCurrentElement` | ConsoleApplication-RTPVoice/ConsoleApplication-RTPVoice/lib/jrtplib/include/jrtplib3/rtpkeyhashtable.h:119-173 | Removes just the entry under the cursor, moves to its successor, releases that node and no other, keeps the whole heap invariant |
| `HashTables.HashTable.DeleteElement` | ConsoleApplication-RTPVoice/ConsoleApplication-RTPVoice/lib/jrtplib/include/jrtplib3/rtpkeyhashtable.h:306-315 | Does and answers what the ordered table does for this key; live plus released nodes stay the same |
| `HashTables.HashTable.ReleaseAll` | ConsoleApplication-RTPVoice/ConsoleApplication-RTPVoice/lib/jrtplib/include/jrtplib3/rtpkeyhashtable.h:244-250 | The walk reads each successor before its node is released and releases every live node once |
| `HashTables.HashTable.Clear` | ConsoleApplication-RTPVoice/ConsoleApplication-RTPVoice/lib/jrtplib/include/jrtplib3/rtpkeyhashtable.h:236-253 | Empties the table, releases every node, leaves the cursor variable as it was |
| `HashTables.HashTable.LinkIntoChain` | ConsoleApplication-RTPVoice/ConsoleApplication-RTPVoice/lib/jrtplib/include/jrtplib3/rtpkeyhashtable.h:284-288 | The new node becomes the head of a doubly linked chain |
| `HashTables.HashTable.LinkIntoList` | ConsoleApplication-RTPVoice/ConsoleApplication-RTPVoice/lib/jrtplib/include/jrtplib3/rtpkeyhashtable.h:292-302 | The new node becomes the end of the doubly linked list |
| `HashTables.HashTable.AddElement` | ConsoleApplication-RTPVoice/ConsoleApplication-RTPVoice/lib/jrtplib/include/jrtplib3/rtpkeyhashtable.h:255-304 | Appends exactly when the key is not found and a node can be had; otherwise changes nothing; never moves the cursor; creates one fresh node on success and none otherwise |
| `TableClients.Replay` | ConsoleApplication-RTPVoice/ConsoleApplication-RTPVoice/lib/jrtplib/include/jrtplib3/rtpkeyhashtable.h:53-72 | Any legal sequence of calls on the linked structure keeps the heap invariant, computes what the ordered table computes, and accounts for every node: the nodes there ever were grow by one fresh node per successful addition, and the released ones are all of these that are not listed |
| `TableClients.ReplayReference` | ConsoleApplication-RTPVoice/ConsoleApplication-RTPVoice/lib/jrtplib/include/jrtplib3/rtpkeyhashtable.h:53-72 | With lawful keys the entries, cursor and statuses of the linked structure after any legal sequence of calls are those of the insertion-ordered map without buckets |
| `TableClients.Sweep` | ConsoleApplication-RTPVoice/ConsoleApplication-RTPVoice/lib/jrtplib/include/jrtplib3/rtpkeyhashtable.h:119-173 | Deleting while iterating terminates, visits every original entry once in insertion order, leaves exactly the kept ones in order and the heap invariant intact |
| `TableClients.WalkBackwards` | ConsoleApplication-RTPVoice/ConsoleApplication-RTPVoice/lib/jrtplib/include/jrtplib3/rtpkeyhashtable.h:229-234 | From GotoLastElement on, GotoPreviousElement visits every entry once, newest first, ends on none and changes nothing else |
| `Destinations.DestinationsAreLawful` | ConsoleApplication-RTPVoice/ConsoleApplication-RTPVoice/lib/jrtplib/include/jrtplib3/rtpudpv4transmitter.h:236-240 | Two IPv4 destinations are the same if and only if address and RTP port are, although == compares in network order; same destinations have equal hash indices, all in range |
| `Destinations.DestinationsArePairs` | ConsoleApplication-RTPVoice/ConsoleApplication-RTPVoice/lib/jrtplib/include/jrtplib3/rtpipv4destination.h:81-86 | The destination set is a set of pairs of address and RTP port: a destination is found, and an addition refused, exactly when the pair is stored; a new pair is appended |
| `Destinations.BucketsAreRemainders` | ConsoleApplication-RTPVoice/ConsoleApplication-RTPVoice/lib/jrtplib/include/jrtplib3/rtpudpv4transmitter.h:239 | Addresses, and likewise SSRCs, share a bucket exactly when they differ by a multiple of 8317 |
| `Destinations.SourcesAreLawful` | ConsoleApplication-RTPVoice/ConsoleApplication-RTPVoice/lib/jrtplib/include/jrtplib3/rtpsources.h:52-56 | SSRC keys are the same exactly when the SSRCs are, and satisfy the hypotheses of the refinement |
| `Destinations.RtcpPortIsIgnored` | ConsoleApplication-RTPVoice/ConsoleApplication-RTPVoice/lib/jrtplib/include/jrtplib3/rtpipv4destination.h:81-86 | A destination that differs from a stored one only in the RTCP port is refused as present, and deleting it removes the stored one |
| `SdesFormat.ChunkSize` | ConsoleApplication-RTPVoice/ConsoleApplication-RTPVoice/lib/jrtplib/include/jrtplib3/rtcpsdespacket.h:184-196 | The sum of the reader (SSRC, items, null octet, rounded up) and that of the builder both equal the length of the chunk encoded by section 6.5 of RFC 3550 |
| `Bytes.NetworkByteOrder` | ConsoleApplication-RTPVoice/ConsoleApplication-RTPVoice/lib/jrtplib/include/jrtplib3/rtcpsdespacket.h:202-210 | Words are written and read with the most significant octet first |
| `SdesFormat.PacketHeader` | ConsoleApplication-RTPVoice/ConsoleApplication-RTPVoice/lib/jrtplib/include/jrtplib3/rtpdefines.h:52 | The encoded packet has version 2, no padding, its source count, packet type 202 and its length in 32-bit words minus one |
| `SdesFormat.ItemsAreUnique` | ConsoleApplication-RTPVoice/ConsoleApplication-RTPVoice/lib/jrtplib/include/jrtplib3/rtcpsdespacket.h:187-192 | Two item lists with equal bytes up to the terminator are equal |
| `SdesFormat.ChunksAreUnique` | ConsoleApplication-RTPVoice/ConsoleApplication-RTPVoice/lib/jrtplib/include/jrtplib3/rtcpsdespacket.h:162-200 | Chunk lists with equal encodings are equal |
| `SdesFormat.PacketsAreUnique` | ConsoleApplication-RTPVoice/ConsoleApplication-RTPVoice/lib/jrtplib/include/jrtplib3/rtcpsdespacket.h:162-200 | No two chunk lists share an encoded packet |
| `SdesLayout.ReadsStayInTheChunk` | ConsoleApplication-RTPVoice/ConsoleApplication-RTPVoice/lib/jrtplib/include/jrtplib3/rtcpsdespacket.h:225-244 | Item header, length and data that the iteration reads are those of the item and lie inside its chunk; past the last item lies a null octet of the same chunk |
| `SdesLayout.StepOverItem` | ConsoleApplication-RTPVoice/ConsoleApplication-RTPVoice/lib/jrtplib/include/jrtplib3/rtcpsdespacket.h:236-242 | Adding header size and the length octet that is read leads to the next item, or to the terminator exactly after the last one |
| `SdesLayout.SsrcAt` | ConsoleApplication-RTPVoice/ConsoleApplication-RTPVoice/lib/jrtplib/include/jrtplib3/rtcpsdespacket.h:202-210 | The first word of a chunk is its SSRC |
| `SdesItems.PrivSplitsTheItem` | ConsoleApplication-RTPVoice/ConsoleApplication-RTPVoice/lib/jrtplib/include/jrtplib3/rtcpsdespacket.h:304-379 | Length octet, prefix and value make up the PRIV item: 1 + prefix length + value length is the item length |
| `SdesItems.PrivRoundTrip` | ConsoleApplication-RTPVoice/ConsoleApplication-RTPVoice/lib/jrtplib/include/jrtplib3/rtcpsdespacket.h:304-379 | Every prefix and value of together at most 254 octets come back from their PRIV item |
| `SdesItems.PrefixLengthAt` | ConsoleApplication-RTPVoice/ConsoleApplication-RTPVoice/lib/jrtplib/include/jrtplib3/rtcpsdespacket.h:310-319 | The prefix length of a proper PRIV item, 0 for every other item and for one whose prefix length leaves no room |
| `SdesItems.PrefixDataAt` | ConsoleApplication-RTPVoice/ConsoleApplication-RTPVoice/lib/jrtplib/include/jrtplib3/rtcpsdespacket.h:328-339 | Points to the prefix inside the item, null exactly when there is none |
| `SdesItems.ValueLengthAt` | ConsoleApplication-RTPVoice/ConsoleApplication-RTPVoice/lib/jrtplib/include/jrtplib3/rtcpsdespacket.h:348-357 | The value length of a proper PRIV item, 0 otherwise |
| `SdesItems.ValueDataAt` | ConsoleApplication-RTPVoice/ConsoleApplication-RTPVoice/lib/jrtplib/include/jrtplib3/rtcpsdespacket.h:366-378 | Points to the value inside the item, null exactly when there is none |
| `SdesPackets.RTCPSDESPacket.GetChunkCount` | ConsoleApplication-RTPVoice/ConsoleApplication-RTPVoice/lib/jrtplib/include/jrtplib3/rtcpsdespacket.h:154-160 | The number of encoded chunks, 0 for an unknown format |
| `SdesPackets.RTCPSDESPacket.GotoFirstChunk` | ConsoleApplication-RTPVoice/ConsoleApplication-RTPVoice/lib/jrtplib/include/jrtplib3/rtcpsdespacket.h:162-173 | Succeeds exactly when there are chunks and then is on the first; otherwise on none |
| `SdesPackets.RTCPSDESPacket.WalkItems` | ConsoleApplication-RTPVoice/ConsoleApplication-RTPVoice/lib/jrtplib/include/jrtplib3/rtcpsdespacket.h:184-192 | The loop over item headers ends at the terminator of the chunk |
| `SdesPackets.RTCPSDESPacket.GotoNextChunk` | ConsoleApplication-RTPVoice/ConsoleApplication-RTPVoice/lib/jrtplib/include/jrtplib3/rtcpsdespacket.h:175-200 | Moves by exactly the encoded length of the current chunk to the next one; on the last chunk or on none nothing changes |
| `SdesPackets.RTCPSDESPacket.GetChunkSSRC` | ConsoleApplication-RTPVoice/ConsoleApplication-RTPVoice/lib/jrtplib/include/jrtplib3/rtcpsdespacket.h:202-210 | The SSRC of the current chunk, 0 without one |
| `SdesPackets.RTCPSDESPacket.GotoFirstItem` | ConsoleApplication-RTPVoice/ConsoleApplication-RTPVoice/lib/jrtplib/include/jrtplib3/rtcpsdespacket.h:212-223 | Succeeds exactly when the chunk has items and then is on the first |
| `SdesPackets.RTCPSDESPacket.GotoNextItem` | ConsoleApplication-RTPVoice/ConsoleApplication-RTPVoice/lib/jrtplib/include/jrtplib3/rtcpsdespacket.h:225-244 | Succeeds exactly when there is a next item and then is on it; otherwise the current item stays |
| `SdesPackets.RTCPSDESPacket.GetItemType` | ConsoleApplication-RTPVoice/ConsoleApplication-RTPVoice/lib/jrtplib/include/jrtplib3/rtcpsdespacket.h:246-277 | CNAME, NAME, EMAIL, PHONE, LOC, TOOL, NOTE or PRIV exactly for an item with the id of section 6.5 of RFC 3550, Unknown for any other id, None exactly without an item |
| `SdesItems.TypesOfIds` | ConsoleApplication-RTPVoice/ConsoleApplication-RTPVoice/lib/jrtplib/include/jrtplib3/rtcpsdespacket.h:253-276 | Which id has which type, both ways |
| `SdesPackets.RTCPSDESPacket.GetItemLength` | ConsoleApplication-RTPVoice/ConsoleApplication-RTPVoice/lib/jrtplib/include/jrtplib3/rtcpsdespacket.h:279-289 | The length of the current item, 0 without one |
| `SdesPackets.RTCPSDESPacket.GetItemData` | ConsoleApplication-RTPVoice/ConsoleApplication-RTPVoice/lib/jrtplib/include/jrtplib3/rtcpsdespacket.h:291-301 | Points to the bytes of the current item, all before the end of its chunk; null without one |
| `SdesPackets.RTCPSDESPacket.GetPRIVPrefixLength` | ConsoleApplication-RTPVoice/ConsoleApplication-RTPVoice/lib/jrtplib/include/jrtplib3/rtcpsdespacket.h:304-320 | Length of the prefix of the current item if it is a proper PRIV item, else 0 |
| `SdesPackets.RTCPSDESPacket.GetPRIVPrefixData` | ConsoleApplication-RTPVoice/ConsoleApplication-RTPVoice/lib/jrtplib/include/jrtplib3/rtcpsdespacket.h:322-340 | The prefix of the current PRIV item, inside its chunk; null exactly when there is none |
| `SdesPackets.RTCPSDESPacket.GetPRIVValueLength` | ConsoleApplication-RTPVoice/ConsoleApplication-RTPVoice/lib/jrtplib/include/jrtplib3/rtcpsdespacket.h:342-358 | Length of the value of the current item if it is a proper PRIV item, else 0 |
| `SdesPackets.RTCPSDESPacket.GetPRIVValueData` | ConsoleApplication-RTPVoice/ConsoleApplication-RTPVoice/lib/jrtplib/include/jrtplib3/rtcpsdespacket.h:360-379 | The value of the current PRIV item, inside its chunk; null exactly when there is none |
| `SdesReader.ReadItems` | ConsoleApplication-RTPVoice/ConsoleApplication-RTPVoice/lib/jrtplib/include/jrtplib3/rtcpsdespacket.h:212-244 | The item iteration yields every item of the chunk once, in order |
| `SdesReader.ReadPacket` | ConsoleApplication-RTPVoice/ConsoleApplication-RTPVoice/lib/jrtplib/include/jrtplib3/rtcpsdespacket.h:162-301 | The nested iteration yields exactly the chunks and items that were encoded, in order; nothing for an unknown format |
| `SdesReader.RoundTrip` | ConsoleApplication-RTPVoice/ConsoleApplication-RTPVoice/lib/jrtplib/include/jrtplib3/rtcpsdespacket.h:162-301 | Encoding by section 6.5 of RFC 3550 and iterating gives back every SSRC, every value and, for the eight ids the standard defines, every id; other ids come back as Unknown |
| `SdesReader.SeenDeterminesChunks` | ConsoleApplication-RTPVoice/ConsoleApplication-RTPVoice/lib/jrtplib/include/jrtplib3/rtcpsdespacket.h:246-277 | For the ids the standard defines nothing is lost in item types |
| `Packing.GreedyPacks` | ConsoleApplication-RTPVoice/ConsoleApplication-RTPVoice/lib/jrtplib/include/jrtplib3/rtcpcompoundpacketbuilder.h:186-191 | Splitting n blocks 31 to a packet uses n/31 packets rounded up, all full but the last, n blocks in all |
| `Packing.GreedyIsLeast` | ConsoleApplication-RTPVoice/ConsoleApplication-RTPVoice/lib/jrtplib/include/jrtplib3/rtcpcompoundpacketbuilder.h:186-191 | No split into packets of 1 to 31 uses fewer packets |
| `Packing.ReportSize` | ConsoleApplication-RTPVoice/ConsoleApplication-RTPVoice/lib/jrtplib/include/jrtplib3/rtcpcompoundpacketbuilder.h:184-195 | The closed form is the summed length of the greedily filled packets, the first an SR if asked, the rest RRs |
| `Packing.ReportIsAligned` | ConsoleApplication-RTPVoice/ConsoleApplication-RTPVoice/lib/jrtplib/include/jrtplib3/rtcpcompoundpacketbuilder.h:174-196 | The size is a multiple of 4, also without blocks |
| `Packing.ReportGrows` | ConsoleApplication-RTPVoice/ConsoleApplication-RTPVoice/lib/jrtplib/include/jrtplib3/rtcpcompoundpacketbuilder.h:198-211 | One more block adds 24 bytes, or 32 with a new packet |
| `Packing.ReportIsLeast` | ConsoleApplication-RTPVoice/ConsoleApplication-RTPVoice/lib/jrtplib/include/jrtplib3/rtcpcompoundpacketbuilder.h:174-196 | No split of the blocks over report packets takes fewer bytes |
| `Packing.PacketsSize` | ConsoleApplication-RTPVoice/ConsoleApplication-RTPVoice/lib/jrtplib/include/jrtplib3/rtcpcompoundpacketbuilder.h:314-321 | The closed form for sources is the summed length of packets greedily filled with 31 chunks each |
| `Packing.GrownSourceSize` | ConsoleApplication-RTPVoice/ConsoleApplication-RTPVoice/lib/jrtplib/include/jrtplib3/rtcpcompoundpacketbuilder.h:247-256 | The size of a source after an item of given length, which is not smaller |
| `Packing.WithItemSize` | ConsoleApplication-RTPVoice/ConsoleApplication-RTPVoice/lib/jrtplib/include/jrtplib3/rtcpcompoundpacketbuilder.h:325-344 | An item changes the size of the last source only and no packet boundary |
| `Packing.WithSourceSize` | ConsoleApplication-RTPVoice/ConsoleApplication-RTPVoice/lib/jrtplib/include/jrtplib3/rtcpcompoundpacketbuilder.h:346-368 | A source without items adds 8 bytes and perhaps a packet header |
| `Packing.SourceBytesIsChunkBytes` | ConsoleApplication-RTPVoice/ConsoleApplication-RTPVoice/lib/jrtplib/include/jrtplib3/rtcpcompoundpacketbuilder.h:236-245 | A source of encoded items has the bytes of the chunk of section 6.5 of RFC 3550 |
| `Packing.BuilderSizeIsReaderStep` | ConsoleApplication-RTPVoice/ConsoleApplication-RTPVoice/lib/jrtplib/include/jrtplib3/rtcpcompoundpacketbuilder.h:236-245 | The size of a source equals the distance the reader moves over its encoded chunk |
| `Packing.SdesBytesIsEncodedSize` | ConsoleApplication-RTPVoice/ConsoleApplication-RTPVoice/lib/jrtplib/include/jrtplib3/rtcpcompoundpacketbuilder.h:305-323 | The announced size equals the total length of the SDES packets when the chunks are encoded 31 to a packet |
| `SdesBuild.BuildChunks` | ConsoleApplication-RTPVoice/ConsoleApplication-RTPVoice/lib/jrtplib/include/jrtplib3/rtcpcompoundpacketbuilder.h:258-303 | Any chunks, added with AddSSRC and then AddItem for each item, become sources in the same order with the same SSRCs and items; their bytes are the chunks of section 6.5 of RFC 3550, and the announced size is that of the packets holding them |
| `SdesBuild.SourcesBytesIsChunksBytes` | ConsoleApplication-RTPVoice/ConsoleApplication-RTPVoice/lib/jrtplib/include/jrtplib3/rtcpcompoundpacketbuilder.h:258-303 | The bytes of the sources are the encoded chunks that the reader reads back |
| `CompoundBuilder.Report.NeededBytes` | ConsoleApplication-RTPVoice/ConsoleApplication-RTPVoice/lib/jrtplib/include/jrtplib3/rtcpcompoundpacketbuilder.h:174-196 | The size of the greedily filled report packets for every number of blocks, 0 when not started; a multiple of 4 |
| `CompoundBuilder.Report.NeededBytesWithExtraReportBlock` | ConsoleApplication-RTPVoice/ConsoleApplication-RTPVoice/lib/jrtplib/include/jrtplib3/rtcpcompoundpacketbuilder.h:198-211 | Exactly the size with one block more, larger than that of a started report now |
| `CompoundBuilder.Report.Clear` | ConsoleApplication-RTPVoice/ConsoleApplication-RTPVoice/lib/jrtplib/include/jrtplib3/rtcpcompoundpacketbuilder.h:161-172 | Back to the report that is not started |
| `CompoundBuilder.SDESSource.NeededBytes` | ConsoleApplication-RTPVoice/ConsoleApplication-RTPVoice/lib/jrtplib/include/jrtplib3/rtcpcompoundpacketbuilder.h:236-245 | The length of the encoded chunk of the source |
| `CompoundBuilder.SDESSource.NeededBytesWithExtraItem` | ConsoleApplication-RTPVoice/ConsoleApplication-RTPVoice/lib/jrtplib/include/jrtplib3/rtcpcompoundpacketbuilder.h:247-256 | The length of the encoded chunk after any item of that length is added |
| `CompoundBuilder.SDESSource.AddItem` | ConsoleApplication-RTPVoice/ConsoleApplication-RTPVoice/lib/jrtplib/include/jrtplib3/rtcpcompoundpacketbuilder.h:258-263 | Appends the item and keeps the item total right |
| `CompoundBuilder.SDES.AddSSRC` | ConsoleApplication-RTPVoice/ConsoleApplication-RTPVoice/lib/jrtplib/include/jrtplib3/rtcpcompoundpacketbuilder.h:286-295 | Appends a source with the given SSRC and no items and makes it the current one; nothing changes when there is no memory |
| `CompoundBuilder.SDES.AddItem` | ConsoleApplication-RTPVoice/ConsoleApplication-RTPVoice/lib/jrtplib/include/jrtplib3/rtcpcompoundpacketbuilder.h:297-303 | Appends the item to the last source and touches no other; refused without a source |
| `CompoundBuilder.SDES.NeededBytes` | ConsoleApplication-RTPVoice/ConsoleApplication-RTPVoice/lib/jrtplib/include/jrtplib3/rtcpcompoundpacketbuilder.h:305-323 | The total length of the greedily filled SDES packets |
| `CompoundBuilder.SDES.NeededBytesWithExtraItem` | ConsoleApplication-RTPVoice/ConsoleApplication-RTPVoice/lib/jrtplib/include/jrtplib3/rtcpcompoundpacketbuilder.h:325-344 | With a source, exactly the size after AddItem of any such item; 0 without one |
| `CompoundBuilder.SDES.NeededBytesWithExtraSource` | ConsoleApplication-RTPVoice/ConsoleApplication-RTPVoice/lib/jrtplib/include/jrtplib3/rtcpcompoundpacketbuilder.h:346-368 | Exactly the size after AddSSRC if and only if there is a source already; 0 otherwise |
| `CompoundBuilder.SDES.Clear` | ConsoleApplication-RTPVoice/ConsoleApplication-RTPVoice/lib/jrtplib/include/jrtplib3/rtcpcompoundpacketbuilder.h:277-284 | No sources; the stale position of the current source is harmless |
| `GuardedBuild.ForecastIsExactIff` | ConsoleApplication-RTPVoice/ConsoleApplication-RTPVoice/lib/jrtplib/include/jrtplib3/rtcpcompoundpacketbuilder.h:346-353 | The size announced for an addition (see Announced) is the size after it, except for the first source, which is forecast 12 bytes short |
| `GuardedBuild.AnswersAre` | ConsoleApplication-RTPVoice/ConsoleApplication-RTPVoice/lib/jrtplib/include/jrtplib3/rtcpcompoundpacketbuilder.h:53-57 | An addition is made if and only if it is possible and fits (a first source if the packet fits without it); which error answers anything else, and that it changes nothing |
| `GuardedBuild.AdditionsGrow` | ConsoleApplication-RTPVoice/ConsoleApplication-RTPVoice/lib/jrtplib/include/jrtplib3/rtcpcompoundpacketbuilder.h:174-368 | No addition makes the packet smaller |
| `GuardedBuild.StepStaysWithinIff` | ConsoleApplication-RTPVoice/ConsoleApplication-RTPVoice/lib/jrtplib/include/jrtplib3/rtcpcompoundpacketbuilder.h:53-57 | One guarded addition keeps the size within the maximum if and only if it is not a first source with fewer than 12 bytes of room |
| `GuardedBuild.StepStaysBounded` | ConsoleApplication-RTPVoice/ConsoleApplication-RTPVoice/lib/jrtplib/include/jrtplib3/rtcpcompoundpacketbuilder.h:53-57 | Over the maximum by at most 12 bytes, with a source nothing gets over it, and nothing is added to a packet that is over it |
| `GuardedBuild.RunStaysBounded` | ConsoleApplication-RTPVoice/ConsoleApplication-RTPVoice/lib/jrtplib/include/jrtplib3/rtcpcompoundpacketbuilder.h:53-57 | No run of guarded additions exceeds the maximum by more than 12 bytes |
| `GuardedBuild.RunStaysWithin` | ConsoleApplication-RTPVoice/ConsoleApplication-RTPVoice/lib/jrtplib/include/jrtplib3/rtcpcompoundpacketbuilder.h:53-57 | Once there is a source, no run exceeds the maximum |
| `GuardedBuild.OvershootIsFinal` | ConsoleApplication-RTPVoice/ConsoleApplication-RTPVoice/lib/jrtplib/include/jrtplib3/rtcpcompoundpacketbuilder.h:53-57 | A packet over the maximum admits nothing more |
| `GuardedBuild.RunExceedsIff` | ConsoleApplication-RTPVoice/ConsoleApplication-RTPVoice/lib/jrtplib/include/jrtplib3/rtcpcompoundpacketbuilder.h:53-57 | A run ends over the maximum if and only if it adds a first source with fewer than 12 bytes of room somewhere |
| `GuardedBuild.FirstSourceOvershoots` | ConsoleApplication-RTPVoice/ConsoleApplication-RTPVoice/lib/jrtplib/include/jrtplib3/rtcpcompoundpacketbuilder.h:346-353 | A run that starts within a maximum of 600 bytes and ends with 604 |
| `GuardedBuild.Announced` | ConsoleApplication-RTPVoice/ConsoleApplication-RTPVoice/lib/jrtplib/include/jrtplib3/rtcpcompoundpacketbuilder.h:174-368 | What Report and SDES announce together for a packet after an addition is the forecast of the value they stand for |
| `GuardedBuild.Append` | ConsoleApplication-RTPVoice/ConsoleApplication-RTPVoice/lib/jrtplib/include/jrtplib3/rtcpcompoundpacketbuilder.h:258-303 | Adds exactly the block, item or source given, to the end of the blocks, of the last source, or of the sources |
| `GuardedBuild.Admit` | ConsoleApplication-RTPVoice/ConsoleApplication-RTPVoice/lib/jrtplib/include/jrtplib3/rtcpcompoundpacketbuilder.h:53-57 | Comparing the announced size with the maximum and then adding to the objects does what one guarded addition does to the value |
| `GuardedBuild.AdmitAll` | ConsoleApplication-RTPVoice/ConsoleApplication-RTPVoice/lib/jrtplib/include/jrtplib3/rtcpcompoundpacketbuilder.h:53-57 | Any sequence of guarded additions on Report and SDES is the run on the value; the size they then announce is at most 12 bytes over the maximum, and over it exactly if the run adds a first source without room for it |
| `ReportFormat.LostPacketCountEncodes` | ConsoleApplication-RTPVoice/ConsoleApplication-RTPVoice/lib/jrtplib/include/jrtplib3/rtcpsrpacket.h:205-215 | Every three octets are the 24 bit two's complement encoding of the number read from them |
| `ReportFormat.LostPacketCountInverts` | ConsoleApplication-RTPVoice/ConsoleApplication-RTPVoice/lib/jrtplib/include/jrtplib3/rtcprrpacket.h:159-169 | Every number from -2^23 to 2^23-1 is read back from its encoding |
| `ReportFormat.SignExtension` | ConsoleApplication-RTPVoice/ConsoleApplication-RTPVoice/lib/jrtplib/include/jrtplib3/rtcpsrpacket.h:209-214 | The octets are read most significant first, and bit 23 is the sign |
| `ReportFormat.BlockReadsBack` | ConsoleApplication-RTPVoice/ConsoleApplication-RTPVoice/lib/jrtplib/include/jrtplib3/rtcpsrpacket.h:189-247 | All fields of a report block come back from its 24 octets |
| `ReportPackets.ReportReadsBack` | ConsoleApplication-RTPVoice/ConsoleApplication-RTPVoice/lib/jrtplib/include/jrtplib3/rtcpsrpacket.h:133-247 | Count, sender SSRC, sender information and every block of an encoded report come back; the slots are disjoint and within the size that Report.NeededBytes returns for that many blocks |
| `ReportPackets.UnknownFormatReadsZero` | ConsoleApplication-RTPVoice/ConsoleApplication-RTPVoice/lib/jrtplib/include/jrtplib3/rtcpsrpacket.h:132-247 | Every accessor returns 0 for a packet of unknown format |
| `Clock.ScaledQuotient` | ConsoleApplication-RTPVoice/ConsoleApplication-RTPVoice/lib/jrtplib/include/jrtplib3/rtptimeutilities.h:208-213 | Whole seconds and rest scaled separately add up to the floor of the full product |
| `Clock.CalculatesFloorIff` | ConsoleApplication-RTPVoice/ConsoleApplication-RTPVoice/lib/jrtplib/include/jrtplib3/rtptimeutilities.h:206-214 | The result is floor(a * 10^6 / f) if and only if that fits 64 bits and the scaled remainder does not wrap |
| `Clock.WhereTheFloorIsLost` | ConsoleApplication-RTPVoice/ConsoleApplication-RTPVoice/lib/jrtplib/include/jrtplib3/rtptimeutilities.h:206-214 | With a frequency of 2^62 a count of half a second gives 0 and not 500000 |
| `Clock.CalculatesFloor` | ConsoleApplication-RTPVoice/ConsoleApplication-RTPVoice/lib/jrtplib/include/jrtplib3/rtptimeutilities.h:206-214 | For frequencies up to floor((2^64-1)/10^6) nothing wraps and the result is the exact floor, whatever the count |
| `Clock.MicrosecondsAreMonotone` | ConsoleApplication-RTPVoice/ConsoleApplication-RTPVoice/lib/jrtplib/include/jrtplib3/rtptimeutilities.h:206-214 | Counts that do not decrease give microseconds that do not decrease |
| `Clock.SystemClock.CurrentTime` | ConsoleApplication-RTPVoice/ConsoleApplication-RTPVoice/lib/jrtplib/include/jrtplib3/rtptimeutilities.h:216-246 | The first call fixes wall clock, frequency and counter origin and returns the Unix time of the file time; every call returns wall clock plus counted difference in wrapping arithmetic |
| `Clock.WallClockIff` | ConsoleApplication-RTPVoice/ConsoleApplication-RTPVoice/lib/jrtplib/include/jrtplib3/rtptimeutilities.h:234-236 | The wall clock is the microseconds since 1970 of a file time that counts from 1601, if and only if that is not negative |
| `Clock.UnixTimeIff` | ConsoleApplication-RTPVoice/ConsoleApplication-RTPVoice/lib/jrtplib/include/jrtplib3/rtptimeutilities.h:234-236 | The same for every Unix time, whatever is left over below a microsecond |
| `Clock.FirstReading` | ConsoleApplication-RTPVoice/ConsoleApplication-RTPVoice/lib/jrtplib/include/jrtplib3/rtptimeutilities.h:230-244 | The first call returns the wall clock |
| `Clock.ReadingIsElapsedIff` | ConsoleApplication-RTPVoice/ConsoleApplication-RTPVoice/lib/jrtplib/include/jrtplib3/rtptimeutilities.h:240-244 | The time is wall clock plus elapsed microseconds if and only if that sum is a 64 bit number, also when the difference wraps |
| `Clock.ReadingsAreMonotone` | ConsoleApplication-RTPVoice/ConsoleApplication-RTPVoice/lib/jrtplib/include/jrtplib3/rtptimeutilities.h:216-246 | For a counter that does not decrease and sums in range, readings do not decrease, are exact, and the difference never wraps |
| `Clock.CurrentTimes` | ConsoleApplication-RTPVoice/ConsoleApplication-RTPVoice/lib/jrtplib/include/jrtplib3/rtptimeutilities.h:216-246 | Calling CurrentTime any number of times on a new clock, with such a counter, returns times that never decrease, each the Unix time of the first file time plus the whole microseconds counted |
| `RtpTimes.PartsRoundTripIff` | ConsoleApplication-RTPVoice/ConsoleApplication-RTPVoice/lib/jrtplib/include/jrtplib3/rtptimeutilities.h:142-202 | Seconds and microseconds come back from a time if and only if the microseconds are less than a second |
| `RtpTimes.MicroSecondsError` | ConsoleApplication-RTPVoice/ConsoleApplication-RTPVoice/lib/jrtplib/include/jrtplib3/rtptimeutilities.h:181-202 | The rounded microseconds are off by at most a half, by less than one where they are clamped to 999999 |
| `RtpTimes.TimeFromPartsIff` | ConsoleApplication-RTPVoice/ConsoleApplication-RTPVoice/lib/jrtplib/include/jrtplib3/rtptimeutilities.h:142-202 | A time comes back from its seconds and microseconds to within a microsecond if and only if it is not between -1 and 0 (up to rounding to 0) |
| `RtpTimes.SignIsLost` | ConsoleApplication-RTPVoice/ConsoleApplication-RTPVoice/lib/jrtplib/include/jrtplib3/rtptimeutilities.h:176-202 | Half a second before the epoch becomes half a second after it |
| `RtpTimes.NTPOfParts` | ConsoleApplication-RTPVoice/ConsoleApplication-RTPVoice/lib/jrtplib/include/jrtplib3/rtptimeutilities.h:336-350 | The NTP time of a whole number of microseconds, with seconds that wrap |
| `RtpTimes.NTPOf1970` | ConsoleApplication-RTPVoice/ConsoleApplication-RTPVoice/lib/jrtplib/include/jrtplib3/rtptimeutilities.h:157-174 | The start of 1970 is 70 years with 17 leap days in NTP time, both ways |
| `RtpTimes.NTPRoundTrip` | ConsoleApplication-RTPVoice/ConsoleApplication-RTPVoice/lib/jrtplib/include/jrtplib3/rtptimeutilities.h:157-174 | From NTP and back keeps the seconds and lowers the fraction by at most 4295; times before 1970 become the start of 1970 |
| `RtpTimes.FractionIsExactIff` | ConsoleApplication-RTPVoice/ConsoleApplication-RTPVoice/lib/jrtplib/include/jrtplib3/rtptimeutilities.h:345-347 | The fraction of a number of microseconds is exact if and only if 15625 divides it |
| `RtpTimes.TimeRoundTrip` | ConsoleApplication-RTPVoice/ConsoleApplication-RTPVoice/lib/jrtplib/include/jrtplib3/rtptimeutilities.h:336-350 | Whole microseconds lose 0 or 1 on the way to NTP and back, 0 exactly for multiples of 15625; from 2^32 - 2208988800 seconds on the start of 1970 comes back |
| `RtpTimes.RealTimeRoundTrip` | ConsoleApplication-RTPVoice/ConsoleApplication-RTPVoice/lib/jrtplib/include/jrtplib3/rtptimeutilities.h:336-350 | Every time comes back from NTP earlier by less than two microseconds, as long as the seconds do not wrap; from then on comes back the start of 1970 |
| `RtpTimes.TripsDrift` | ConsoleApplication-RTPVoice/ConsoleApplication-RTPVoice/lib/jrtplib/include/jrtplib3/rtptimeutilities.h:157-174 | k conversions to NTP and back lose one microsecond each, down to the multiple of 15625 below |
| `RtpTimes.WaitIsExactIff` | ConsoleApplication-RTPVoice/ConsoleApplication-RTPVoice/lib/jrtplib/include/jrtplib3/rtptimeutilities.h:248-257 | The milliseconds waited are the floor modulo 2^32, hence exact if and only if that is a 32 bit number; 0 for delays up to 0 |

## Left out

- HashTables.HashTable.AddElement: an element or key is not changed through the references that GetCurrentElement and GetCurrentKey return; the library's own tables have constant keys.
- CompoundBuilder.Report.NeededBytes: sizes are unbounded numbers, so a wrap-around of `size_t` is not modelled.
- CompoundBuilder.SDES.Clear: the iterator to the current source is a position, and the release of item buffers is not modelled.
- GuardedBuild.RunExceedsIff: the bodies of AddReportBlock, AddSDESSource and AddSDESNormalItem are not in the headers. Their documentation promises a refusal when the maximum would be exceeded; that they compare the forecast with the maximum is an assumption here.
- GuardedBuild.Admit: a block, item or source can always be allocated; CompoundBuilder.SDES.AddSSRC has the case where it cannot.
- SdesPackets.RTCPSDESPacket.GetChunkCount: the validating constructor is not in the header, so a packet of known format is one that holds encoded chunks; it may have other data behind them.
- ReportFormat.LostPacketCountEncodes: the shifts and ORs of the accessor are sums, since the shifted octets do not overlap.
- RtpTimes.TimeRoundTrip: rounding of `double` values is not modelled.
- Negative hash indices: the code checks an index only against the table size, so hash functions return natural numbers here.
- Memory managers: a node can be had or not; each release is of a live node.
- The constructor that takes a `double`, comparison and addition of times, and plain getters and setters: single expressions.
- The branches of CurrentTime and Wait for other systems than Windows.
- IPv6 destinations, BYE and APP packets: the same kind of accessors and keys again.
- RTPSources, RTCPScheduler, RTPSourceStats, RTPPacket, RTCPPacketBuilder, the rest of RTCPCompoundPacketBuilder: only declared in the headers.
- Transmitters, sockets, threads, abort descriptors and the application's own classes: input and output, or declarations only.
- The JSON headers: parser, writer and values are only declared.
- Debug dumps.
