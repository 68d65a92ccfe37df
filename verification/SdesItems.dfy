/** What an SDES item's type and, for a PRIV item, its content mean. */
module SdesItems {
  import opened Bytes
  import opened SdesFormat

  datatype ItemType = None | CNAME | NAME | EMAIL | PHONE | LOC | TOOL | NOTE | PRIV | Unknown

  const RTCP_SDES_ID_CNAME: byte := 1
  const RTCP_SDES_ID_NAME: byte := 2
  const RTCP_SDES_ID_EMAIL: byte := 3
  const RTCP_SDES_ID_PHONE: byte := 4
  const RTCP_SDES_ID_LOCATION: byte := 5
  const RTCP_SDES_ID_TOOL: byte := 6
  const RTCP_SDES_ID_NOTE: byte := 7
  const RTCP_SDES_ID_PRIVATE: byte := 8

  function TypeOf(id: byte): ItemType {
    match id
    case 0 => None
    case 1 => CNAME
    case 2 => NAME
    case 3 => EMAIL
    case 4 => PHONE
    case 5 => LOC
    case 6 => TOOL
    case 7 => NOTE
    case 8 => PRIV
    case _ => Unknown
  }

  /** The types of the ids of section 6.5 of RFC 3550. */
  lemma TypesOfIds(id: byte)
    ensures TypeOf(id) == None <==> id == 0
    ensures TypeOf(id) == CNAME <==> id == RTCP_SDES_ID_CNAME
    ensures TypeOf(id) == NAME <==> id == RTCP_SDES_ID_NAME
    ensures TypeOf(id) == EMAIL <==> id == RTCP_SDES_ID_EMAIL
    ensures TypeOf(id) == PHONE <==> id == RTCP_SDES_ID_PHONE
    ensures TypeOf(id) == LOC <==> id == RTCP_SDES_ID_LOCATION
    ensures TypeOf(id) == TOOL <==> id == RTCP_SDES_ID_TOOL
    ensures TypeOf(id) == NOTE <==> id == RTCP_SDES_ID_NOTE
    ensures TypeOf(id) == PRIV <==> id == RTCP_SDES_ID_PRIVATE
    ensures TypeOf(id) == Unknown <==> id > 8
  {
  }

  /** A PRIV item whose first octet is a prefix length that leaves room for the prefix. */
  predicate IsPriv(item: Item) {
    item.id == RTCP_SDES_ID_PRIVATE && |item.value| >= 1 && item.value[0] as int <= |item.value| - 1
  }

  function PrivPrefix(item: Item): seq<byte>
    requires IsPriv(item)
  {
    item.value[1..1 + item.value[0] as int]
  }

  function PrivValue(item: Item): seq<byte>
    requires IsPriv(item)
  {
    item.value[1 + item.value[0] as int..]
  }

  function PrivItem(prefix: seq<byte>, value: seq<byte>): Item
    requires |prefix| + |value| <= 254
  {
    Item(RTCP_SDES_ID_PRIVATE, [|prefix| as byte] + prefix + value)
  }

  /** The split loses nothing: length octet, prefix and value make up the item. */
  lemma PrivSplitsTheItem(item: Item)
    requires IsPriv(item)
    ensures item.value == [item.value[0]] + PrivPrefix(item) + PrivValue(item)
    ensures 1 + |PrivPrefix(item)| + |PrivValue(item)| == |item.value|
    ensures ValidItem(item) ==> |PrivPrefix(item)| + |PrivValue(item)| <= 254 &&
                                PrivItem(PrivPrefix(item), PrivValue(item)) == item
  {
    assert item.value == [item.value[0]] + item.value[1..];
  }

  lemma PrivRoundTrip(prefix: seq<byte>, value: seq<byte>)
    requires |prefix| + |value| <= 254
    ensures var item := PrivItem(prefix, value);
            ValidItem(item) && IsPriv(item) && PrivPrefix(item) == prefix && PrivValue(item) == value
  {
    var v := [|prefix| as byte] + prefix + value;
    assert v[1..1 + |prefix|] == prefix && v[1 + |prefix|..] == value;
  }

  /** A pointer into the packet's data, or 0. */
  datatype Pointer = Null | At(offset: nat)

  /** If it is not null, the pointer is to these bytes, which lie before `end`. */
  ghost predicate PointsTo(data: seq<byte>, p: Pointer, end: nat, bytes: seq<byte>) {
    p.At? ==> p.offset + |bytes| < end <= |data| && data[p.offset..p.offset + |bytes|] == bytes
  }

  /** What lies at offset `o`, before `end`: the header and value of `item`, or else a null octet. */
  ghost predicate LiesAt(data: seq<byte>, o: nat, end: nat, present: bool, item: Item) {
    && o < end <= |data|
    && (if present then
          && ValidItem(item) && o + 2 + |item.value| < end
          && data[o] == item.id && data[o + 1] == |item.value|
          && data[o + 2..o + 2 + |item.value|] == item.value
        else data[o] == 0)
  }

  /** The first octet of a value, and every slice of it, as the data shows them. */
  lemma ValueAt(data: seq<byte>, o: nat, end: nat, item: Item, a: nat, b: nat)
    requires LiesAt(data, o, end, true, item) && a <= b <= |item.value|
    ensures data[o + 2 + a..o + 2 + b] == item.value[a..b]
    ensures item.value != [] ==> data[o + 2] == item.value[0]
  {
    var value := data[o + 2..o + 2 + |item.value|];
    var t, u := value[a..b], data[o + 2 + a..o + 2 + b];
    assert |t| == |u| && forall i :: 0 <= i < |u| ==> t[i] == u[i];
    assert item.value != [] ==> data[o + 2] == value[0];
  }

  function PrefixLengthAt(data: seq<byte>, o: nat, ghost end: nat, ghost present: bool, ghost item: Item): (n: nat)
    requires LiesAt(data, o, end, present, item)
    ensures n == if present && IsPriv(item) then |PrivPrefix(item)| else 0
  {
    if data[o] != RTCP_SDES_ID_PRIVATE then 0
    else if data[o + 1] == 0 then 0
    else
      ValueAt(data, o, end, item, 0, 0);
      var prefixlength: nat := data[o + 2];
      if prefixlength > data[o + 1] as int - 1 then 0
      else prefixlength
  }

  function PrefixDataAt(data: seq<byte>, o: nat, ghost end: nat, ghost present: bool, ghost item: Item): (p: Pointer)
    requires LiesAt(data, o, end, present, item)
    ensures p.At? <==> present && IsPriv(item) && PrivPrefix(item) != []
    ensures p.At? ==> PointsTo(data, p, end, PrivPrefix(item))
  {
    if data[o] != RTCP_SDES_ID_PRIVATE then Null
    else if data[o + 1] == 0 then Null
    else
      ValueAt(data, o, end, item, 0, 0);
      var prefixlength: nat := data[o + 2];
      if prefixlength > data[o + 1] as int - 1 then Null
      else if prefixlength == 0 then Null
      else
        ValueAt(data, o, end, item, 1, 1 + prefixlength);
        At(o + 2 + 1)
  }

  function ValueLengthAt(data: seq<byte>, o: nat, ghost end: nat, ghost present: bool, ghost item: Item): (n: nat)
    requires LiesAt(data, o, end, present, item)
    ensures n == if present && IsPriv(item) then |PrivValue(item)| else 0
  {
    if data[o] != RTCP_SDES_ID_PRIVATE then 0
    else if data[o + 1] == 0 then 0
    else
      ValueAt(data, o, end, item, 0, 0);
      var prefixlength: nat := data[o + 2];
      if prefixlength > data[o + 1] as int - 1 then 0
      else data[o + 1] as int - prefixlength - 1
  }

  function ValueDataAt(data: seq<byte>, o: nat, ghost end: nat, ghost present: bool, ghost item: Item): (p: Pointer)
    requires LiesAt(data, o, end, present, item)
    ensures p.At? <==> present && IsPriv(item) && PrivValue(item) != []
    ensures p.At? ==> PointsTo(data, p, end, PrivValue(item))
  {
    if data[o] != RTCP_SDES_ID_PRIVATE then Null
    else if data[o + 1] == 0 then Null
    else
      ValueAt(data, o, end, item, 0, 0);
      var prefixlength: nat := data[o + 2];
      if prefixlength > data[o + 1] as int - 1 then Null
      else
        var valuelen: nat := data[o + 1] as int - prefixlength - 1;
        if valuelen == 0 then Null
        else
          ValueAt(data, o, end, item, 1 + prefixlength, |item.value|);
          At(o + 2 + 1 + prefixlength)
  }
}
