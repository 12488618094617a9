/** The encapsulated message: one application payload with its reliability metadata, its wire
    encoding, its decoding, and the size calculators the session uses for MTU accounting.

    Wire layout: a flag byte (reliability code in the top three bits, 0x10 when split), the payload
    length in BITS as an unsigned big-endian short, a little-endian message-index triad if reliable,
    a little-endian order-index triad and an order-channel byte if ordered or sequenced, split count
    (int), split id (unsigned short) and split index (int) if split, then the payload. */
module Encapsulated {
  import opened Wrappers
  import opened Cursor
  import opened ReliabilityCatalog

  const BITFLAG_LENGTH: int := 0x01
  const PAYLOAD_LENGTH_LENGTH: int := 0x02
  const MESSAGE_INDEX_LENGTH: int := 0x03
  const ORDER_INDEX_ORDER_CHANNEL_LENGTH: int := 0x04
  const SPLIT_COUNT_SPLIT_ID_SPLIT_INDEX_LENGTH: int := 0x0A

  const RELIABILITY_POSITION: bv8 := 5
  const FLAG_RELIABILITY: byte := 0xE0
  const FLAG_SPLIT: byte := 0x10

  /** The fields of an encapsulated message. Integer fields hold Java `int` values (the order
      channel a Java `byte`); a field the reliability does not use keeps whatever it was given. */
  datatype Message = Message(
    reliability: Reliability,
    split: bool,
    messageIndex: int,
    orderIndex: int,
    orderChannel: int,
    splitCount: int,
    splitId: int,
    splitIndex: int,
    payload: seq<byte>)

  /** A freshly constructed message: Java's default values in every field but the two given. */
  function Blank(reliability: Reliability, payload: seq<byte>): Message {
    Message(reliability, false, 0, 0, 0, 0, 0, 0, payload)
  }

  /** The flag byte: `(code << 5) | (split ? 0x10 : 0)` cut to eight bits. The code lands in
      the top three bits, so only its value modulo 8 survives, and the low four bits are zero. */
  function HeaderByte(reliability: Reliability, split: bool): (h: byte)
    ensures Unsigned(h) == (reliability.Code() % 8) * 32 + (if split then 16 else 0)
  {
    ((reliability.Code() as bv8) << RELIABILITY_POSITION) | (if split then FLAG_SPLIT else 0)
  }

  /** The reliability code carried in a flag byte: `(flags & 0xE0) >> 5`, its top three bits. */
  function HeaderCode(flags: byte): (c: int)
    ensures 0 <= c < 8
    ensures c == Unsigned(flags) / 32
  {
    Unsigned((flags & FLAG_RELIABILITY) >> RELIABILITY_POSITION)
  }

  /** The flag byte keeps the split flag and the reliability code modulo 8: codes 8 and 9
      (the ordered and sequenced reliable variants with ack receipt) come back as 0 and 1. */
  lemma HeaderRoundTrip(reliability: Reliability, split: bool)
    ensures HeaderCode(HeaderByte(reliability, split)) == reliability.Code() % 8
    ensures (HeaderByte(reliability, split) & FLAG_SPLIT != 0) == split
  {
  }

  // ---------------------------------------------------------------------------------------------
  // Encoding

  function MessageIndexField(m: Message): seq<byte> {
    if m.reliability.IsReliable() then WriteTriadLE(m.messageIndex) else []
  }

  function OrderFields(m: Message): seq<byte> {
    if m.reliability.HasOrderFields() then WriteTriadLE(m.orderIndex) + WriteUByte(m.orderChannel) else []
  }

  function SplitFields(m: Message): seq<byte> {
    if m.split then WriteInt(m.splitCount) + WriteUShort(m.splitId) + WriteInt(m.splitIndex) else []
  }

  /** `encode()`: the bytes the message appends to its buffer; the payload comes last, after at
      least the flag byte and the bit length. */
  function Encode(m: Message): (e: seq<byte>)
    ensures |e| >= BITFLAG_LENGTH + PAYLOAD_LENGTH_LENGTH + |m.payload|
    ensures e[|e| - |m.payload|..] == m.payload
  {
    [HeaderByte(m.reliability, m.split)] + WriteUShort(|m.payload| * 8)
    + MessageIndexField(m) + OrderFields(m) + SplitFields(m) + m.payload
  }

  /** `calculateSize()`: the encoded length summed from fixed field widths, without encoding. */
  function CalculateSize(m: Message): (size: int)
    ensures size >= BITFLAG_LENGTH + PAYLOAD_LENGTH_LENGTH + |m.payload|
  {
    BITFLAG_LENGTH + PAYLOAD_LENGTH_LENGTH
    + (if m.reliability.IsReliable() then MESSAGE_INDEX_LENGTH else 0)
    + (if m.reliability.HasOrderFields() then ORDER_INDEX_ORDER_CHANNEL_LENGTH else 0)
    + (if m.split then SPLIT_COUNT_SPLIT_ID_SPLIT_INDEX_LENGTH else 0)
    + |m.payload|
  }

  /** The size computed from the field widths is the length of the encoding. */
  lemma CalculateSizeIsEncodedLength(m: Message)
    ensures CalculateSize(m) == |Encode(m)|
  {
  }

  /** `calculateDummy(reliability, split, payload)`: the encoded size of a dummy message whose split
      flag is always set, whatever `split` says. */
  function CalculateDummy(reliability: Reliability, split: bool, payload: seq<byte>): (size: int)
    ensures size == 13 + (if reliability.IsReliable() then 3 else 0)
                    + (if reliability.HasOrderFields() then 4 else 0) + |payload|
  {
    var dummy := Blank(reliability, payload).(split := true);
    |Encode(dummy)|
  }

  /** `calculateDummy(reliability, split)`: the dummy size with an empty payload, that is, the
      header of a split message of this reliability. */
  function CalculateDummyHeader(reliability: Reliability, split: bool): (size: int)
    ensures size == 13 + (if reliability.IsReliable() then 3 else 0)
                    + (if reliability.HasOrderFields() then 4 else 0)
    ensures 13 <= size <= 20
  {
    CalculateDummy(reliability, split, [])
  }

  /** The `split` argument of `calculateDummy` has no effect, and the dummy measures the message
      as if it were split, whatever the caller asked for. */
  lemma CalculateDummyIgnoresSplit(reliability: Reliability, payload: seq<byte>)
    ensures CalculateDummy(reliability, false, payload) == CalculateDummy(reliability, true, payload)
    ensures CalculateDummy(reliability, false, payload)
            == CalculateSize(Blank(reliability, payload)) + SPLIT_COUNT_SPLIT_ID_SPLIT_INDEX_LENGTH
  {
  }

  /** The two-argument dummy is the three-argument one with an empty payload, and adding a payload
      adds exactly its length. */
  lemma CalculateDummyHeaderIsEmptyPayload(reliability: Reliability, split: bool, payload: seq<byte>)
    ensures CalculateDummyHeader(reliability, split) == CalculateDummy(reliability, split, [])
    ensures CalculateDummy(reliability, split, payload) == CalculateDummyHeader(reliability, split) + |payload|
  {
  }

  // ---------------------------------------------------------------------------------------------
  // Decoding

  function DecodeMessageIndex(reliability: Reliability, input: seq<byte>): Result<Parsed<int>, Error> {
    if reliability.IsReliable() then ReadTriadLE(input) else Success(Parsed(0, input))
  }

  /** The order index and order channel, when the reliability carries them. */
  function DecodeOrderFields(reliability: Reliability, input: seq<byte>): Result<Parsed<(int, int)>, Error> {
    if reliability.HasOrderFields() then
      var index :- ReadTriadLE(input);
      var channel :- ReadByte(index.rest);
      Success(Parsed((index.value, channel.value), channel.rest))
    else
      Success(Parsed((0, 0), input))
  }

  /** Split count, split id and split index, when the split flag is set. */
  function DecodeSplitFields(split: bool, input: seq<byte>): Result<Parsed<(int, int, int)>, Error> {
    if split then
      var count :- ReadInt(input);
      var id :- ReadUShort(count.rest);
      var index :- ReadInt(id.rest);
      Success(Parsed((count.value, id.value, index.value), index.rest))
    else
      Success(Parsed((0, 0, 0), input))
  }

  /** `decode()`: reads the fields the flag byte announces, then `bitLength / 8` payload bytes. */
  function Decode(input: seq<byte>): (r: Result<Parsed<Message>, Error>)
    ensures r.Success? ==> |input| >= 3 && r.value.value.reliability.Code() == HeaderCode(input[0])
    ensures r.Success? ==> r.value.value.split == (input[0] & FLAG_SPLIT != 0)
    ensures r.Success? ==> |r.value.value.payload| == FromBE(input[1..3]) / 8
  {
    var flags :- Read(input, 1);
    var code := HeaderCode(flags.value[0]);
    var split := flags.value[0] & FLAG_SPLIT != 0;
    match Lookup(code)
    case None => Failure(UnknownReliability)
    case Some(reliability) =>
      assert |flags.rest| >= 2 ==> flags.rest[..2] == input[1..3];
      DecodeBody(reliability, split, flags.rest)
  }

  /** Everything after the flag byte: the bit length, the announced fields and the payload. */
  function DecodeBody(reliability: Reliability, split: bool, input: seq<byte>): (r: Result<Parsed<Message>, Error>)
    ensures r.Success? ==> |input| >= 2 && r.value.value.reliability == reliability && r.value.value.split == split
    ensures r.Success? ==> |r.value.value.payload| == FromBE(input[..2]) / 8
  {
    var bitLength :- ReadUShort(input);
    var messageIndex :- DecodeMessageIndex(reliability, bitLength.rest);
    var order :- DecodeOrderFields(reliability, messageIndex.rest);
    var splitFields :- DecodeSplitFields(split, order.rest);
    var payload :- Read(splitFields.rest, bitLength.value / 8);
    Success(Parsed(Message(reliability, split, messageIndex.value, order.value.0, order.value.1,
                           splitFields.value.0, splitFields.value.1, splitFields.value.2, payload.value),
                   payload.rest))
  }

  // ---------------------------------------------------------------------------------------------
  // Round trip

  /** The field values a message can carry through the wire: a code that fits three bits, a
      payload whose bit length fits an unsigned short, indices that fit the masked triad, a
      Java byte channel and split fields that fit their integer widths. */
  predicate Encodable(m: Message) {
    && m.reliability.Code() < 8
    && |m.payload| < 0x2000
    && (m.reliability.IsReliable() ==> 0 <= m.messageIndex < 0x10_0000)
    && (m.reliability.HasOrderFields() ==> 0 <= m.orderIndex < 0x10_0000 && IsJavaByte(m.orderChannel))
    && (m.split ==> IsJavaInt(m.splitCount) && 0 <= m.splitId < 0x1_0000 && IsJavaInt(m.splitIndex))
  }

  /** The message as a fresh decoder sees it: fields that are not on the wire read as zero. */
  function OnWire(m: Message): Message {
    m.(messageIndex := if m.reliability.IsReliable() then m.messageIndex else 0,
       orderIndex := if m.reliability.HasOrderFields() then m.orderIndex else 0,
       orderChannel := if m.reliability.HasOrderFields() then m.orderChannel else 0,
       splitCount := if m.split then m.splitCount else 0,
       splitId := if m.split then m.splitId else 0,
       splitIndex := if m.split then m.splitIndex else 0)
  }

  lemma MessageIndexRoundTrip(m: Message, rest: seq<byte>)
    requires Encodable(m)
    ensures DecodeMessageIndex(m.reliability, MessageIndexField(m) + rest)
            == Success(Parsed(OnWire(m).messageIndex, rest))
  {
    if m.reliability.IsReliable() {
      TriadRoundTrip(m.messageIndex, rest);
    } else {
      assert MessageIndexField(m) + rest == rest;
    }
  }

  lemma OrderFieldsRoundTrip(m: Message, rest: seq<byte>)
    requires Encodable(m)
    ensures DecodeOrderFields(m.reliability, OrderFields(m) + rest)
            == Success(Parsed((OnWire(m).orderIndex, OnWire(m).orderChannel), rest))
  {
    if m.reliability.HasOrderFields() {
      var channelAndRest := WriteUByte(m.orderChannel) + rest;
      assert OrderFields(m) + rest == WriteTriadLE(m.orderIndex) + channelAndRest;
      TriadRoundTrip(m.orderIndex, channelAndRest);
      ByteOfValue(m.orderChannel);
      SignedOfWrapped(m.orderChannel, 1);
      assert channelAndRest[1..] == rest;
    } else {
      assert OrderFields(m) + rest == rest;
    }
  }

  lemma SplitFieldsRoundTrip(m: Message, rest: seq<byte>)
    requires Encodable(m)
    ensures DecodeSplitFields(m.split, SplitFields(m) + rest)
            == Success(Parsed((OnWire(m).splitCount, OnWire(m).splitId, OnWire(m).splitIndex), rest))
  {
    if m.split {
      var indexAndRest := WriteInt(m.splitIndex) + rest;
      var idAndRest := WriteUShort(m.splitId) + indexAndRest;
      assert SplitFields(m) + rest == WriteInt(m.splitCount) + idAndRest;
      IntRoundTrip(m.splitCount, idAndRest);
      UShortRoundTrip(m.splitId, indexAndRest);
      IntRoundTrip(m.splitIndex, rest);
    } else {
      assert SplitFields(m) + rest == rest;
    }
  }

  /** The part after the flag byte decodes back to the fields on the wire. */
  lemma DecodeBodyEncode(m: Message, rest: seq<byte>)
    requires Encodable(m)
    ensures DecodeBody(m.reliability, m.split,
                       WriteUShort(|m.payload| * 8) + (MessageIndexField(m) + (OrderFields(m) + (SplitFields(m) + (m.payload + rest)))))
            == Success(Parsed(OnWire(m), rest))
  {
    var afterSplit := m.payload + rest;
    var afterOrder := SplitFields(m) + afterSplit;
    var afterIndex := OrderFields(m) + afterOrder;
    var afterLength := MessageIndexField(m) + afterIndex;
    UShortRoundTrip(|m.payload| * 8, afterLength);
    assert ReadUShort(WriteUShort(|m.payload| * 8) + afterLength) == Success(Parsed(|m.payload| * 8, afterLength));
    MessageIndexRoundTrip(m, afterIndex);
    OrderFieldsRoundTrip(m, afterOrder);
    SplitFieldsRoundTrip(m, afterSplit);
    assert (|m.payload| * 8) / 8 == |m.payload|;
    assert afterSplit[..|m.payload|] == m.payload && afterSplit[|m.payload|..] == rest;
    assert Read(afterSplit, |m.payload|) == Success(Parsed(m.payload, rest));
  }

  /** Decoding an encoded message restores its reliability, split flag, the indices on the wire
      and the payload, and consumes exactly the encoding. */
  lemma DecodeEncode(m: Message, rest: seq<byte>)
    requires Encodable(m)
    ensures Decode(Encode(m) + rest) == Success(Parsed(OnWire(m), rest))
  {
    var h := HeaderByte(m.reliability, m.split);
    var body := WriteUShort(|m.payload| * 8) + (MessageIndexField(m) + (OrderFields(m) + (SplitFields(m) + (m.payload + rest))));
    EncodeParts(m, rest);
    HeaderRoundTrip(m.reliability, m.split);
    assert HeaderCode(h) == m.reliability.Code();
    LookupOfCode(m.reliability);
    DecodeBodyEncode(m, rest);
    assert ([h] + body)[0] == h && ([h] + body)[1..] == body;
  }

  /** The encoding is the flag byte followed by the body. */
  lemma EncodeParts(m: Message, rest: seq<byte>)
    ensures Encode(m) + rest
            == [HeaderByte(m.reliability, m.split)]
               + (WriteUShort(|m.payload| * 8) + (MessageIndexField(m) + (OrderFields(m) + (SplitFields(m) + (m.payload + rest)))))
  {
    Regroup6([HeaderByte(m.reliability, m.split)], WriteUShort(|m.payload| * 8), MessageIndexField(m),
             OrderFields(m), SplitFields(m), m.payload, rest);
  }

  /** Six runs and a tail, concatenated left to right, regrouped to the right. */
  lemma Regroup6(a: seq<byte>, b: seq<byte>, c: seq<byte>, d: seq<byte>, e: seq<byte>, f: seq<byte>, rest: seq<byte>)
    ensures a + b + c + d + e + f + rest == a + (b + (c + (d + (e + (f + rest)))))
  {
    calc {
      a + b + c + d + e + f + rest;
      (a + b + c + d + e) + (f + rest);
      (a + b + c + d) + (e + (f + rest));
      (a + b + c) + (d + (e + (f + rest)));
      (a + b) + (c + (d + (e + (f + rest))));
      a + (b + (c + (d + (e + (f + rest)))));
    }
  }

  /** A message whose unused fields hold their defaults comes back exactly. */
  lemma DecodeEncodeExact(m: Message, rest: seq<byte>)
    requires Encodable(m) && OnWire(m) == m
    ensures Decode(Encode(m) + rest) == Success(Parsed(m, rest))
  {
    DecodeEncode(m, rest);
  }

  /** Codes 8 and 9 do not survive the flag byte: whatever decoding makes of the rest of the
      bytes, the reliability it reports is the variant with code 0 or 1, never the original. */
  lemma AckReceiptOrderedCodesAreTruncated(m: Message, rest: seq<byte>)
    requires m.reliability.Code() >= 8
    ensures Decode(Encode(m) + rest).Success? ==>
              Decode(Encode(m) + rest).value.value.reliability.Code() == m.reliability.Code() - 8
              && Decode(Encode(m) + rest).value.value != m
  {
    var h := HeaderByte(m.reliability, m.split);
    HeaderRoundTrip(m.reliability, m.split);
    assert (Encode(m) + rest)[0] == h;
    assert HeaderCode(h) == m.reliability.Code() - 8;
  }
}
