# RakNet reliability layer — a Dafny model

This project models the per-session reliability layer of the JRakNet library, a RakNet-style
protocol over UDP. The model covers:

- the catalogue of ten delivery guarantees (`Reliability`);
- the byte cursor that reads and writes packet fields (`Packet`);
- the codec and size calculators of an encapsulated message (`EncapsulatedPacket`);
- split-message reassembly, in both package iterations of `SplitPacket`;
- fragmentation of oversized messages (`SplitPacket.splitPacket`);
- the session engine (`RakNetSession`): the receive path, the send path, the outgoing `update`,
  ACK/NACK handling and the throttled acknowledgement flush;
- the client's login bookkeeping (`SessionPreparation`);
- MTU candidate bookkeeping (`MaximumTransferUnit`);
- the connection-state enumeration (`RakNetState`).

The model is functional throughout:

- A packet is a `seq<bv8>`, and its `size()` is the sequence length.
- A writer returns the bytes it appends.
- A reader returns the value it read together with the unread rest, or `TruncatedInput`.
- The session is an immutable record. Every step returns an `Outcome`:
  - the new state;
  - the events it emitted, which are deliveries to the application, ack-receipt callbacks and raw
    datagrams;
  - the exception it ended with, if any.
- The state in an `Outcome` keeps whatever the step changed before it threw, as the Java object
  would.
- The current time is a parameter of every step that reads the clock.

Files and modules:

| file | module | what it holds |
|---|---|---|
| `wrappers.dfy` | `Wrappers` | `Option`, `Result`, the error kinds |
| `constants.dfy` | `Constants` | `MAX_CHANNELS` 32, `MAX_SPLIT_COUNT` 128, MTU bounds 400/1492, the 3000 ms ACK wait, the frame header size |
| `octets.dfy` | `Octets` | the byte/integer conversion fact the byte-level proofs rest on |
| `intsets.dfy` | `IntSets` | the least and greatest element of a finite set of integers |
| `cursor.dfy` | `Cursor` | readers, writers and their round trips |
| `reliability.dfy` | `ReliabilityCatalog` | the ten variants, codes, flags, `lookup` |
| `encapsulated.dfy` | `Encapsulated` | encode, decode, `calculateSize`, `calculateDummy` |
| `chunking.dfy` | `Chunking` | the array splitter's contract |
| `split_assembly.dfy` | `SplitAssembly` | the reassembly object |
| `fragmenter.dfy` | `Fragmenter` | `needsSplit`, `splitPacket` |
| `session_state.dfy` | `SessionState` | session record, constructor, `updateAcknowledge` |
| `session_receive.dfy` | `SessionReceive` | `handleCustom0`, `handleEncapsulated0` |
| `session_send.dfy` | `SessionSend` | `sendPacket` as written and corrected |
| `session_flush.dfy` | `SessionFlush` | `update` as written and corrected |
| `session_ack.dfy` | `SessionAck` | `handleAcknowledge` |
| `preparation.dfy` | `Preparation` | `SessionPreparation` |
| `mtu.dfy` | `TransferUnits` | `MaximumTransferUnit` |
| `state.dfy` | `ConnectionState` | `RakNetState` |

Collaborators whose source is not part of this model are described by what their callers rely
on:

- `CustomPacket` is a frame of messages under a 4-byte header: an identifier byte and a 3-byte
  sequence number. Its size is that header plus the sizes of its messages.
- `Acknowledge` records arrive already expanded into single sequence numbers, which is what
  `simplifyRecords` is called for.
- `ArrayUtils.splitArray` yields consecutive non-empty chunks of at most the given size. Every
  chunk but the last is full, and together they concatenate to the input.
- `IntMap` is a Dafny `map`.
- `CustomPacket.removeUnreliables` keeps the reliable messages in order.
- `bumpMessageIndex` is a post-increment of the session's message index.
- The `net.marfgamer.raknet` package's `Packet` is assumed to have the same primitives as
  `net.marfgamer.jraknet.Packet`. In particular, `readTriadLE` keeps only the low four bits of the
  third byte.

Where the protocol's documented behaviour and this code disagree, the model follows the code:

- Decoding divides the announced bit length by 8. A bit length that is not a multiple of 8 is
  therefore truncated, not rejected.
- A completed split assembly is never removed from the session's split table. Every further
  fragment for it joins the message again.
- On the session's split path, each fragment takes its own split id, and all fragments share the
  one message index, which is never advanced. This is the `net.marfgamer.raknet` session.
- The later `SplitPacket.splitPacket` gives the fragments one shared split id and a fresh message
  index each. Both are modelled.
- `update` sends at most one frame per call.
- The acknowledgement flush sends the ACK and NACK queues without emptying them. It resends the
  retransmission-table entry that comes first, with no resend interval.
- The send-side channel check lets channel 32 through.
- Exceptions are not caught inside the engine. A step reports the exception and stops.

## Model

| member | source | states |
|---|---|---|
| ReliabilityCatalog.Lookup | src/main/java/net/marfgamer/raknet/protocol/Reliability.java:119-127 | a variant is found exactly for the numbers 0..9, and it carries that number as its code; every other number yields nothing (null) |
| ReliabilityCatalog.LookupIn | src/main/java/net/marfgamer/raknet/protocol/Reliability.java:120-126 | the scan over `values()` returns a listed variant with the requested code, and returns nothing only when no listed variant has it |
| ReliabilityCatalog.CatalogueIsComplete | src/main/java/net/marfgamer/raknet/protocol/Reliability.java:41-50 | there are exactly ten variants, every variant is listed, and the i-th listed variant has code i |
| ReliabilityCatalog.CodesAreDistinct | src/main/java/net/marfgamer/raknet/protocol/Reliability.java:41-50 | two variants with the same code are the same variant |
| ReliabilityCatalog.LookupOfCode | src/main/java/net/marfgamer/raknet/protocol/Reliability.java:119-127 | looking up a variant's own `asByte` code gives that variant back |
| ReliabilityCatalog.FlagConsistency | src/main/java/net/marfgamer/raknet/protocol/Reliability.java:41-50 | no variant is both ordered and sequenced, and every ordered variant is reliable |
| ReliabilityCatalog.RequiresAckByCode | src/main/java/net/marfgamer/raknet/protocol/Reliability.java:46-50 | an ack receipt is requested exactly by the variants with codes 5..9 |
| ReliabilityCatalog.AckTwinsShareFlags | src/main/java/net/marfgamer/raknet/protocol/Reliability.java:41-50 | the variant with code k+5 has the reliable, ordered and sequenced flags of the variant with code k; it requests a receipt and the other does not |
| ReliabilityCatalog.Reliability.Code | src/main/java/net/marfgamer/raknet/protocol/Reliability.java:41-50 | every variant's `asByte` code lies in 0..9 |
| ReliabilityCatalog.Reliability.IsReliable | src/main/java/net/marfgamer/raknet/protocol/Reliability.java:41-50 | reliable exactly for codes 2, 3, 4, 7, 8 and 9 |
| ReliabilityCatalog.Reliability.IsOrdered | src/main/java/net/marfgamer/raknet/protocol/Reliability.java:41-50 | ordered exactly for codes 3 and 8 |
| ReliabilityCatalog.Reliability.IsSequenced | src/main/java/net/marfgamer/raknet/protocol/Reliability.java:41-50 | sequenced exactly for codes 1, 4, 6 and 9 |
| ReliabilityCatalog.Reliability.RequiresAck | src/main/java/net/marfgamer/raknet/protocol/Reliability.java:41-50 | a receipt is requested exactly for codes 5 to 9 |
| Cursor.Read | src/main/java/net/marfgamer/jraknet/Packet.java:104-110 | succeeds exactly when `length` bytes remain; the bytes read followed by the rest are the input, and exactly `length` bytes are read |
| Cursor.ReadByte | src/main/java/net/marfgamer/jraknet/Packet.java:117-119 | succeeds exactly when a byte remains; the result is a signed Java byte and one byte is consumed |
| Cursor.ReadUByte | src/main/java/net/marfgamer/jraknet/Packet.java:126-128 | succeeds exactly when a byte remains; the result lies in 0..255 and one byte is consumed |
| Cursor.ReadBoolean | src/main/java/net/marfgamer/jraknet/Packet.java:161-163 | succeeds exactly when a byte remains; the result is true exactly when that byte is non-zero |
| Cursor.ReadShort | src/main/java/net/marfgamer/jraknet/Packet.java:170-172 | succeeds exactly when two bytes remain; the result is a signed Java short and two bytes are consumed |
| Cursor.ReadShortLE | src/main/java/net/marfgamer/jraknet/Packet.java:179-181 | the little-endian twin: succeeds on two bytes, yields a Java short |
| Cursor.ReadUShort | src/main/java/net/marfgamer/jraknet/Packet.java:188-190 | succeeds exactly when two bytes remain; the result lies in 0..65535 |
| Cursor.ReadUShortLE | src/main/java/net/marfgamer/jraknet/Packet.java:197-199 | the little-endian twin: succeeds on two bytes, yields 0..65535 |
| Cursor.ReadTriadLE | src/main/java/net/marfgamer/jraknet/Packet.java:206-208 | succeeds exactly when three bytes remain; the third byte is masked with 0x0F, so the result lies below 2^20 |
| Cursor.ReadInt | src/main/java/net/marfgamer/jraknet/Packet.java:215-217 | succeeds exactly when four bytes remain; the result is a Java int |
| Cursor.ReadIntLE | src/main/java/net/marfgamer/jraknet/Packet.java:224-226 | the little-endian twin: succeeds on four bytes, yields a Java int |
| Cursor.ReadUInt | src/main/java/net/marfgamer/jraknet/Packet.java:233-235 | succeeds exactly when four bytes remain; the result lies in 0..2^32-1 |
| Cursor.ReadUIntLE | src/main/java/net/marfgamer/jraknet/Packet.java:242-244 | the little-endian twin: succeeds on four bytes, yields 0..2^32-1 |
| Cursor.ReadLong | src/main/java/net/marfgamer/jraknet/Packet.java:251-253 | succeeds exactly when eight bytes remain; the result is a Java long |
| Cursor.ReadLongLE | src/main/java/net/marfgamer/jraknet/Packet.java:260-262 | the little-endian twin: succeeds on eight bytes, yields a Java long |
| Cursor.CheckMagic | src/main/java/net/marfgamer/jraknet/Packet.java:287-290 | succeeds exactly when 16 bytes remain, consumes them, and is true exactly when they are the offline marker |
| Cursor.ReadString | src/main/java/net/marfgamer/jraknet/Packet.java:297-301 | succeeds exactly when the big-endian length prefix and that many bytes are present; the result has the announced length and the input is prefix, result and rest |
| Cursor.ReadStringLE | src/main/java/net/marfgamer/jraknet/Packet.java:309-313 | the same with a little-endian length prefix |
| Cursor.Pad | src/main/java/net/marfgamer/jraknet/Packet.java:360-365 | exactly `length` bytes, all zero; nothing for a length of zero or less |
| Cursor.WriteCFU | src/main/java/net/marfgamer/jraknet/Packet.java:411-416 | one output byte per input byte, each the bitwise complement of its input byte |
| Cursor.WriteAddress | src/main/java/net/marfgamer/jraknet/Packet.java:636-661 | succeeds exactly for 4-byte (IPv4) and 16-byte (IPv6) addresses |
| Cursor.ToJavaByte | src/main/java/net/marfgamer/raknet/session/RakNetSession.java:239 | the `(byte)` cast yields a Java byte and leaves values already in byte range unchanged |
| Cursor.CFULoop | src/main/java/net/marfgamer/jraknet/Packet.java:148-154 | the loop as written leaves every slot but 0 as it was, and slot 0 ends up holding the complement of the last byte read |
| Cursor.ReadCFU | src/main/java/net/marfgamer/jraknet/Packet.java:148-154 | succeeds exactly when `length` bytes remain; slot 0 is the complement of the last byte read and every other slot is 0 |
| Cursor.ReadCFUCorrected | src/main/java/net/marfgamer/jraknet/Packet.java:148-154 | the complemented-byte reader as intended: it succeeds exactly when `length` bytes remain and consumes them; the result has `length` bytes, and byte i is the complement of input byte i |
| Cursor.ReadAddress | src/main/java/net/marfgamer/jraknet/Packet.java:322-338 | succeeds only on version byte 4 or 6; the address has 4 or 16 bytes to match, and the port is an unsigned short |
| Cursor.ReadAddressCorrected | src/main/java/net/marfgamer/jraknet/Packet.java:322-338 | `readAddress` over the corrected complemented-byte reader; succeeds only on version 4 or 6, with an unsigned-short port |
| Cursor.UShortRoundTrip | src/main/java/net/marfgamer/jraknet/Packet.java:188-190 | `writeUShort` then `readUShort` yields the value mod 2^16 and leaves the following bytes; the value survives exactly when it lies in 0..65535 |
| Cursor.UShortLERoundTrip | src/main/java/net/marfgamer/jraknet/Packet.java:197-199 | the same for `writeUShortLE` and `readUShortLE` |
| Cursor.ShortRoundTrip | src/main/java/net/marfgamer/jraknet/Packet.java:170-181 | a Java short survives `writeShort`/`readShort` and `writeShortLE`/`readShortLE` |
| Cursor.TriadRoundTrip | src/main/java/net/marfgamer/jraknet/Packet.java:206-208 | `writeTriadLE` writes three bytes, low byte first; reading them back yields the value mod 2^20, so it round-trips exactly when 0 <= t < 2^20 |
| Cursor.IntRoundTrip | src/main/java/net/marfgamer/jraknet/Packet.java:215-235 | a Java int survives `writeInt`/`readInt`; `readUInt` of any written int yields it mod 2^32 |
| Cursor.IntLERoundTrip | src/main/java/net/marfgamer/jraknet/Packet.java:224-244 | a Java int survives `writeIntLE`/`readIntLE`; `readUIntLE` yields it mod 2^32 |
| Cursor.LongRoundTrip | src/main/java/net/marfgamer/jraknet/Packet.java:251-262 | a Java long survives `writeLong`/`readLong` and `writeLongLE`/`readLongLE` |
| Cursor.BooleanRoundTrip | src/main/java/net/marfgamer/jraknet/Packet.java:425-428 | `writeBoolean` writes 0x01 or 0x00, and `readBoolean` gives the value back |
| Cursor.StringRoundTrip | src/main/java/net/marfgamer/jraknet/Packet.java:297-313 | a string of fewer than 2^16 bytes written with either prefix order is read back exactly, consuming prefix and body |
| Cursor.LongStringIsCut | src/main/java/net/marfgamer/jraknet/Packet.java:605-610 | for a string of 2^16 bytes or more, the length prefix wraps and the reader returns only the first `length mod 2^16` bytes |
| Cursor.MagicRoundTrip | src/main/java/net/marfgamer/jraknet/Packet.java:287-290 | `writeMagic` writes 16 bytes, and `checkMagic` accepts them and consumes exactly those |
| Cursor.CFUCorrectedRoundTrip | src/main/java/net/marfgamer/jraknet/Packet.java:398-416 | the corrected reader undoes `writeCFU` for every byte string |
| Cursor.CFUAsWrittenLosesBytes | src/main/java/net/marfgamer/jraknet/Packet.java:148-154 | as written, reading back complemented bytes keeps only the last byte, at slot 0; 127.0.0.1 comes back as 1.0.0.0 |
| Cursor.AddressCorrectedRoundTrip | src/main/java/net/marfgamer/jraknet/Packet.java:636-661 | with the corrected reader, every IPv4 or IPv6 address with an unsigned-short port written by `writeAddress` reads back unchanged |
| Cursor.AddressV4CorrectedRoundTrip | src/main/java/net/marfgamer/jraknet/Packet.java:636-661 | the IPv4 case of the corrected address round trip |
| Cursor.AddressV6CorrectedRoundTrip | src/main/java/net/marfgamer/jraknet/Packet.java:636-661 | the IPv6 case, including the ten unused bytes before the port |
| Cursor.AddressAsWrittenLosesBytes | src/main/java/net/marfgamer/jraknet/Packet.java:322-338 | as written, 127.0.0.1 written by `writeAddress` is read by `readAddress` as 1.0.0.0 |
| Cursor.WrittenByte | src/main/java/net/marfgamer/jraknet/Packet.java:374-389 | `writeByte` and `writeUByte` write one byte holding the argument's low eight bits |
| Cursor.WriteBoolean | src/main/java/net/marfgamer/jraknet/Packet.java:425-428 | one byte, non-zero exactly when the value is true |
| Cursor.WrittenShort | src/main/java/net/marfgamer/jraknet/Packet.java:437-476 | `writeShort` and `writeUShort` write two bytes, most significant first, and `writeShortLE` and `writeUShortLE` two bytes, least significant first; in each case they hold the argument mod 2^16 |
| Cursor.WrittenTriad | src/main/java/net/marfgamer/jraknet/Packet.java:485-490 | `writeTriadLE` writes three bytes, least significant first, holding the argument mod 2^24 |
| Cursor.WrittenInt | src/main/java/net/marfgamer/jraknet/Packet.java:499-538 | `writeInt` and `writeUInt` write four bytes big-endian, `writeIntLE` and `writeUIntLE` four bytes little-endian, holding the argument mod 2^32 |
| Cursor.WrittenLong | src/main/java/net/marfgamer/jraknet/Packet.java:547-562 | `writeLong` writes eight bytes big-endian and `writeLongLE` eight bytes little-endian, holding the argument mod 2^64 |
| Cursor.WriteMagic | src/main/java/net/marfgamer/jraknet/Packet.java:593-596 | the offline marker is 16 bytes long |
| Cursor.WriteString | src/main/java/net/marfgamer/jraknet/Packet.java:605-610 | a two-byte prefix followed by exactly the string's bytes |
| Cursor.WriteStringLE | src/main/java/net/marfgamer/jraknet/Packet.java:620-625 | the same with the prefix in little-endian order |
| Cursor.WrittenString | src/main/java/net/marfgamer/jraknet/Packet.java:605-625 | the prefix holds the byte count mod 2^16, big-endian for `writeString` and little-endian for `writeStringLE` |
| Encapsulated.HeaderByte | src/main/java/net/marfgamer/raknet/protocol/message/EncapsulatedPacket.java:37 | the flag byte is the reliability code mod 8 times 32, plus 16 when split |
| Encapsulated.HeaderCode | src/main/java/net/marfgamer/raknet/protocol/message/EncapsulatedPacket.java:59-60 | the code read from the flag byte is its top three bits, a number below 8 |
| Encapsulated.Encode | src/main/java/net/marfgamer/raknet/protocol/message/EncapsulatedPacket.java:36-56 | the flag byte and the 2-byte bit length come ahead of the payload, and the encoding ends with exactly the payload bytes |
| Encapsulated.CalculateSize | src/main/java/net/marfgamer/raknet/protocol/message/EncapsulatedPacket.java:82-102 | at least the flag byte, the 2-byte length and the payload |
| Encapsulated.HeaderRoundTrip | src/main/java/net/marfgamer/raknet/protocol/message/EncapsulatedPacket.java:37-61 | the flag byte carries the split flag exactly and the reliability code mod 8 |
| Encapsulated.CalculateSizeIsEncodedLength | src/main/java/net/marfgamer/raknet/protocol/message/EncapsulatedPacket.java:82-102 | `calculateSize` equals the number of bytes `encode` writes, for every message |
| Encapsulated.CalculateDummy | src/main/java/net/marfgamer/raknet/protocol/message/EncapsulatedPacket.java:104-111 | the dummy encoding measures 13 bytes, plus 3 if reliable, plus 4 if ordered or sequenced, plus the payload; the split fields are always counted |
| Encapsulated.CalculateDummyHeader | src/main/java/net/marfgamer/raknet/protocol/message/EncapsulatedPacket.java:113-115 | the empty-payload dummy measures the split header of the reliability: between 13 and 20 bytes |
| Encapsulated.CalculateDummyIgnoresSplit | src/main/java/net/marfgamer/raknet/protocol/message/EncapsulatedPacket.java:104-111 | the `split` argument makes no difference, and the dummy is the unsplit message's `calculateSize` plus the 10 split bytes |
| Encapsulated.CalculateDummyHeaderIsEmptyPayload | src/main/java/net/marfgamer/raknet/protocol/message/EncapsulatedPacket.java:113-115 | the two-argument dummy is the three-argument one with an empty payload; a payload adds exactly its length |
| Encapsulated.Decode | src/main/java/net/marfgamer/raknet/protocol/message/EncapsulatedPacket.java:58-80 | a successful decode read at least 3 bytes; its reliability code is the flag byte's top three bits, its split flag is bit 0x10, and its payload has (bit length)/8 bytes |
| Encapsulated.DecodeBody | src/main/java/net/marfgamer/raknet/protocol/message/EncapsulatedPacket.java:62-79 | after the flag byte, the payload length is the announced bit length divided by 8, and the reliability and split flag are kept |
| Encapsulated.MessageIndexRoundTrip | src/main/java/net/marfgamer/raknet/protocol/message/EncapsulatedPacket.java:64-66 | the message-index triad is read back exactly when the reliability is reliable; otherwise nothing is read and the field is 0 |
| Encapsulated.OrderFieldsRoundTrip | src/main/java/net/marfgamer/raknet/protocol/message/EncapsulatedPacket.java:68-71 | order index and channel are read back exactly when the reliability is ordered or sequenced |
| Encapsulated.SplitFieldsRoundTrip | src/main/java/net/marfgamer/raknet/protocol/message/EncapsulatedPacket.java:73-77 | split count, split id and split index are read back exactly when the split flag is set |
| Encapsulated.DecodeBodyEncode | src/main/java/net/marfgamer/raknet/protocol/message/EncapsulatedPacket.java:62-79 | the bytes after the flag byte decode to the fields on the wire and consume exactly the encoding |
| Encapsulated.DecodeEncode | src/main/java/net/marfgamer/raknet/protocol/message/EncapsulatedPacket.java:36-80 | `decode(encode(m))` restores reliability, split flag, the indices present on the wire and the payload, and leaves the following bytes, provided: the code is at most 7, the payload is under 8192 bytes, and the indices fit their fields |
| Encapsulated.DecodeEncodeExact | src/main/java/net/marfgamer/raknet/protocol/message/EncapsulatedPacket.java:36-80 | a message whose unused fields hold their defaults is restored exactly |
| Encapsulated.AckReceiptOrderedCodesAreTruncated | src/main/java/net/marfgamer/raknet/protocol/message/EncapsulatedPacket.java:37-60 | codes 8 and 9 come back from the wire as codes 0 and 1, never as the original message |
| Chunking.Chunks | src/main/java/net/marfgamer/jraknet/session/SplitPacket.java:151-152 | the chunks concatenate to the payload; each is non-empty and at most the chunk size; all but the last are full |
| Chunking.ChunkCount | src/main/java/net/marfgamer/jraknet/session/SplitPacket.java:151-152 | an empty payload has no chunks; a payload no longer than the chunk size has one; a longer one has at least two |
| SplitAssembly.New | src/main/java/net/marfgamer/raknet/protocol/SplitPacket.java:52-61 | construction succeeds exactly when the split count is at most 128 (128 is accepted) and starts empty; otherwise it fails with the split-limit error |
| SplitAssembly.Update | src/main/java/net/marfgamer/raknet/protocol/SplitPacket.java:72-91 | a mismatched fragment is refused and changes nothing; a matching one is stored at its split index; the result is "incomplete" exactly while fewer than `splitCount` indices are stored; a join happens only with every index 0..size-1 present |
| SplitAssembly.Join | src/main/java/net/marfgamer/raknet/protocol/SplitPacket.java:81-87 | the join succeeds exactly when every index in range is present, and otherwise names the first missing one |
| SplitAssembly.RedeliveryOverwrites | src/main/java/net/marfgamer/raknet/protocol/SplitPacket.java:78 | re-delivering a stored index overwrites its payload and keeps the stored indices and count |
| SplitAssembly.NewIndexGrows | src/main/java/net/marfgamer/raknet/protocol/SplitPacket.java:78 | a new index grows the stored count by exactly one |
| SplitAssembly.CompletedAssemblyRepeats | src/main/java/net/marfgamer/raknet/protocol/SplitPacket.java:81-87 | a completed assembly is not consumed: re-delivering any of its fragments returns the whole message again and leaves the assembly as it was |
| SplitAssembly.OutOfRangeIndexAfterCompletion | src/main/java/net/marfgamer/raknet/protocol/SplitPacket.java:81-87 | after completion, a fragment claiming an index beyond the count makes the join hit the hole at index `splitCount` |
| SplitAssembly.FeedInvariant | src/main/java/net/marfgamer/jraknet/session/SplitPacket.java:102-121 | fed fragments of one message, the assembly holds exactly their chunks under their indices, and every update before the count is reached reports "incomplete" |
| SplitAssembly.ReassemblyInAnyOrder | src/main/java/net/marfgamer/jraknet/session/SplitPacket.java:102-121 | the n fragments of a message, in any order that covers every index, give "incomplete" on all updates but the last; the last one yields the concatenation in index order |
| Fragmenter.ChunkSizeFits | src/main/java/net/marfgamer/jraknet/session/SplitPacket.java:151-152 | a split message fits one frame exactly when its payload is no longer than the chunk size, and a payload of exactly the chunk size fills the MTU |
| Fragmenter.NeedsSplit | src/main/java/net/marfgamer/jraknet/session/SplitPacket.java:134-137 | a payload needs splitting exactly when it is longer than the chunk size: the MTU less the frame header and the split header |
| Fragmenter.SplitPacket | src/main/java/net/marfgamer/jraknet/session/SplitPacket.java:149-179 | fragmentation succeeds exactly when the chunk size is positive |
| Fragmenter.FragmentsDescribeTheMessage | src/main/java/net/marfgamer/jraknet/session/SplitPacket.java:170-175 | the fragments carry the payload in order; fragment i has split index i, the fragment count as split count, the original split id and reliability, and the split flag |
| Fragmenter.FragmentsFit | src/main/java/net/marfgamer/jraknet/session/SplitPacket.java:151-152 | every fragment with the frame header fits the MTU |
| Fragmenter.FragmentMessageIndices | src/main/java/net/marfgamer/jraknet/session/SplitPacket.java:163-164 | a reliable message's fragments take consecutive, strictly increasing fresh indices, and the counter advances by the fragment count; an unreliable one's fragments copy the original index and the counter stays |
| Fragmenter.FragmentOrderFields | src/main/java/net/marfgamer/jraknet/session/SplitPacket.java:165-168 | order channel and order index are copied exactly when the reliability is ordered or sequenced, and are 0 otherwise |
| Fragmenter.SplitMessagesHaveSeveralFragments | src/main/java/net/marfgamer/jraknet/session/SplitPacket.java:134-152 | a message that needs splitting yields at least two fragments |
| Fragmenter.FragmentsReassemble | src/main/java/net/marfgamer/jraknet/session/SplitPacket.java:149-179 | a receiver's assembly for the fragments is created exactly when there are at most 128 of them; fed in any arrival order, they complete on the last one and reproduce the payload |
| SessionState.New | src/main/java/net/marfgamer/raknet/session/RakNetSession.java:58-89 | a new session is valid: every per-channel counter is 0, every ordering queue empty, the send queue and both tables empty, and the ACK timer starts at `now` |
| SessionState.OldestKey | src/main/java/net/marfgamer/raknet/session/RakNetSession.java:327-330 | the chosen frame is in the retransmission table and has the smallest sequence number there |
| SessionState.UpdateAcknowledge | src/main/java/net/marfgamer/raknet/session/RakNetSession.java:307-335 | only the timer may change. Without force and before 3000 ms nothing is sent. When forced or after 3000 ms: the ACK queue is sent iff non-empty, the NACK queue iff non-empty, a stored frame last iff the table is non-empty, and the timer restarts |
| SessionState.FlushEmitsExactly | src/main/java/net/marfgamer/raknet/session/RakNetSession.java:307-335 | a due flush emits exactly, and only: the ACK queue first when non-empty, then the NACK queue when non-empty, then the stored frame with the smallest number when the table is non-empty; only the timer changes, to `now` |
| SessionState.FlushRepeatsQueues | src/main/java/net/marfgamer/raknet/session/RakNetSession.java:311-324 | the queues are not emptied by a flush: a second forced flush sends the same acknowledgements again |
| SessionState.FlushResendsOldest | src/main/java/net/marfgamer/raknet/session/RakNetSession.java:326-330 | a due flush resends a stored frame whose number is no larger than any other in the table |
| SessionReceive.Drain | src/main/java/net/marfgamer/raknet/session/RakNetSession.java:182-186 | the drain delivers the messages at next, next+1, ... in index order and stops at the first missing index, which becomes the expectation |
| SessionReceive.Reassemble | src/main/java/net/marfgamer/raknet/session/RakNetSession.java:148-167 | an unsplit message passes unchanged; only the split table may change; a joined message is the fragment with the joined payload |
| SessionReceive.Dispatch | src/main/java/net/marfgamer/raknet/session/RakNetSession.java:177-194 | dispatch keeps the session valid, emits only deliveries, and touches only the ordering and watermark tables; a message neither ordered nor sequenced is delivered at once on its channel, with nothing changed and no exception |
| SessionReceive.HandleEncapsulated | src/main/java/net/marfgamer/raknet/session/RakNetSession.java:142-195 | handling one message keeps the session valid, changes only receive-side tables, and emits only deliveries |
| SessionReceive.HandleAll | src/main/java/net/marfgamer/raknet/session/RakNetSession.java:137-139 | the messages of a frame in order keep the session valid and emit only deliveries |
| SessionReceive.HandleAllStep | src/main/java/net/marfgamer/raknet/session/RakNetSession.java:137-139 | one message, then the rest: an exception from the message is the frame's outcome; otherwise the rest is handled on its session, after its events |
| SessionReceive.GapRecord | src/main/java/net/marfgamer/raknet/session/RakNetSession.java:124-131 | a NACK record is produced exactly when the arriving number is above the expected one; it covers exactly the skipped numbers, and is a single record exactly when one number was skipped |
| SessionReceive.HandleCustom | src/main/java/net/marfgamer/raknet/session/RakNetSession.java:115-140 | handling a datagram frame keeps the session valid |
| SessionReceive.FreshFrameHandled | src/main/java/net/marfgamer/raknet/session/RakNetSession.java:121-139 | a new frame's messages are handled on the session after the forced flush; the flush's events come first, then exactly the messages' events, and the frame ends with their session and exception |
| SessionReceive.DuplicateFrameIgnored | src/main/java/net/marfgamer/raknet/session/RakNetSession.java:118-120 | a frame number seen before changes nothing and emits nothing |
| SessionReceive.FreshFrameAcknowledged | src/main/java/net/marfgamer/raknet/session/RakNetSession.java:121-134 | a new frame number is recorded; the expectation becomes number+1 unconditionally; the gap and ACK records are queued; the flush is forced and the updated ACK queue goes out first |
| SessionReceive.PlainDelivered | src/main/java/net/marfgamer/raknet/session/RakNetSession.java:169-194 | a whole message that is neither ordered nor sequenced and is not a reliable duplicate is delivered at once on its channel with no exception; only its index is recorded, when reliable |
| SessionReceive.ReliableDuplicateDropped | src/main/java/net/marfgamer/raknet/session/RakNetSession.java:170-173 | a reliable message whose index was seen is dropped, with nothing changed |
| SessionReceive.ReliableIndexRecorded | src/main/java/net/marfgamer/raknet/session/RakNetSession.java:170-175 | a reliable message seen for the first time has its index recorded |
| SessionReceive.IncompleteFragmentStops | src/main/java/net/marfgamer/raknet/session/RakNetSession.java:148-158 | a fragment that leaves its assembly incomplete emits nothing and changes only the split table |
| SessionReceive.OrderedDelivery | src/main/java/net/marfgamer/raknet/session/RakNetSession.java:180-186 | an ordered message is queued, and exactly the contiguous run from the expectation is delivered in index order, with other channels untouched; a message ahead of the expectation delivers nothing; the expected one is delivered first |
| SessionReceive.OrderedExpectationMonotone | src/main/java/net/marfgamer/raknet/session/RakNetSession.java:180-186 | no message lowers a channel's ordered expectation |
| SessionReceive.SequencedDelivery | src/main/java/net/marfgamer/raknet/session/RakNetSession.java:187-191 | a sequenced message is delivered exactly when its index is above the watermark, and the watermark then becomes index+1 |
| SessionReceive.SequencedSkipsSuccessor | src/main/java/net/marfgamer/raknet/session/RakNetSession.java:187-191 | right after index w is delivered, index w+1 on the same channel is dropped |
| SessionReceive.SequencedFreshChannelDropsZero | src/main/java/net/marfgamer/raknet/session/RakNetSession.java:187-191 | on a fresh session, sequenced index 0 is dropped |
| SessionReceive.OrderedScenario | src/main/java/net/marfgamer/raknet/session/RakNetSession.java:180-186 | order indices arriving 2, 0, 1 on one channel are delivered as 0, 1, 2 |
| SessionSend.TakeOrderIndexCounters | src/main/java/net/marfgamer/raknet/session/RakNetSession.java:246-249 | the index taken is the channel's current order counter when ordered and its sequence counter otherwise; an ordered reliability bumps the channel's order counter, any other bumps its sequence counter, and the other counter is left alone |
| SessionSend.EnqueueAsWritten | src/main/java/net/marfgamer/raknet/session/RakNetSession.java:233-252 | a reliable message consumes a message index even when the counter lookup then throws; the lookup throws exactly for an ordered or sequenced message on a channel outside 0..31; on success one message carrying the payload is appended, fits the MTU, and has the old message index if reliable |
| SessionSend.EnqueueCounters | src/main/java/net/marfgamer/raknet/session/RakNetSession.java:242-249 | a fitting message bumps its channel's order counter exactly when ordered and its sequence counter exactly when sequenced |
| SessionSend.EnqueuePlain | src/main/java/net/marfgamer/raknet/session/RakNetSession.java:236-252 | a fitting message with no order fields is queued as exactly one unsplit message: the caller's reliability and payload, the channel cast to a byte, the current message index when reliable (which then advances), order index 0; no other field of the session changes |
| SessionSend.EnqueueOrdered | src/main/java/net/marfgamer/raknet/session/RakNetSession.java:236-252 | a fitting ordered or sequenced message on a channel in 0..31 is queued as exactly one unsplit message: as above, plus the order index taken from the channel's order counter when ordered or its sequence counter when sequenced, which then advances |
| SessionSend.FitsAlone | src/main/java/net/marfgamer/raknet/session/RakNetSession.java:234-235 | a payload that needs no split fits one frame as an unsplit message |
| SessionSend.SplitAsWritten | src/main/java/net/marfgamer/raknet/session/RakNetSession.java:253-284 | succeeds exactly for a positive chunk size and a channel in 0..31. On success: at least two fragments carrying the payload are appended; the first fills the MTU exactly; the message index does not move; the split id advances by the fragment count |
| SessionSend.SplitCounters | src/main/java/net/marfgamer/raknet/session/RakNetSession.java:257-258 | the split path draws its order index from the order counter when ordered, and from the sequence counter otherwise, whatever the reliability |
| SessionSend.SendPacket | src/main/java/net/marfgamer/raknet/session/RakNetSession.java:227-285 | `sendPacket` throws the channel error exactly for channels above 32, and changes nothing then. It succeeds exactly on the accepted inputs. A failure leaves the session as it was, except for a lost message index. A success appends messages that carry the payload in order and each fit the MTU |
| SessionSend.ChannelLimitOffByOne | src/main/java/net/marfgamer/raknet/session/RakNetSession.java:229 | channel 32 passes the check; a reliable ordered or sequenced message on it then fails the lookup and loses a message index |
| SessionSend.SplitIdsAsWritten | src/main/java/net/marfgamer/raknet/session/RakNetSession.java:257-279 | the fragments have split ids splitId, splitId+1, ..., split index i, and the fragment count as split count; every fragment has the caller's reliability, the channel cast to a byte, and one shared order index: the order counter's value when ordered, the sequence counter's when sequenced, 0 when neither |
| SessionSend.OneIndexNeverJoins | src/main/java/net/marfgamer/raknet/protocol/SplitPacket.java:72-91 | an assembly of count at least 2 that only ever receives fragments for one index never joins |
| SessionSend.SplitNeverReassemblesAsWritten | src/main/java/net/marfgamer/raknet/session/RakNetSession.java:278 | the receiver's assembly for any one of the fragments never completes, in any arrival order and with any repetitions |
| SessionSend.SplitReusesMessageIndex | src/main/java/net/marfgamer/raknet/session/RakNetSession.java:256-270 | all fragments carry the current message index, and the next reliable message sent is stamped with that same index |
| SessionSend.SendPacketCorrected | src/main/java/net/marfgamer/raknet/session/RakNetSession.java:227-285 | channels outside 0..31 are rejected before anything changes, and the counter lookup never throws; failures change nothing; a success appends messages that carry the payload and each fit the MTU |
| SessionSend.CorrectedFragmentsReassemble | src/main/java/net/marfgamer/jraknet/session/SplitPacket.java:149-179 | the corrected fragments share one split id, which then advances by one; fed in any order to the receiver's assembly, they complete on the last arrival with the original payload |
| SessionSend.CorrectedIndicesStayDistinct | src/main/java/net/marfgamer/jraknet/session/SplitPacket.java:163-164 | after a corrected send, the reliable queued messages still have pairwise distinct message indices below the counter |
| SessionFlush.Batch | src/main/java/net/marfgamer/raknet/session/RakNetSession.java:343-349 | the packing loop takes a front of the queue whose frame is within the cap and stops at the first message that would exceed it |
| SessionFlush.BatchIsLongest | src/main/java/net/marfgamer/raknet/session/RakNetSession.java:343-349 | no longer front of the queue fits the cap |
| SessionFlush.Flush | src/main/java/net/marfgamer/raknet/session/RakNetSession.java:337-363 | an empty queue does nothing. Otherwise the longest fitting front is removed and, if non-empty, sent first as one frame under the next sequence number and stored in the table; the unforced acknowledgement flush at `now` then runs on the updated session, and its state and events are exactly the rest of the result. An empty front only runs that flush on the unchanged session |
| SessionFlush.BatchFrom | src/main/java/net/marfgamer/raknet/session/RakNetSession.java:343-349 | scanning from a fitting front, the packing loop ends at a front within the cap, and the next message would exceed it |
| SessionFlush.SendFront | src/main/java/net/marfgamer/raknet/session/RakNetSession.java:351-361 | the front leaves the queue and is sent first, as one frame under the next sequence number that is also stored in the table; the rest is the unforced acknowledgement flush at `now` of that session |
| SessionFlush.Update | src/main/java/net/marfgamer/raknet/session/RakNetSession.java:337-363 | `update` as written packs frames strictly below the MTU (cap MTU-1), with the flush behaviour above at `now` |
| SessionFlush.UpdateCorrected | src/main/java/net/marfgamer/raknet/session/RakNetSession.java:344 | the corrected `update` packs frames up to the MTU, with the flush behaviour above at `now` |
| SessionFlush.FullHeadStalls | src/main/java/net/marfgamer/raknet/session/RakNetSession.java:344 | as written, a head message that fills a frame exactly is never taken; the update only runs the acknowledgement flush |
| SessionFlush.CorrectedHeadLeaves | src/main/java/net/marfgamer/raknet/session/RakNetSession.java:344 | when corrected, a head message that fits alone leaves in a frame under the next sequence number |
| SessionFlush.CorrectedKeepsFitting | src/main/java/net/marfgamer/raknet/session/RakNetSession.java:350 | a corrected update shortens a queue of fitting messages and keeps the rest fitting |
| SessionFlush.CorrectedUpdatesDrain | src/main/java/net/marfgamer/raknet/session/RakNetSession.java:337-363 | when every queued message fits alone, as many corrected updates as messages empty the queue |
| SessionFlush.SplitSendStallsAsWritten | src/main/java/net/marfgamer/raknet/session/RakNetSession.java:254-255 | a split message sent as written into an empty queue is never flushed: each update only repeats the acknowledgement flush |
| SessionFlush.CorrectedSendThenDrain | src/main/java/net/marfgamer/raknet/session/RakNetSession.java:337-363 | after a corrected send, enough corrected updates send the whole queue |
| SessionAck.Receipts | src/main/java/net/marfgamer/raknet/session/RakNetSession.java:205-210 | exactly the frame's messages that request a receipt produce one, and no more receipts than messages |
| SessionAck.Reliables | src/main/java/net/marfgamer/raknet/session/RakNetSession.java:217-219 | exactly the reliable messages remain |
| SessionAck.ReliablesIdempotent | src/main/java/net/marfgamer/raknet/session/RakNetSession.java:217-219 | stripping twice strips nothing more |
| SessionAck.AckAll | src/main/java/net/marfgamer/raknet/session/RakNetSession.java:202-214 | only the table changes, and only by retiring frames. Success exactly when every number is stored and none repeats; then all named frames are gone. Unnamed frames stay. A failure names a missing number. Every event is a receipt, from a named frame, for a message that asked for one |
| SessionAck.AckAllReceipts | src/main/java/net/marfgamer/raknet/session/RakNetSession.java:202-214 | a successful ACK reports exactly the receipts of each named frame, in record order, and nothing else |
| SessionAck.AckOne | src/main/java/net/marfgamer/raknet/session/RakNetSession.java:202-214 | acknowledging one stored number retires exactly its frame and reports the receipts of its messages |
| SessionAck.NackAll | src/main/java/net/marfgamer/raknet/session/RakNetSession.java:215-224 | only the table changes, and it keeps its keys. Success exactly when every number is stored; a failure names a number with no frame |
| SessionAck.NackAllEntries | src/main/java/net/marfgamer/raknet/session/RakNetSession.java:215-224 | every entry ends up unchanged or stripped. An unnamed entry is unchanged, and after a success every named entry is stripped |
| SessionAck.NackAllResends | src/main/java/net/marfgamer/raknet/session/RakNetSession.java:220-223 | a successful NACK resends one frame per named number, in record order, each the stripped frame now stored for it |
| SessionAck.HandleAcknowledge | src/main/java/net/marfgamer/raknet/session/RakNetSession.java:197-225 | ACK and NACK handling keep the session valid and change only the retransmission table |
| SessionAck.NackRepeatable | src/main/java/net/marfgamer/raknet/session/RakNetSession.java:215-224 | repeating a successful NACK changes nothing more and resends the same frames |
| SessionAck.RepeatedAckFails | src/main/java/net/marfgamer/raknet/session/RakNetSession.java:212-213 | a repeated ACK set fails at its first number, whose frame is already gone |
| SessionAck.SentFrameAcknowledged | src/main/java/net/marfgamer/raknet/session/RakNetSession.java:202-214 | a frame sent by `update`, once acknowledged, leaves the table, and exactly its messages that asked for a receipt are reported, in order |
| Preparation.New | src/main/java/net/marfgamer/jraknet/client/SessionPreparation.java:89-93 | nothing is known yet: no cancel reason, guid and MTU -1, no reply handled, no address; the MTU bound holds |
| Preparation.HandleMessage | src/main/java/net/marfgamer/jraknet/client/SessionPreparation.java:101-162 | a cancel reason is never cleared, and a changed one is set. The MTU changes only on an accepted first reply (within 400..1492 and the initial MTU) or by lowering on a second reply. A reply flag changes only for its own reply, and the second only for a matching guid |
| Preparation.CreateSession | src/main/java/net/marfgamer/jraknet/client/SessionPreparation.java:167-205 | a session is created exactly when `readyForSession` holds: no cancel reason, a known guid, MTU and address, and both replies handled; with the recorded guid, MTU, connection type and address |
| Preparation.CancelIsFinal | src/main/java/net/marfgamer/jraknet/client/SessionPreparation.java:101-171 | once cancelled, the login stays cancelled whatever arrives, and no session is created |
| Preparation.MtuStaysBounded | src/main/java/net/marfgamer/jraknet/client/SessionPreparation.java:109-138 | whatever packets arrive, the recorded MTU never exceeds the protocol maximum or the initial MTU |
| Preparation.RejectionsByGuid | src/main/java/net/marfgamer/jraknet/client/SessionPreparation.java:143-160 | ALREADY_CONNECTED and NO_FREE_INCOMING_CONNECTIONS always cancel; BANNED cancels for the stored guid, and BANNED or INCOMPATIBLE_PROTOCOL for another guid change nothing |
| Preparation.LoginSucceeds | src/main/java/net/marfgamer/jraknet/client/SessionPreparation.java:103-187 | a valid first reply, then a matching second reply with no larger MTU, make the session ready with the second reply's MTU and connection type |
| Preparation.SecondReplyMayGoBelowMinimum | src/main/java/net/marfgamer/jraknet/client/SessionPreparation.java:133-138 | the second reply is checked only against the recorded MTU, so a session can be created with an MTU below 400 |
| TransferUnits.New | src/main/java/net/marfgamer/jraknet/client/MaximumTransferUnit.java:68-72 | a new unit starts with its full retry budget left |
| TransferUnits.Retry | src/main/java/net/marfgamer/jraknet/client/MaximumTransferUnit.java:102-106 | yields the retries left before the call and leaves one fewer; the size and budget do not change |
| TransferUnits.Reset | src/main/java/net/marfgamer/jraknet/client/MaximumTransferUnit.java:111-115 | restores the full budget and keeps the size |
| TransferUnits.RetryCountsDown | src/main/java/net/marfgamer/jraknet/client/MaximumTransferUnit.java:102-115 | the i-th of k retries yields retriesLeft-i, k retries leave retriesLeft-k, and a reset afterwards is the same as a reset before |
| TransferUnits.IndexKeepsLast | src/main/java/net/marfgamer/jraknet/client/MaximumTransferUnit.java:127-130 | building the size map front to back keeps, for each size, the last unit of that size in the input |
| TransferUnits.Descending | src/main/java/net/marfgamer/jraknet/client/MaximumTransferUnit.java:134-135 | the keys strictly descending, with the same members as the key set |
| TransferUnits.Sort | src/main/java/net/marfgamer/jraknet/client/MaximumTransferUnit.java:125-144 | the result is strictly descending by size, has one unit for every size in the input and no other sizes, and each unit is the last input unit of its size |
| ConnectionState.State.Order | src/main/java/net/marfgamer/jraknet/session/RakNetState.java:40-56 | a state's order is its position in the declaration order that `values()` lists |
| ConnectionState.GetState | src/main/java/net/marfgamer/jraknet/session/RakNetState.java:64-71 | a found state has the requested order; nothing (null) is returned exactly for orders outside {0,1,2} |
| ConnectionState.OrderRoundTrip | src/main/java/net/marfgamer/jraknet/session/RakNetState.java:53-71 | looking up a state's own order gives the state back |
| ConnectionState.OrderInjective | src/main/java/net/marfgamer/jraknet/session/RakNetState.java:40-46 | distinct states have distinct orders |

## Left out

- Netty I/O is not modelled: raw sends become `SendFrame`, `SendAck` and `SendNack` events, and application deliveries become `Deliver` events.
- `SessionAck.AckAll`: the application's `onAcknowledge` callback becomes an `Acknowledged` event. Whatever the callback does, and any exception it throws, is not modelled.
- The clock is not modelled: `System.currentTimeMillis` becomes the `now` parameter of the constructor and of every step that flushes acknowledgements.
- Logging and the debug `System.out` lines have no effect on state and are not modelled.
- Float and double reads and writes (`readFloat`, `readDouble`, `writeFloat`, `writeDouble`) are left out because they are floating point.
- The `writeAddress(InetAddress, int)` and `writeAddress(String, int)` overloads are left out because they depend on Java name resolution. An address is modelled as its raw bytes and port.
- `CustomPacket`, `Acknowledge`/`Record` encoding and `removeUnreliables` are not part of this model. Frames and records arrive decoded, and the assumptions about these collaborators are listed above.
- The session's guid, state, Netty channel and address fields are carried by no step of the core and are not modelled.
- The `sendPacket` overloads at RakNetSession.java lines 287-301 only loop over or default the channel of the modelled `sendPacket`, and are not modelled.
- The decoding of login replies is not modelled; `OpenConnectionResponseOne`/`Two` and the rejection packets are not part of this model. `Preparation.HandleMessage` receives the decoded fields and a `failed` flag.
- `RakNetServerSession`, which `createSession` constructs, is not part of this model. `Preparation.CreateSession` returns its constructor arguments.
- `SessionSend.SendPacket`: the counters (`messageIndex`, `splitId`, per-channel order and sequence counters) are unbounded integers, so Java `int` wrap-around after 2^31 messages is not modelled.
- `TransferUnits.Retry`: `retriesLeft--` is not wrapped at `Integer.MIN_VALUE`.
- `SessionState.UpdateAcknowledge` resends the frame with the smallest sequence number, standing in for the first entry of `IntMap.values()`, whose iteration order is not part of this model.
- `SessionReceive.HandleEncapsulated`: its own contract states only the invariants every path keeps (validity, receive-side tables only, deliveries only). The behaviour of each path is stated by the lemmas `IncompleteFragmentStops`, `ReliableDuplicateDropped`, `ReliableIndexRecorded`, `OrderedDelivery`, `SequencedDelivery` and `PlainDelivered`, which keeps the many callers' proofs small.
- `SessionReceive.HandleAll`: its own contract states only validity and the framing invariants. The sequencing of events and the abandonment at the first exception are stated by `HandleAllStep`, one message at a time.
- `SessionReceive.HandleCustom`: its own contract states only validity. The duplicate filter, the bookkeeping and the handling of the messages after the forced flush are stated by `DuplicateFrameIgnored`, `FreshFrameAcknowledged` and `FreshFrameHandled`.
- `SessionReceive.Dispatch`: `handlePacket` is the application callback and is modelled as a `Deliver` event. Its effects are outside the session.
- `Fragmenter.SplitPacket` takes the session's message index as a number and returns the advanced one, in place of the `bumpMessageIndex` call on the session object.
- `Cursor.ReadAddress` returns the address bytes and port. It does not build an `InetSocketAddress`.
- `Cursor.ReadString`, and likewise `Cursor.ReadStringLE`, `Cursor.WriteString`, `Cursor.WriteStringLE` and `Cursor.StringRoundTrip`: a string is modelled as its encoded bytes. The charset conversion of `new String(data)` and `getBytes()` uses the platform default, which is not modelled. The round trips are therefore about bytes; a byte sequence the charset cannot decode may not survive the Java round trip.
- `Cursor.WriteMagic`, and likewise `Cursor.CheckMagic`: the `MAGIC` bytes come from `MessageIdentifier`, which is not part of this model. The model uses the usual 16-byte RakNet offline marker.
- `Fragmenter.SplitPacket`: `ArrayUtils.splitArray` is not part of this model. The chunking contract above is assumed, and so is the error for a non-positive chunk size. The model reports `InvalidChunkSize` there, though what the Java code does for such a size is not known.
- `Fragmenter.SplitPacket`: the `net.marfgamer.jraknet` version calls that package's `CustomPacket`, `EncapsulatedPacket` and `Reliability`, which are not part of this model. The model measures and builds fragments with the `net.marfgamer.raknet` classes in their place.
- `SessionSend.SplitAsWritten`, and likewise `SessionSend.SendPacketCorrected`: the split path at RakNetSession.java line 254 also calls `ArrayUtils.splitArray`, and its `InvalidChunkSize` error is the same assumption.

## Findings

| source | as written | input that shows it | evidently intended | confidence | as-written member | corrected member |
|---|---|---|---|---|---|---|
| src/main/java/net/marfgamer/jraknet/Packet.java:148-154 | `readCFU` stores every complemented byte into `data[0]` | the IPv4 address 127.0.0.1 written by `writeAddress` is read back as 1.0.0.0 | `data[i] = readCFUByte()`, so `readCFU` undoes `writeCFU` | high, not executed | Cursor.CFUAsWrittenLosesBytes | Cursor.CFUCorrectedRoundTrip |
| src/main/java/net/marfgamer/raknet/session/RakNetSession.java:278 | every fragment of one split message takes `splitId++`, a split id of its own | any payload that needs splitting: the receiver opens one assembly per fragment, each expecting the full count, and none completes | one split id shared by all fragments, as the later `SplitPacket.splitPacket` does | high, not executed | SessionSend.SplitNeverReassemblesAsWritten | SessionSend.CorrectedFragmentsReassemble |
| src/main/java/net/marfgamer/raknet/session/RakNetSession.java:256 | the split path copies `messageIndex` into every fragment and never advances it | a split reliable message followed by a fitting reliable one: the follower is stamped with the index the fragments already carry, so a receiver that drops repeated reliable message indices before reassembly would lose every message after the first with that index | one fresh message index per fragment, so reliable indices stay distinct | high, not executed | SessionSend.SplitReusesMessageIndex | SessionSend.CorrectedIndicesStayDistinct |
| src/main/java/net/marfgamer/raknet/session/RakNetSession.java:229 | `channel > MAX_CHANNELS` admits channel 32 | `sendPacket(RELIABLE_ORDERED, 32, p)` passes the check, consumes a message index, then fails indexing `sendOrderIndex[32]` | `channel >= MAX_CHANNELS` (and no negative channel) | high, not executed | SessionSend.ChannelLimitOffByOne | SessionSend.SendPacketCorrected |
| src/main/java/net/marfgamer/raknet/session/RakNetSession.java:344 | `update` stops at a message when frame size plus message size `>=` the MTU | a split fragment, sized at lines 254-255 to fill the MTU exactly, sits at the head of the queue and is never sent | `>`: a frame of exactly the MTU is accepted | medium (depends on the frame header size, which is not part of this model), not executed | SessionFlush.SplitSendStallsAsWritten | SessionFlush.CorrectedSendThenDrain |
