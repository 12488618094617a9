/** Fragmentation of an oversized message into split fragments that each fit one frame. */
module Fragmenter {
  import opened Wrappers
  import opened Constants
  import opened Cursor
  import opened ReliabilityCatalog
  import opened Encapsulated
  import opened Chunking
  import opened SplitAssembly

  /** The payload bytes one fragment can carry: the MTU less the frame header and the header of
      a split message of this reliability. */
  function ChunkSize(reliability: Reliability, mtu: int): int {
    mtu - FRAME_HEADER_SIZE - CalculateDummyHeader(reliability, true)
  }

  /** A split message fits one frame exactly when its payload is no longer than the chunk size;
      a payload of exactly the chunk size fills the MTU. */
  lemma ChunkSizeFits(m: Message, mtu: int)
    requires m.split
    ensures FRAME_HEADER_SIZE + |Encode(m)| <= mtu <==> |m.payload| <= ChunkSize(m.reliability, mtu)
    ensures FRAME_HEADER_SIZE + |Encode(m)| == mtu <==> |m.payload| == ChunkSize(m.reliability, mtu)
  {
    CalculateSizeIsEncodedLength(m);
  }

  /** `needsSplit`: the frame header plus the message measured as a split message exceeds the MTU. */
  function NeedsSplit(reliability: Reliability, payload: seq<byte>, mtu: int): (b: bool)
    ensures b <==> |payload| > ChunkSize(reliability, mtu)
  {
    FRAME_HEADER_SIZE + CalculateDummy(reliability, false, payload) > mtu
  }

  /** The fragments and the session's message index after they were stamped. */
  datatype Split = Split(fragments: seq<Message>, nextMessageIndex: int)

  /** Fragment `i`: the original's reliability and split id, chunk `i` as payload, a fresh message
      index when reliable, and the order fields only when ordered or sequenced. */
  function Fragment(m: Message, chunks: seq<seq<byte>>, i: int, messageIndex: int): Message
    requires 0 <= i < |chunks|
  {
    Message(
      reliability := m.reliability,
      split := true,
      messageIndex := if m.reliability.IsReliable() then messageIndex + i else m.messageIndex,
      orderIndex := if m.reliability.HasOrderFields() then m.orderIndex else 0,
      orderChannel := if m.reliability.HasOrderFields() then m.orderChannel else 0,
      splitCount := |chunks|,
      splitId := m.splitId,
      splitIndex := i,
      payload := chunks[i])
  }

  /** `splitPacket`: cuts the payload into chunks of `ChunkSize` bytes and stamps split metadata on
      each. `messageIndex` is the session's counter; a reliable message takes one value of it per
      fragment (post-increment), in fragment order. A non-positive chunk size is an error. */
  function SplitPacket(messageIndex: int, mtu: int, m: Message): (r: Result<Split, Error>)
    ensures r.Success? <==> ChunkSize(m.reliability, mtu) > 0
    ensures r.Failure? ==> r.error == InvalidChunkSize
  {
    var size := ChunkSize(m.reliability, mtu);
    if size <= 0 then Failure(InvalidChunkSize)
    else
      var chunks := Chunks(m.payload, size);
      var fragments := seq(|chunks|, i requires 0 <= i < |chunks| => Fragment(m, chunks, i, messageIndex));
      Success(Split(fragments, if m.reliability.IsReliable() then messageIndex + |chunks| else messageIndex))
  }

  /** The fragments carry the whole payload, in order, and describe themselves consistently:
      fragment `i` has split index `i`, the common split count and id, and the original's
      reliability. */
  lemma FragmentsDescribeTheMessage(messageIndex: int, mtu: int, m: Message)
    requires SplitPacket(messageIndex, mtu, m).Success?
    ensures var fs := SplitPacket(messageIndex, mtu, m).value.fragments;
            && Flatten(seq(|fs|, i requires 0 <= i < |fs| => fs[i].payload)) == m.payload
            && forall i :: 0 <= i < |fs| ==>
                 fs[i].split && fs[i].splitIndex == i && fs[i].splitCount == |fs|
                 && fs[i].splitId == m.splitId && fs[i].reliability == m.reliability
  {
    var size := ChunkSize(m.reliability, mtu);
    var chunks := Chunks(m.payload, size);
    var fs := SplitPacket(messageIndex, mtu, m).value.fragments;
    assert seq(|fs|, i requires 0 <= i < |fs| => fs[i].payload) == chunks;
  }

  /** Every fragment, framed, fits the MTU. */
  lemma FragmentsFit(messageIndex: int, mtu: int, m: Message)
    requires SplitPacket(messageIndex, mtu, m).Success?
    ensures var fs := SplitPacket(messageIndex, mtu, m).value.fragments;
            forall i :: 0 <= i < |fs| ==> FRAME_HEADER_SIZE + CalculateSize(fs[i]) <= mtu
  {
  }

  /** A reliable message takes one fresh message index per fragment, so the fragments' indices are
      consecutive and pairwise distinct; any other message's fragments keep the original's index. */
  lemma FragmentMessageIndices(messageIndex: int, mtu: int, m: Message)
    requires SplitPacket(messageIndex, mtu, m).Success?
    ensures var s := SplitPacket(messageIndex, mtu, m).value;
            && (m.reliability.IsReliable() ==>
                  s.nextMessageIndex == messageIndex + |s.fragments|
                  && forall i, j :: 0 <= i < j < |s.fragments| ==>
                       messageIndex <= s.fragments[i].messageIndex < s.fragments[j].messageIndex < s.nextMessageIndex)
            && (!m.reliability.IsReliable() ==>
                  s.nextMessageIndex == messageIndex
                  && forall i :: 0 <= i < |s.fragments| ==> s.fragments[i].messageIndex == m.messageIndex)
  {
  }

  /** Order channel and order index reach the fragments only when the reliability carries them. */
  lemma FragmentOrderFields(messageIndex: int, mtu: int, m: Message)
    requires SplitPacket(messageIndex, mtu, m).Success?
    ensures var fs := SplitPacket(messageIndex, mtu, m).value.fragments;
            forall i :: 0 <= i < |fs| ==>
              (fs[i].orderChannel, fs[i].orderIndex)
              == (if m.reliability.HasOrderFields() then (m.orderChannel, m.orderIndex) else (0, 0))
  {
  }

  /** A message that needs splitting yields at least two fragments. */
  lemma SplitMessagesHaveSeveralFragments(messageIndex: int, mtu: int, m: Message)
    requires SplitPacket(messageIndex, mtu, m).Success?
    requires NeedsSplit(m.reliability, m.payload, mtu)
    ensures |SplitPacket(messageIndex, mtu, m).value.fragments| >= 2
  {
    ChunkCount(m.payload, ChunkSize(m.reliability, mtu));
  }

  /** `order` lists the indices 0..n-1, each at least once, in some arrival order. */
  predicate IsArrival(order: seq<int>, n: int) {
    |order| == n && (forall k :: 0 <= k < |order| ==> 0 <= order[k] < n) && (forall i :: 0 <= i < n ==> i in order)
  }

  /** The fragments of a non-empty message, delivered in any arrival order to a fresh assembly
      for their split id, complete exactly at the last one and reproduce the payload — provided
      there are at most MAX_SPLIT_COUNT of them; with more, the receiver refuses the assembly. */
  lemma FragmentsReassemble(messageIndex: int, mtu: int, m: Message, order: seq<int>)
    requires SplitPacket(messageIndex, mtu, m).Success? && |m.payload| > 0
    requires IsArrival(order, |SplitPacket(messageIndex, mtu, m).value.fragments|)
    ensures var fs := SplitPacket(messageIndex, mtu, m).value.fragments;
            New(m.splitId, |fs|, m.reliability).Success? <==> |fs| <= MAX_SPLIT_COUNT
    ensures var fs := SplitPacket(messageIndex, mtu, m).value.fragments;
            var arrivals := seq(|order|, k requires 0 <= k < |order| => fs[order[k]]);
            |fs| <= MAX_SPLIT_COUNT ==>
              var r := Feed(New(m.splitId, |fs|, m.reliability).value, arrivals).1;
              (forall k :: 0 <= k < |arrivals| - 1 ==> r[k] == Success(None))
              && r[|arrivals| - 1] == Success(Some(m.payload))
  {
    var size := ChunkSize(m.reliability, mtu);
    var chunks := Chunks(m.payload, size);
    ChunkCount(m.payload, size);
    var fs := SplitPacket(messageIndex, mtu, m).value.fragments;
    var arrivals := seq(|order|, k requires 0 <= k < |order| => fs[order[k]]);
    assert |fs| == |chunks|;
    if |fs| <= MAX_SPLIT_COUNT {
      var a := Assembly(m.splitId, |chunks|, m.reliability, map[]);
      assert FragmentsOf(a, arrivals, chunks) by {
        forall k | 0 <= k < |arrivals|
          ensures FragmentOf(a, arrivals[k], chunks)
        {
          assert arrivals[k] == Fragment(m, chunks, order[k], messageIndex);
        }
      }
      assert CoversAll(arrivals, |chunks|) by {
        forall i | 0 <= i < |chunks|
          ensures i in Indices(arrivals)
        {
          assert i in order;
          var k :| 0 <= k < |order| && order[k] == i;
          assert arrivals[k].splitIndex == i;
        }
      }
      ReassemblyInAnyOrder(m.splitId, m.reliability, arrivals, chunks);
    }
  }
}
