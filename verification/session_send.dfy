/** The send path of a session: an application payload becomes one queued message when it fits a
    frame, or a run of split fragments when it does not. `SendPacket` is the code as written;
    `SendPacketCorrected` is the same operation with the three defects of the split path and the
    channel check repaired. */
module SessionSend {
  import opened Wrappers
  import opened Constants
  import opened Cursor
  import opened ReliabilityCatalog
  import opened Encapsulated
  import opened Chunking
  import opened SplitAssembly
  import opened Fragmenter
  import opened SessionState

  /** The payloads of a run of messages, in order. */
  function Payloads(ms: seq<Message>): seq<seq<byte>> {
    seq(|ms|, i requires 0 <= i < |ms| => ms[i].payload)
  }

  /** Everything appended to the send queue by a step from `s` to `t`. */
  function Appended(s: Session, t: Session): seq<Message>
    requires |s.sendQueue| <= |t.sendQueue|
  {
    t.sendQueue[|s.sendQueue|..]
  }

  /** Each message, framed alone, fits the MTU. */
  predicate AllFit(ms: seq<Message>, mtu: int) {
    forall i :: 0 <= i < |ms| ==> FRAME_HEADER_SIZE + CalculateSize(ms[i]) <= mtu
  }

  /** The order index an ordered or sequenced message is stamped with: the channel's order
      counter for ordered reliabilities, its sequence counter for all others; the counter taken is
      bumped. */
  function TakeOrderIndex(s: Session, r: Reliability, ch: int): (p: (Session, int))
    requires Valid(s) && 0 <= ch < MAX_CHANNELS
    ensures Valid(p.0) && p.0.sendQueue == s.sendQueue
    ensures p.0.messageIndex == s.messageIndex && p.0.splitId == s.splitId
  {
    if r.IsOrdered() then
      (s.(sendOrderIndex := s.sendOrderIndex[ch := s.sendOrderIndex[ch] + 1]), s.sendOrderIndex[ch])
    else
      (s.(sendSequenceIndex := s.sendSequenceIndex[ch := s.sendSequenceIndex[ch] + 1]), s.sendSequenceIndex[ch])
  }

  // ---------------------------------------------------------------------------------------------
  // As written

  /** The inputs `sendPacket` accepts without throwing. The channel guard admits every channel up
      to and including MAX_CHANNELS, and negative ones; the per-channel counter lookup that
      follows throws outside 0 .. MAX_CHANNELS-1 whenever a counter is consulted: for an ordered or
      sequenced message that fits, and for every message that is split. */
  predicate AcceptedAsWritten(s: Session, r: Reliability, channel: int, payload: seq<byte>) {
    && channel <= MAX_CHANNELS
    && if !NeedsSplit(r, payload, s.maximumTransferUnit) then
         r.HasOrderFields() ==> 0 <= channel < MAX_CHANNELS
       else
         ChunkSize(r, s.maximumTransferUnit) > 0 && 0 <= channel < MAX_CHANNELS
  }

  /** The fragments `sendPacket` stamps on the split path: every fragment shares the message
      index (when reliable) and the order index (when ordered or sequenced), and each takes the
      next split id. */
  function FragmentsAsWritten(s: Session, r: Reliability, channel: int, chunks: seq<seq<byte>>, orderIndex: int): seq<Message> {
    seq(|chunks|, i requires 0 <= i < |chunks| =>
      Message(r, true,
              if r.IsReliable() then s.messageIndex else 0,
              if r.HasOrderFields() then orderIndex else 0,
              ToJavaByte(channel), |chunks|, s.splitId + i, i, chunks[i]))
  }

  /** What a successful send leaves behind: the old queue untouched, followed by at least one new
      message; the new messages carry the payload in order and each fits the MTU on its own. */
  predicate QueuedPayload(s: Session, t: Session, payload: seq<byte>) {
    && |s.sendQueue| < |t.sendQueue| && t.sendQueue[..|s.sendQueue|] == s.sendQueue
    && Flatten(Payloads(Appended(s, t))) == payload
    && AllFit(Appended(s, t), s.maximumTransferUnit)
    && t.maximumTransferUnit == s.maximumTransferUnit
  }

  /** Appending one message that carries the whole payload and fits. */
  lemma QueuedOne(s: Session, t: Session, m: Message, payload: seq<byte>)
    requires t.sendQueue == s.sendQueue + [m] && t.maximumTransferUnit == s.maximumTransferUnit
    requires m.payload == payload && FRAME_HEADER_SIZE + CalculateSize(m) <= s.maximumTransferUnit
    ensures QueuedPayload(s, t, payload)
  {
    assert Appended(s, t) == [m];
    assert Flatten(Payloads([m])) == payload + Flatten([]);
  }

  /** The branch of `sendPacket` for a message that fits one frame: the message takes the next
      message index when reliable, which is consumed even when the order counter lookup that
      follows throws. */
  function EnqueueAsWritten(s: Session, r: Reliability, channel: int, payload: seq<byte>): (o: Outcome)
    requires Valid(s) && !NeedsSplit(r, payload, s.maximumTransferUnit)
    ensures Valid(o.session) && o.events == []
    ensures o.error.None? <==> (r.HasOrderFields() ==> 0 <= channel < MAX_CHANNELS)
    ensures o.error.Some? ==> (o.error == Some(ChannelOutOfRange)
                               && o.session == s.(messageIndex := o.session.messageIndex))
    ensures o.session.messageIndex == s.messageIndex + (if r.IsReliable() then 1 else 0)
    ensures o.error.None? ==>
              && QueuedPayload(s, o.session, payload) && |o.session.sendQueue| == |s.sendQueue| + 1
              && o.session.sendQueue[|s.sendQueue|].reliability == r
              && (r.IsReliable() ==> o.session.sendQueue[|s.sendQueue|].messageIndex == s.messageIndex)
              && o.session.splitId == s.splitId
    ensures o.error.None? && !r.HasOrderFields() ==>
              o.session.sendOrderIndex == s.sendOrderIndex && o.session.sendSequenceIndex == s.sendSequenceIndex
    ensures o.error.None? && r.HasOrderFields() ==>
              var t := TakeOrderIndex(s, r, channel).0;
              o.session.sendOrderIndex == t.sendOrderIndex && o.session.sendSequenceIndex == t.sendSequenceIndex
  {
    if !r.HasOrderFields() then EnqueuePlain(s, r, channel, payload)
    else if !(0 <= channel < MAX_CHANNELS) then Outcome(Bumped(s, r), [], Some(ChannelOutOfRange))
    else EnqueueOrdered(s, r, channel, payload)
  }

  /** The message the fitting branch builds before any order index: the caller's reliability,
      channel and payload, and the current message index when reliable. */
  function Stamped(s: Session, r: Reliability, channel: int, payload: seq<byte>): Message {
    Blank(r, payload).(orderChannel := ToJavaByte(channel),
                       messageIndex := if r.IsReliable() then s.messageIndex else 0)
  }

  /** The session after `messageIndex++`, which only reliable messages take. */
  function Bumped(s: Session, r: Reliability): Session {
    if r.IsReliable() then s.(messageIndex := s.messageIndex + 1) else s
  }

  /** The fitting branch for a message with no order fields: it is queued and no counter but the
      message index moves. */
  function EnqueuePlain(s: Session, r: Reliability, channel: int, payload: seq<byte>): (o: Outcome)
    requires Valid(s) && !NeedsSplit(r, payload, s.maximumTransferUnit) && !r.HasOrderFields()
    ensures Valid(o.session) && o.events == [] && o.error == None
    ensures o.session == Bumped(s, r).(sendQueue := o.session.sendQueue)
    ensures QueuedPayload(s, o.session, payload) && |o.session.sendQueue| == |s.sendQueue| + 1
    ensures o.session.sendQueue[|s.sendQueue|] == Stamped(s, r, channel, payload)
  {
    var m := Stamped(s, r, channel, payload);
    FitsAlone(r, payload, s.maximumTransferUnit, m);
    Push(s, Bumped(s, r), m)
  }

  /** The fitting branch for an ordered or sequenced message on a channel that has counters: the
      message also takes the channel's order or sequence counter. */
  function EnqueueOrdered(s: Session, r: Reliability, channel: int, payload: seq<byte>): (o: Outcome)
    requires Valid(s) && !NeedsSplit(r, payload, s.maximumTransferUnit) && r.HasOrderFields()
    requires 0 <= channel < MAX_CHANNELS
    ensures Valid(o.session) && o.events == [] && o.error == None
    ensures var t := TakeOrderIndex(s, r, channel).0;
            o.session == t.(messageIndex := Bumped(s, r).messageIndex, sendQueue := o.session.sendQueue)
    ensures QueuedPayload(s, o.session, payload) && |o.session.sendQueue| == |s.sendQueue| + 1
    ensures o.session.sendQueue[|s.sendQueue|]
            == Stamped(s, r, channel, payload).(orderIndex := TakeOrderIndex(s, r, channel).1)
  {
    var (s2, orderIndex) := TakeOrderIndex(Bumped(s, r), r, channel);
    var m := Stamped(s, r, channel, payload).(orderIndex := orderIndex);
    FitsAlone(r, payload, s.maximumTransferUnit, m);
    Push(s, s2, m)
  }

  /** `sendQueue.add`: the message joins the queue of `s2`, a state that differs from `s` only in
      its counters. */
  function Push(s: Session, s2: Session, m: Message): (o: Outcome)
    requires Valid(s2) && s2.sendQueue == s.sendQueue && s2.maximumTransferUnit == s.maximumTransferUnit
    requires FRAME_HEADER_SIZE + CalculateSize(m) <= s.maximumTransferUnit
    ensures Valid(o.session) && o.events == [] && o.error == None
    ensures o.session == s2.(sendQueue := o.session.sendQueue)
    ensures o.session.sendQueue == s.sendQueue + [m] && QueuedPayload(s, o.session, m.payload)
  {
    var t := s2.(sendQueue := s2.sendQueue + [m]);
    QueuedOne(s, t, m, m.payload);
    Outcome(t, [], None)
  }

  /** A message that fits consumes one tick of its channel's order counter when ordered, of its
      sequence counter when sequenced, and none otherwise. */
  lemma EnqueueCounters(s: Session, r: Reliability, channel: int, payload: seq<byte>)
    requires Valid(s) && !NeedsSplit(r, payload, s.maximumTransferUnit)
    requires EnqueueAsWritten(s, r, channel, payload).error.None?
    ensures var t := EnqueueAsWritten(s, r, channel, payload).session;
            && t.sendOrderIndex == (if r.IsOrdered() then s.sendOrderIndex[channel := s.sendOrderIndex[channel] + 1] else s.sendOrderIndex)
            && t.sendSequenceIndex == (if r.IsSequenced() then s.sendSequenceIndex[channel := s.sendSequenceIndex[channel] + 1] else s.sendSequenceIndex)
  {
    if r.HasOrderFields() {
      TakeOrderIndexCounters(s, r, channel);
      FlagConsistency(r);
    }
  }

  lemma TakeOrderIndexCounters(s: Session, r: Reliability, ch: int)
    requires Valid(s) && 0 <= ch < MAX_CHANNELS
    ensures TakeOrderIndex(s, r, ch).1 == (if r.IsOrdered() then s.sendOrderIndex[ch] else s.sendSequenceIndex[ch])
    ensures var t := TakeOrderIndex(s, r, ch).0;
            && t.sendOrderIndex == (if r.IsOrdered() then s.sendOrderIndex[ch := s.sendOrderIndex[ch] + 1] else s.sendOrderIndex)
            && t.sendSequenceIndex == (if r.IsOrdered() then s.sendSequenceIndex else s.sendSequenceIndex[ch := s.sendSequenceIndex[ch] + 1])
  {
  }

  /** A split message draws its order index from the channel's order counter when ordered and
      from its sequence counter otherwise, even for a reliability that has no order fields. */
  lemma SplitCounters(s: Session, r: Reliability, channel: int, payload: seq<byte>)
    requires Valid(s) && NeedsSplit(r, payload, s.maximumTransferUnit)
    requires SplitAsWritten(s, r, channel, payload).error.None?
    ensures var t := SplitAsWritten(s, r, channel, payload).session;
            && t.sendOrderIndex == (if r.IsOrdered() then s.sendOrderIndex[channel := s.sendOrderIndex[channel] + 1] else s.sendOrderIndex)
            && t.sendSequenceIndex == (if r.IsOrdered() then s.sendSequenceIndex else s.sendSequenceIndex[channel := s.sendSequenceIndex[channel] + 1])
  {
    TakeOrderIndexCounters(s, r, channel);
  }

  /** A payload that needs no split fits one frame as an unsplit message, whatever its indices. */
  lemma FitsAlone(r: Reliability, payload: seq<byte>, mtu: int, m: Message)
    requires !NeedsSplit(r, payload, mtu) && m.reliability == r && !m.split && m.payload == payload
    ensures FRAME_HEADER_SIZE + CalculateSize(m) <= mtu
  {
  }

  /** The split branch of `sendPacket`: the payload is cut into chunks sized to fill a frame; one
      order index is drawn whatever the reliability (the sequence counter when not ordered), every
      fragment takes the next split id, and the message index does not move. */
  function SplitAsWritten(s: Session, r: Reliability, channel: int, payload: seq<byte>): (o: Outcome)
    requires Valid(s) && NeedsSplit(r, payload, s.maximumTransferUnit)
    ensures Valid(o.session) && o.events == []
    ensures o.error.None? <==> ChunkSize(r, s.maximumTransferUnit) > 0 && 0 <= channel < MAX_CHANNELS
    ensures o.error.Some? ==> (o.session == s
                               && o.error == Some(if ChunkSize(r, s.maximumTransferUnit) <= 0 then InvalidChunkSize else ChannelOutOfRange))
    ensures o.error.None? ==>
              && QueuedPayload(s, o.session, payload) && |o.session.sendQueue| >= |s.sendQueue| + 2
              && FRAME_HEADER_SIZE + CalculateSize(o.session.sendQueue[|s.sendQueue|]) == s.maximumTransferUnit
              && o.session.messageIndex == s.messageIndex
              && o.session.splitId == s.splitId + (|o.session.sendQueue| - |s.sendQueue|)
  {
    var size := ChunkSize(r, s.maximumTransferUnit);
    if size <= 0 then Outcome(s, [], Some(InvalidChunkSize))
    else if !(0 <= channel < MAX_CHANNELS) then Outcome(s, [], Some(ChannelOutOfRange))
    else
      var chunks := Chunks(payload, size);
      ChunkCount(payload, size);
      var (s1, orderIndex) := TakeOrderIndex(s, r, channel);
      var fragments := FragmentsAsWritten(s, r, channel, chunks, orderIndex);
      var t := s1.(splitId := s.splitId + |chunks|, sendQueue := s.sendQueue + fragments);
      assert Appended(s, t) == fragments;
      assert Payloads(fragments) == chunks;
      assert t.sendQueue[|s.sendQueue|] == fragments[0];
      Outcome(t, [], None)
  }

  /** `sendPacket(reliability, channel, packet)`. The exception a step throws is reported in
      `error`, with the state as it stood when the exception was raised. */
  function SendPacket(s: Session, r: Reliability, channel: int, payload: seq<byte>): (o: Outcome)
    requires Valid(s)
    ensures Valid(o.session) && o.events == []
    ensures o.error.None? <==> AcceptedAsWritten(s, r, channel, payload)
    ensures o.error == Some(InvalidChannel) <==> channel > MAX_CHANNELS
    ensures channel > MAX_CHANNELS ==> o.session == s
    ensures o.error.Some? ==>
              o.session == s || (r.IsReliable() && o.session == s.(messageIndex := s.messageIndex + 1))
    ensures o.error.None? ==> QueuedPayload(s, o.session, payload)
  {
    if channel > MAX_CHANNELS then Outcome(s, [], Some(InvalidChannel))
    else if !NeedsSplit(r, payload, s.maximumTransferUnit) then EnqueueAsWritten(s, r, channel, payload)
    else SplitAsWritten(s, r, channel, payload)
  }

  /** The channel guard is off by one: channel MAX_CHANNELS passes it, and a reliable ordered or
      sequenced message on it then fails the counter lookup after it has already consumed a
      message index, which is lost. */
  lemma ChannelLimitOffByOne(s: Session, r: Reliability, payload: seq<byte>)
    requires Valid(s) && r.IsReliable() && r.HasOrderFields()
    requires !NeedsSplit(r, payload, s.maximumTransferUnit)
    ensures SendPacket(s, r, MAX_CHANNELS, payload)
            == Outcome(s.(messageIndex := s.messageIndex + 1), [], Some(ChannelOutOfRange))
  {
  }

  /** Split fragments as written carry pairwise different split ids, and all share one order
      index and the caller's channel. */
  lemma SplitIdsAsWritten(s: Session, r: Reliability, channel: int, payload: seq<byte>)
    requires Valid(s) && AcceptedAsWritten(s, r, channel, payload) && NeedsSplit(r, payload, s.maximumTransferUnit)
    ensures var t := SendPacket(s, r, channel, payload).session;
            var fs := Appended(s, t);
            && |fs| >= 2
            && forall i :: 0 <= i < |fs| ==>
                 fs[i].split && fs[i].splitCount == |fs| && fs[i].splitIndex == i
                 && fs[i].splitId == s.splitId + i && fs[i].reliability == r
                 && fs[i].orderIndex == (if r.HasOrderFields() then TakeOrderIndex(s, r, channel).1 else 0)
                 && fs[i].orderChannel == ToJavaByte(channel)
  {
    ChunkCount(payload, ChunkSize(r, s.maximumTransferUnit));
  }

  /** An assembly for a split count of at least two, fed messages among which only those at one
      split index belong to it, never joins: it never holds more than that one index. */
  lemma {:induction false} OneIndexNeverJoins(a: Assembly, ms: seq<Message>, index: int)
    requires a.splitCount >= 2 && a.payloads.Keys <= {index}
    requires forall k :: 0 <= k < |ms| && Belongs(a, ms[k]) ==> ms[k].splitIndex == index
    ensures Feed(a, ms).0 == a.(payloads := Feed(a, ms).0.payloads)
    ensures Feed(a, ms).0.payloads.Keys <= {index}
    ensures forall k :: 0 <= k < |ms| ==> !(Feed(a, ms).1[k].Success? && Feed(a, ms).1[k].value.Some?)
  {
    if |ms| > 0 {
      var init := ms[..|ms| - 1];
      var last := ms[|ms| - 1];
      OneIndexNeverJoins(a, init, index);
      var previous := Feed(a, init);
      var step := Update(previous.0, last);
      assert Belongs(previous.0, last) <==> Belongs(a, last);
      SubsetCard(step.assembly.payloads.Keys, {index});
      assert Feed(a, ms) == (step.assembly, previous.1 + [step.result]);
    }
  }

  /** Because every fragment has its own split id, the receiver opens one assembly per fragment,
      each expecting the full split count and each ever receiving only its own fragment: whatever
      the fragments' arrival order and repetitions, no assembly of the message ever joins. */
  lemma SplitNeverReassemblesAsWritten(s: Session, r: Reliability, channel: int, payload: seq<byte>, i: int, arrivals: seq<int>)
    requires Valid(s) && AcceptedAsWritten(s, r, channel, payload) && NeedsSplit(r, payload, s.maximumTransferUnit)
    requires var fs := Appended(s, SendPacket(s, r, channel, payload).session);
             0 <= i < |fs| && forall k :: 0 <= k < |arrivals| ==> 0 <= arrivals[k] < |fs|
    ensures var fs := Appended(s, SendPacket(s, r, channel, payload).session);
            var a := Assembly(fs[i].splitId, |fs|, r, map[]);
            var results := Feed(a, seq(|arrivals|, k requires 0 <= k < |arrivals| => fs[arrivals[k]])).1;
            forall k :: 0 <= k < |arrivals| ==> !(results[k].Success? && results[k].value.Some?)
  {
    SplitIdsAsWritten(s, r, channel, payload);
    var fs := Appended(s, SendPacket(s, r, channel, payload).session);
    var a := Assembly(fs[i].splitId, |fs|, r, map[]);
    var ms := seq(|arrivals|, k requires 0 <= k < |arrivals| => fs[arrivals[k]]);
    forall k | 0 <= k < |ms| && Belongs(a, ms[k])
      ensures ms[k].splitIndex == i
    {
      assert ms[k] == fs[arrivals[k]];
    }
    OneIndexNeverJoins(a, ms, i);
  }

  /** The split path never advances the message index, so the next reliable message is stamped
      with the index all the fragments carry; a receiver that drops repeated reliable message
      indices would lose it. */
  lemma SplitReusesMessageIndex(s: Session, r: Reliability, channel: int, payload: seq<byte>,
                                r2: Reliability, channel2: int, payload2: seq<byte>)
    requires Valid(s) && r.IsReliable() && r2.IsReliable()
    requires AcceptedAsWritten(s, r, channel, payload) && NeedsSplit(r, payload, s.maximumTransferUnit)
    requires var t := SendPacket(s, r, channel, payload).session;
             AcceptedAsWritten(t, r2, channel2, payload2) && !NeedsSplit(r2, payload2, t.maximumTransferUnit)
    ensures var t := SendPacket(s, r, channel, payload).session;
            var u := SendPacket(t, r2, channel2, payload2).session;
            var fs := Appended(s, t);
            && |fs| >= 2 && |u.sendQueue| == |t.sendQueue| + 1
            && (forall i :: 0 <= i < |fs| ==> fs[i].messageIndex == s.messageIndex)
            && u.sendQueue[|t.sendQueue|].messageIndex == s.messageIndex
  {
    ChunkCount(payload, ChunkSize(r, s.maximumTransferUnit));
  }

  // ---------------------------------------------------------------------------------------------
  // Corrected

  /** `sendPacket` with the channel guard rejecting every channel outside 0 .. MAX_CHANNELS-1
      before anything changes, and with the split path done as in the library's later
      `SplitPacket.splitPacket`: one split id shared by all fragments of the message, and one
      fresh message index per fragment when reliable. The message that fits is handled as
      written. */
  function SendPacketCorrected(s: Session, r: Reliability, channel: int, payload: seq<byte>): (o: Outcome)
    requires Valid(s)
    ensures Valid(o.session) && o.events == []
    ensures o.error == Some(InvalidChannel) <==> !(0 <= channel < MAX_CHANNELS)
    ensures o.error != Some(ChannelOutOfRange)
    ensures o.error.Some? ==> o.session == s
    ensures o.error.Some? <==>
              !(0 <= channel < MAX_CHANNELS)
              || (NeedsSplit(r, payload, s.maximumTransferUnit) && ChunkSize(r, s.maximumTransferUnit) <= 0)
    ensures o.error.None? ==>
              |s.sendQueue| < |o.session.sendQueue| && o.session.sendQueue[..|s.sendQueue|] == s.sendQueue
              && Flatten(Payloads(Appended(s, o.session))) == payload
              && AllFit(Appended(s, o.session), s.maximumTransferUnit)
              && o.session.maximumTransferUnit == s.maximumTransferUnit
  {
    var mtu := s.maximumTransferUnit;
    if !(0 <= channel < MAX_CHANNELS) then Outcome(s, [], Some(InvalidChannel))
    else if !NeedsSplit(r, payload, mtu) then SendPacket(s, r, channel, payload)
    else if ChunkSize(r, mtu) <= 0 then Outcome(s, [], Some(InvalidChunkSize))
    else
      var (s1, orderIndex) := TakeOrderIndex(s, r, channel);
      var m := Blank(r, payload).(orderIndex := orderIndex, orderChannel := ToJavaByte(channel), splitId := s.splitId);
      var split := SplitPacket(s.messageIndex, mtu, m).value;
      FragmentsDescribeTheMessage(s.messageIndex, mtu, m);
      FragmentsFit(s.messageIndex, mtu, m);
      var t := s1.(splitId := s.splitId + 1, messageIndex := split.nextMessageIndex,
                   sendQueue := s.sendQueue + split.fragments);
      assert Appended(s, t) == split.fragments;
      Outcome(t, [], None)
  }

  /** The message the corrected split path cuts into fragments. */
  function SplitSource(s: Session, r: Reliability, channel: int, payload: seq<byte>): Message
    requires Valid(s) && 0 <= channel < MAX_CHANNELS
  {
    Blank(r, payload).(orderIndex := TakeOrderIndex(s, r, channel).1, orderChannel := ToJavaByte(channel), splitId := s.splitId)
  }

  /** The corrected fragments share the session's split id, which then advances by one; delivered
      to a fresh assembly in any order, each index at least once, they complete exactly at the
      last arrival and give back the payload (for at most MAX_SPLIT_COUNT fragments). */
  lemma CorrectedFragmentsReassemble(s: Session, r: Reliability, channel: int, payload: seq<byte>, order: seq<int>)
    requires Valid(s) && 0 <= channel < MAX_CHANNELS
    requires NeedsSplit(r, payload, s.maximumTransferUnit) && ChunkSize(r, s.maximumTransferUnit) > 0
    requires IsArrival(order, |Appended(s, SendPacketCorrected(s, r, channel, payload).session)|)
    requires |Appended(s, SendPacketCorrected(s, r, channel, payload).session)| <= MAX_SPLIT_COUNT
    ensures var t := SendPacketCorrected(s, r, channel, payload).session;
            var fs := Appended(s, t);
            && t.splitId == s.splitId + 1
            && (forall i :: 0 <= i < |fs| ==> fs[i].splitId == s.splitId && fs[i].splitCount == |fs|)
            && SplitAssembly.New(s.splitId, |fs|, r).Success?
            && var arrivals := seq(|order|, k requires 0 <= k < |order| => fs[order[k]]);
               var results := Feed(SplitAssembly.New(s.splitId, |fs|, r).value, arrivals).1;
               (forall k :: 0 <= k < |arrivals| - 1 ==> results[k] == Success(None))
               && results[|arrivals| - 1] == Success(Some(payload))
  {
    var mtu := s.maximumTransferUnit;
    var m := SplitSource(s, r, channel, payload);
    ChunkCount(payload, ChunkSize(r, mtu));
    FragmentsDescribeTheMessage(s.messageIndex, mtu, m);
    FragmentsReassemble(s.messageIndex, mtu, m, order);
  }

  /** Every reliable message in `q` carries an index below `next`, and no two carry the same. */
  predicate DistinctReliableIndices(q: seq<Message>, next: int) {
    && (forall i :: 0 <= i < |q| && q[i].reliability.IsReliable() ==> q[i].messageIndex < next)
    && (forall i, j :: 0 <= i < j < |q| && q[i].reliability.IsReliable() && q[j].reliability.IsReliable() ==>
          q[i].messageIndex != q[j].messageIndex)
  }

  /** Appending messages whose reliable indices are distinct and lie in `next` .. `next2 - 1`. */
  lemma AppendKeepsDistinct(q: seq<Message>, next: int, extra: seq<Message>, next2: int)
    requires DistinctReliableIndices(q, next) && next <= next2
    requires forall i :: 0 <= i < |extra| && extra[i].reliability.IsReliable() ==> next <= extra[i].messageIndex < next2
    requires forall i, j :: 0 <= i < j < |extra| && extra[i].reliability.IsReliable() && extra[j].reliability.IsReliable() ==>
               extra[i].messageIndex != extra[j].messageIndex
    ensures DistinctReliableIndices(q + extra, next2)
  {
    var all := q + extra;
    forall i, j | 0 <= i < j < |all| && all[i].reliability.IsReliable() && all[j].reliability.IsReliable()
      ensures all[i].messageIndex != all[j].messageIndex
    {
      if j >= |q| && i >= |q| {
        assert all[i] == extra[i - |q|] && all[j] == extra[j - |q|];
      } else if j >= |q| {
        assert all[j] == extra[j - |q|];
      }
    }
  }

  /** The corrected send keeps the reliable messages of the send queue on pairwise different
      message indices, all below the session's counter. */
  lemma CorrectedIndicesStayDistinct(s: Session, r: Reliability, channel: int, payload: seq<byte>)
    requires Valid(s) && DistinctReliableIndices(s.sendQueue, s.messageIndex)
    ensures var t := SendPacketCorrected(s, r, channel, payload).session;
            DistinctReliableIndices(t.sendQueue, t.messageIndex)
  {
    var mtu := s.maximumTransferUnit;
    if !(0 <= channel < MAX_CHANNELS) {
    } else if !NeedsSplit(r, payload, mtu) {
      FitKeepsDistinct(s, r, channel, payload);
    } else if ChunkSize(r, mtu) > 0 {
      SplitKeepsDistinct(s, r, channel, payload);
    }
  }

  lemma FitKeepsDistinct(s: Session, r: Reliability, channel: int, payload: seq<byte>)
    requires Valid(s) && DistinctReliableIndices(s.sendQueue, s.messageIndex)
    requires !NeedsSplit(r, payload, s.maximumTransferUnit)
    ensures var t := EnqueueAsWritten(s, r, channel, payload).session;
            DistinctReliableIndices(t.sendQueue, t.messageIndex)
  {
    var o := EnqueueAsWritten(s, r, channel, payload);
    if o.error.None? {
      var m := o.session.sendQueue[|s.sendQueue|];
      assert o.session.sendQueue == s.sendQueue + [m];
      AppendKeepsDistinct(s.sendQueue, s.messageIndex, [m], o.session.messageIndex);
    }
  }

  lemma SplitKeepsDistinct(s: Session, r: Reliability, channel: int, payload: seq<byte>)
    requires Valid(s) && DistinctReliableIndices(s.sendQueue, s.messageIndex) && 0 <= channel < MAX_CHANNELS
    requires NeedsSplit(r, payload, s.maximumTransferUnit) && ChunkSize(r, s.maximumTransferUnit) > 0
    ensures var t := SendPacketCorrected(s, r, channel, payload).session;
            DistinctReliableIndices(t.sendQueue, t.messageIndex)
  {
    var mtu := s.maximumTransferUnit;
    var m := SplitSource(s, r, channel, payload);
    var split := SplitPacket(s.messageIndex, mtu, m).value;
    FragmentMessageIndices(s.messageIndex, mtu, m);
    var t := SendPacketCorrected(s, r, channel, payload).session;
    assert t.sendQueue == s.sendQueue + split.fragments && t.messageIndex == split.nextMessageIndex;
    AppendKeepsDistinct(s.sendQueue, s.messageIndex, split.fragments, split.nextMessageIndex);
  }
}
