/** The receive path of a session: a datagram frame is filtered for duplicates and acknowledged,
    gaps before it are queued for negative acknowledgement, and each message in it passes through
    reassembly, duplicate suppression and ordered or sequenced dispatch. */
module SessionReceive {
  import opened Wrappers
  import opened Constants
  import opened Cursor
  import opened ReliabilityCatalog
  import opened Encapsulated
  import opened SplitAssembly
  import opened SessionState

  // ---------------------------------------------------------------------------------------------
  // Ordered drain

  /** The waiting order indices at or after `next`. */
  function KeysFrom(q: map<int, Message>, next: int): set<int> {
    set k | k in q && k >= next
  }

  lemma KeysFromShrinks(q: map<int, Message>, next: int)
    requires next in q
    ensures |KeysFrom(q, next + 1)| < |KeysFrom(q, next)|
  {
    assert KeysFrom(q, next + 1) == KeysFrom(q, next) - {next};
  }

  /** The delivery loop of an ordered channel: hands over the messages waiting at `next`,
      `next + 1`, ... up to the first missing index, which becomes the channel's new expectation.
      Entries stay in the queue. */
  function Drain(q: map<int, Message>, next: int): (r: (seq<Event>, int))
    ensures r.1 >= next && r.1 !in q
    ensures forall k :: next <= k < r.1 ==> k in q
    ensures |r.0| == r.1 - next
    ensures forall k :: next <= k < r.1 ==> r.0[k - next] == Deliver(q[k].payload, q[k].orderChannel)
    ensures AllDeliveries(r.0)
    decreases |KeysFrom(q, next)|
  {
    if next !in q then ([], next)
    else
      KeysFromShrinks(q, next);
      var rest := Drain(q, next + 1);
      ([Deliver(q[next].payload, q[next].orderChannel)] + rest.0, rest.1)
  }

  // ---------------------------------------------------------------------------------------------
  // One message

  /** Only the receive-side tables differ between `s` and `t`. */
  predicate ReceiveSideOnly(s: Session, t: Session) {
    t == s.(splitQueue := t.splitQueue, messageIndexQueue := t.messageIndexQueue,
            orderedHandleQueue := t.orderedHandleQueue, receiveOrderIndex := t.receiveOrderIndex,
            receiveSequenceIndex := t.receiveSequenceIndex)
  }

  predicate AllDeliveries(events: seq<Event>) {
    forall i :: 0 <= i < |events| ==> events[i].Deliver?
  }

  /** The split stage: a fragment is stored in the assembly for its split id (created on first
      sight, never removed); the message continues only once the assembly joins, carrying the
      joined payload. A message that is not split continues unchanged. */
  function Reassemble(s: Session, e: Message): (r: (Session, Result<Option<Message>, Error>))
    ensures ReceiveSideOnly(s, r.0) && r.0.messageIndexQueue == s.messageIndexQueue
    ensures r.0.orderedHandleQueue == s.orderedHandleQueue && r.0.receiveOrderIndex == s.receiveOrderIndex
    ensures r.0.receiveSequenceIndex == s.receiveSequenceIndex
    ensures !e.split ==> r == (s, Success(Some(e)))
    ensures r.1.Success? && r.1.value.Some? ==> r.1.value.value == e.(payload := r.1.value.value.payload)
  {
    if !e.split then (s, Success(Some(e)))
    else
      var created := if e.splitId in s.splitQueue then Success(s.splitQueue[e.splitId])
                     else SplitAssembly.New(e.splitId, e.splitCount, e.reliability);
      match created
      case Failure(err) => (s, Failure(err))
      case Success(a) =>
        var step := Update(a, e);
        var stored := s.(splitQueue := s.splitQueue[e.splitId := step.assembly]);
        match step.result
        case Failure(err) => (stored, Failure(err))
        case Success(None) => (stored, Success(None))
        case Success(Some(payload)) => (stored, Success(Some(e.(payload := payload))))
  }

  /** The dispatch stage: ordered messages are queued and drained, sequenced messages pass only
      above the channel's watermark, everything else is delivered at once. A channel outside
      0..MAX_CHANNELS-1 has no table and the lookup throws. */
  function Dispatch(s: Session, e: Message): (r: Outcome)
    requires Valid(s)
    ensures Valid(r.session) && ReceiveSideOnly(s, r.session) && AllDeliveries(r.events)
    ensures r.session.splitQueue == s.splitQueue && r.session.messageIndexQueue == s.messageIndexQueue
    ensures !e.reliability.IsOrdered() && !e.reliability.IsSequenced() ==>
              r == Outcome(s, [Deliver(e.payload, e.orderChannel)], None)
  {
    var ch := e.orderChannel;
    if e.reliability.IsOrdered() then
      if !(0 <= ch < MAX_CHANNELS) then Outcome(s, [], Some(ChannelOutOfRange))
      else
        var q := s.orderedHandleQueue[ch][e.orderIndex := e];
        var drained := Drain(q, s.receiveOrderIndex[ch]);
        Outcome(s.(orderedHandleQueue := s.orderedHandleQueue[ch := q],
                   receiveOrderIndex := s.receiveOrderIndex[ch := drained.1]),
                drained.0, None)
    else if e.reliability.IsSequenced() then
      if !(0 <= ch < MAX_CHANNELS) then Outcome(s, [], Some(ChannelOutOfRange))
      else if e.orderIndex > s.receiveSequenceIndex[ch] then
        Outcome(s.(receiveSequenceIndex := s.receiveSequenceIndex[ch := e.orderIndex + 1]),
                [Deliver(e.payload, ch)], None)
      else
        Outcome(s, [], None)
    else
      Outcome(s, [Deliver(e.payload, ch)], None)
  }

  /** `handleEncapsulated0`: reassembly, then (for reliable messages) the message-index duplicate
      filter, then dispatch. */
  function HandleEncapsulated(s: Session, e: Message): (r: Outcome)
    requires Valid(s)
    ensures Valid(r.session) && ReceiveSideOnly(s, r.session) && AllDeliveries(r.events)
  {
    var assembled := Reassemble(s, e);
    match assembled.1
    case Failure(err) => Outcome(assembled.0, [], Some(err))
    case Success(None) => Outcome(assembled.0, [], None)
    case Success(Some(m)) =>
      if m.reliability.IsReliable() && m.messageIndex in assembled.0.messageIndexQueue then
        Outcome(assembled.0, [], None)
      else
        var filtered := if m.reliability.IsReliable()
                        then assembled.0.(messageIndexQueue := assembled.0.messageIndexQueue + {m.messageIndex})
                        else assembled.0;
        Dispatch(filtered, m)
  }

  /** The messages of a frame in order; the first exception abandons the rest. */
  function HandleAll(s: Session, ms: seq<Message>): (r: Outcome)
    requires Valid(s)
    ensures Valid(r.session) && ReceiveSideOnly(s, r.session) && AllDeliveries(r.events)
    decreases |ms|
  {
    if |ms| == 0 then Outcome(s, [], None)
    else
      var first := HandleEncapsulated(s, ms[0]);
      if first.error.Some? then first
      else
        var rest := HandleAll(first.session, ms[1..]);
        Outcome(rest.session, first.events + rest.events, rest.error)
  }

  // ---------------------------------------------------------------------------------------------
  // One frame

  /** Whether a record stands for sequence number `n`. */
  predicate Covers(r: Record, n: int) {
    match r
    case Single(i) => n == i
    case Ranged(a, b) => a <= n <= b
  }

  /** The negative acknowledgement for the numbers skipped between the expected `last` and the
      arriving `sequenceNumber`: none when nothing was skipped, a single record when one was, a
      range otherwise. */
  function GapRecord(last: int, sequenceNumber: int): (r: Option<Record>)
    ensures r.Some? <==> sequenceNumber > last
    ensures r.Some? ==> forall n :: Covers(r.value, n) <==> last <= n < sequenceNumber
    ensures r.Some? ==> (r.value.Single? <==> sequenceNumber == last + 1)
  {
    var difference := sequenceNumber - last;
    if difference > 0 then
      if difference > 1 then Some(Ranged(last, sequenceNumber - 1))
      else Some(Single(sequenceNumber - 1))
    else None
  }

  /** The bookkeeping for a new frame number `n`: it is recorded as seen, the gap before it is
      queued for NACK, the next expected number is set past it and an ACK for it is queued. */
  function Recorded(s: Session, n: int): Session {
    var gap := GapRecord(s.lastSequenceNumber, n);
    s.(customIndexQueue := s.customIndexQueue + {n},
       missingQueue := s.missingQueue + (if gap.Some? then [gap.value] else []),
       lastSequenceNumber := n + 1,
       acknowledgedQueue := s.acknowledgedQueue + [Single(n)])
  }

  /** `handleCustom0` at time `now`: a frame already seen is ignored; otherwise its number is
      recorded, the gap before it queued for NACK, the next expected number set past it, an ACK
      for it queued and flushed at once, and its messages handled. */
  function HandleCustom(s: Session, frame: Frame, now: int): (r: Outcome)
    requires Valid(s)
    ensures Valid(r.session)
  {
    var n := frame.sequenceNumber;
    if n in s.customIndexQueue then Outcome(s, [], None)
    else
      var flushed := UpdateAcknowledge(Recorded(s, n), now, true);
      var handled := HandleAll(flushed.0, frame.messages);
      Outcome(handled.session, flushed.1 + handled.events, handled.error)
  }

  // ---------------------------------------------------------------------------------------------
  // Properties of the frame filter

  /** A frame number seen before changes nothing and emits nothing. */
  lemma DuplicateFrameIgnored(s: Session, frame: Frame, now: int)
    requires Valid(s) && frame.sequenceNumber in s.customIndexQueue
    ensures HandleCustom(s, frame, now) == Outcome(s, [], None)
  {
  }

  /** A new frame number is recorded; the next expected number becomes one past it even when it
      is older than the current expectation; the gap record and the ACK record are queued; the
      acknowledgement flush is forced, so the updated ACK queue goes out first. */
  lemma FreshFrameAcknowledged(s: Session, frame: Frame, now: int)
    requires Valid(s) && frame.sequenceNumber !in s.customIndexQueue
    ensures var t := HandleCustom(s, frame, now).session;
            var n := frame.sequenceNumber;
            && t.customIndexQueue == s.customIndexQueue + {n}
            && t.lastSequenceNumber == n + 1
            && t.acknowledgedQueue == s.acknowledgedQueue + [Single(n)]
            && t.missingQueue == s.missingQueue + (if n > s.lastSequenceNumber
                                                   then [GapRecord(s.lastSequenceNumber, n).value] else [])
            && t.lastAckSend == now
    ensures |HandleCustom(s, frame, now).events| > 0
            && HandleCustom(s, frame, now).events[0] == SendAck(s.acknowledgedQueue + [Single(frame.sequenceNumber)])
  {
  }

  /** A new frame's messages are handled after the forced flush, on the flushed session: the
      flush's events come first, then exactly the events of handling the messages in order, and
      the frame ends with their session and exception. */
  lemma FreshFrameHandled(s: Session, frame: Frame, now: int)
    requires Valid(s) && frame.sequenceNumber !in s.customIndexQueue
    ensures var flushed := UpdateAcknowledge(Recorded(s, frame.sequenceNumber), now, true);
            var handled := HandleAll(flushed.0, frame.messages);
            HandleCustom(s, frame, now) == Outcome(handled.session, flushed.1 + handled.events, handled.error)
  {
  }

  // ---------------------------------------------------------------------------------------------
  // Properties of the message sequence of one frame

  /** The outcome of continuing with `rest` after `x`: `x` itself when it ended in an exception,
      otherwise `rest` handled on its session, after its events. */
  function Continue(x: Outcome, rest: seq<Message>): Outcome
    requires Valid(x.session)
  {
    if x.error.Some? then x
    else
      var y := HandleAll(x.session, rest);
      Outcome(y.session, x.events + y.events, y.error)
  }

  /** One message, then the rest: an exception from the message is the frame's outcome;
      otherwise the rest is handled on its session, after its events. */
  lemma HandleAllStep(s: Session, m: Message, rest: seq<Message>)
    requires Valid(s)
    ensures HandleAll(s, [m] + rest) == Continue(HandleEncapsulated(s, m), rest)
  {
    assert ([m] + rest)[0] == m && ([m] + rest)[1..] == rest;
  }

  // ---------------------------------------------------------------------------------------------
  // Properties of the message stages

  /** A message that is neither ordered nor sequenced, once whole and not a reliable duplicate, is
      delivered at once on its channel, with no exception; only its message index is recorded,
      when reliable. */
  lemma PlainDelivered(s: Session, e: Message)
    requires Valid(s) && !e.reliability.IsOrdered() && !e.reliability.IsSequenced()
    requires Reassemble(s, e).1.Success? && Reassemble(s, e).1.value.Some?
    requires !e.reliability.IsReliable() || e.messageIndex !in s.messageIndexQueue
    ensures var m := Reassemble(s, e).1.value.value;
            var t := Reassemble(s, e).0;
            var r := HandleEncapsulated(s, e);
            && r.events == [Deliver(m.payload, e.orderChannel)] && r.error.None?
            && r.session == (if e.reliability.IsReliable()
                             then t.(messageIndexQueue := t.messageIndexQueue + {e.messageIndex}) else t)
    ensures !e.split ==> HandleEncapsulated(s, e) == Outcome(
              if e.reliability.IsReliable() then s.(messageIndexQueue := s.messageIndexQueue + {e.messageIndex}) else s,
              [Deliver(e.payload, e.orderChannel)], None)
  {
  }

  /** A reliable, unsplit message whose message index was seen before is dropped silently. */
  lemma ReliableDuplicateDropped(s: Session, e: Message)
    requires Valid(s) && !e.split && e.reliability.IsReliable() && e.messageIndex in s.messageIndexQueue
    ensures HandleEncapsulated(s, e) == Outcome(s, [], None)
  {
  }

  /** A reliable, unsplit message seen for the first time has its message index recorded. */
  lemma ReliableIndexRecorded(s: Session, e: Message)
    requires Valid(s) && !e.split && e.reliability.IsReliable() && e.messageIndex !in s.messageIndexQueue
    ensures HandleEncapsulated(s, e).session.messageIndexQueue == s.messageIndexQueue + {e.messageIndex}
  {
  }

  /** A fragment that leaves its assembly incomplete emits nothing and changes only the split
      table; in particular its message index is not recorded. */
  lemma IncompleteFragmentStops(s: Session, e: Message)
    requires Valid(s) && e.split && Reassemble(s, e).1 == Success(None)
    ensures HandleEncapsulated(s, e).events == [] && HandleEncapsulated(s, e).error.None?
    ensures HandleEncapsulated(s, e).session == s.(splitQueue := HandleEncapsulated(s, e).session.splitQueue)
  {
  }

  /** An ordered message on a valid channel: the channel delivers exactly the contiguous run of
      waiting indices that starts at its expectation, in index order, and expects the first
      missing index next. A message ahead of the expectation is held and nothing is delivered;
      the message at the expectation is delivered first. */
  lemma OrderedDelivery(s: Session, e: Message)
    requires Valid(s) && !e.split && e.reliability.IsOrdered() && e.messageIndex !in s.messageIndexQueue
    requires 0 <= e.orderChannel < MAX_CHANNELS
    ensures var ch := e.orderChannel;
            var r := HandleEncapsulated(s, e);
            var q := s.orderedHandleQueue[ch][e.orderIndex := e];
            var next := s.receiveOrderIndex[ch];
            && r.error.None?
            && r.session.orderedHandleQueue[ch] == q
            && r.session.receiveOrderIndex[ch] >= next
            && r.session.receiveOrderIndex[ch] !in q
            && |r.events| == r.session.receiveOrderIndex[ch] - next
            && (forall k :: next <= k < r.session.receiveOrderIndex[ch] ==> k in q)
            && (forall k :: next <= k < r.session.receiveOrderIndex[ch] ==>
                  r.events[k - next] == Deliver(q[k].payload, q[k].orderChannel))
            && (forall c :: 0 <= c < MAX_CHANNELS && c != ch ==>
                  r.session.receiveOrderIndex[c] == s.receiveOrderIndex[c])
            && (e.orderIndex != next ==> r.events == [] && r.session.receiveOrderIndex[ch] == next)
            && (e.orderIndex == next ==> |r.events| > 0 && r.events[0] == Deliver(e.payload, ch))
  {
    FlagConsistency(e.reliability);
  }

  /** The expectation of an ordered channel never decreases. */
  lemma OrderedExpectationMonotone(s: Session, e: Message, ch: int)
    requires Valid(s) && 0 <= ch < MAX_CHANNELS
    ensures HandleEncapsulated(s, e).session.receiveOrderIndex[ch] >= s.receiveOrderIndex[ch]
  {
  }

  /** A sequenced message on a valid channel is delivered iff its order index is above the
      watermark, and the watermark then moves one past it. */
  lemma SequencedDelivery(s: Session, e: Message)
    requires Valid(s) && !e.split && e.reliability.IsSequenced()
    requires !e.reliability.IsReliable() || e.messageIndex !in s.messageIndexQueue
    requires 0 <= e.orderChannel < MAX_CHANNELS
    ensures var ch := e.orderChannel;
            var r := HandleEncapsulated(s, e);
            && r.error.None?
            && (r.events == [Deliver(e.payload, ch)] <==> e.orderIndex > s.receiveSequenceIndex[ch])
            && (r.events == [] <==> e.orderIndex <= s.receiveSequenceIndex[ch])
            && r.session.receiveSequenceIndex[ch]
               == (if e.orderIndex > s.receiveSequenceIndex[ch] then e.orderIndex + 1 else s.receiveSequenceIndex[ch])
  {
    FlagConsistency(e.reliability);
  }

  /** Consequences of the strict comparison and the watermark's "+1": on a fresh channel index 0
      is dropped, and right after index `w` is delivered, index `w + 1` is dropped too. */
  lemma SequencedSkipsSuccessor(s: Session, e: Message, f: Message)
    requires Valid(s) && !e.split && !f.split
    requires e.reliability == UnreliableSequenced && f.reliability == UnreliableSequenced
    requires 0 <= e.orderChannel < MAX_CHANNELS && f.orderChannel == e.orderChannel
    requires e.orderIndex > s.receiveSequenceIndex[e.orderChannel] && f.orderIndex == e.orderIndex + 1
    ensures HandleEncapsulated(s, e).events == [Deliver(e.payload, e.orderChannel)]
    ensures HandleEncapsulated(HandleEncapsulated(s, e).session, f).events == []
  {
  }

  lemma SequencedFreshChannelDropsZero(now: int, mtu: int, e: Message)
    requires !e.split && e.reliability == UnreliableSequenced && e.orderIndex == 0
    requires 0 <= e.orderChannel < MAX_CHANNELS
    ensures HandleEncapsulated(SessionState.New(mtu, now), e).events == []
  {
    assert SessionState.New(mtu, now).receiveSequenceIndex[e.orderChannel] == 0;
  }

  /** A concrete arrival order on channel 0: order indices 2, 0, 1 in one frame. Index 2 is held,
      index 0 is delivered alone, and index 1 releases itself and then index 2. */
  lemma OrderedScenario(mtu: int, now: int, p0: seq<byte>, p1: seq<byte>, p2: seq<byte>)
    ensures var m2 := Message(ReliableOrdered, false, 10, 2, 0, 0, 0, 0, p2);
            var m0 := Message(ReliableOrdered, false, 11, 0, 0, 0, 0, 0, p0);
            var m1 := Message(ReliableOrdered, false, 12, 1, 0, 0, 0, 0, p1);
            HandleAll(SessionState.New(mtu, now), [m2, m0, m1]).events
            == [Deliver(p0, 0), Deliver(p1, 0), Deliver(p2, 0)]
  {
    var m2 := Message(ReliableOrdered, false, 10, 2, 0, 0, 0, 0, p2);
    var m0 := Message(ReliableOrdered, false, 11, 0, 0, 0, 0, 0, p0);
    var m1 := Message(ReliableOrdered, false, 12, 1, 0, 0, 0, 0, p1);
    var s0 := SessionState.New(mtu, now);
    assert s0.orderedHandleQueue[0] == map[] && s0.receiveOrderIndex[0] == 0 && s0.messageIndexQueue == {};
    var r2 := HandleEncapsulated(s0, m2);
    ScenarioEarly(s0, m2);
    var r0 := HandleEncapsulated(r2.session, m0);
    ScenarioExpected(r2.session, m2, m0);
    var r1 := HandleEncapsulated(r0.session, m1);
    ScenarioGapFilled(r0.session, m2, m0, m1);
    assert [m2, m0, m1][1..] == [m0, m1] && [m0, m1][1..] == [m1] && [m1][1..] == [];
    assert HandleAll(r0.session, [m1]).events == r1.events + [];
    assert HandleAll(r2.session, [m0, m1]).events == r0.events + r1.events;
    assert HandleAll(s0, [m2, m0, m1]).events == r2.events + (r0.events + r1.events);
  }

  /** Order index 2 arrives first: it waits. */
  lemma ScenarioEarly(s: Session, m2: Message)
    requires Valid(s) && s.orderedHandleQueue[0] == map[] && s.receiveOrderIndex[0] == 0 && s.messageIndexQueue == {}
    requires m2 == Message(ReliableOrdered, false, 10, 2, 0, 0, 0, 0, m2.payload)
    ensures var r := HandleEncapsulated(s, m2);
            && r.error.None? && r.events == []
            && r.session.orderedHandleQueue[0] == map[2 := m2] && r.session.receiveOrderIndex[0] == 0
            && r.session.messageIndexQueue == {10}
  {
    OrderedDelivery(s, m2);
    ReliableIndexRecorded(s, m2);
  }

  /** Order index 0 arrives next: it is delivered alone, since 1 is still missing. */
  lemma ScenarioExpected(s: Session, m2: Message, m0: Message)
    requires Valid(s) && s.orderedHandleQueue[0] == map[2 := m2] && s.receiveOrderIndex[0] == 0
    requires s.messageIndexQueue == {10}
    requires m0 == Message(ReliableOrdered, false, 11, 0, 0, 0, 0, 0, m0.payload)
    ensures var r := HandleEncapsulated(s, m0);
            && r.error.None? && r.events == [Deliver(m0.payload, 0)]
            && r.session.orderedHandleQueue[0] == map[2 := m2, 0 := m0] && r.session.receiveOrderIndex[0] == 1
            && r.session.messageIndexQueue == {10, 11}
  {
    OrderedDelivery(s, m0);
    ReliableIndexRecorded(s, m0);
    var r := HandleEncapsulated(s, m0);
    assert 1 !in r.session.orderedHandleQueue[0];
  }

  /** Order index 1 closes the gap: it and the waiting index 2 are delivered in order. */
  lemma ScenarioGapFilled(s: Session, m2: Message, m0: Message, m1: Message)
    requires Valid(s) && s.orderedHandleQueue[0] == map[2 := m2, 0 := m0] && s.receiveOrderIndex[0] == 1
    requires s.messageIndexQueue == {10, 11}
    requires m2.orderIndex == 2
    requires m1 == Message(ReliableOrdered, false, 12, 1, 0, 0, 0, 0, m1.payload)
    ensures var r := HandleEncapsulated(s, m1);
            r.error.None? && r.events == [Deliver(m1.payload, 0), Deliver(m2.payload, m2.orderChannel)]
  {
    OrderedDelivery(s, m1);
    var r := HandleEncapsulated(s, m1);
    var q := s.orderedHandleQueue[0][1 := m1];
    assert r.session.orderedHandleQueue[0] == q;
    assert 3 !in q;
    assert 3 < r.session.receiveOrderIndex[0] ==> 3 in q;
    assert r.session.receiveOrderIndex[0] == 3;
    assert r.events[0] == Deliver(q[1].payload, q[1].orderChannel);
    assert r.events[1] == Deliver(q[2].payload, q[2].orderChannel);
  }
}
