/** The per-session reliability state: counters, per-channel indices, duplicate filters, the
    acknowledgement queues, the retransmission table, the split assemblies and the send queue,
    together with the throttled acknowledgement flush that every other step ends with. */
module SessionState {
  import opened Wrappers
  import opened Constants
  import opened Cursor
  import opened ReliabilityCatalog
  import opened Encapsulated
  import opened SplitAssembly
  import opened IntSets

  /** A datagram frame: a sequence number and the messages it carries. */
  datatype Frame = Frame(sequenceNumber: int, messages: seq<Message>)

  /** An acknowledgement record as the session queues it: one sequence number or an inclusive range. */
  datatype Record = Single(index: int) | Ranged(start: int, end: int)

  /** Everything the session does that leaves it: payloads handed to the application, ack-receipt
      callbacks, and raw datagrams written to the peer. */
  datatype Event =
    | Deliver(payload: seq<byte>, channel: int)
    | Acknowledged(record: int, reliability: Reliability, channel: int, payload: seq<byte>)
    | SendFrame(frame: Frame)
    | SendAck(records: seq<Record>)
    | SendNack(records: seq<Record>)

  datatype Session = Session(
    maximumTransferUnit: int,
    splitId: int,
    messageIndex: int,
    nextSequenceNumber: int,
    lastSequenceNumber: int,
    sendOrderIndex: seq<int>,
    receiveOrderIndex: seq<int>,
    sendSequenceIndex: seq<int>,
    receiveSequenceIndex: seq<int>,
    customIndexQueue: set<int>,
    messageIndexQueue: set<int>,
    orderedHandleQueue: seq<map<int, Message>>,
    missingQueue: seq<Record>,
    acknowledgedQueue: seq<Record>,
    unacknowledgedQueue: map<int, Frame>,
    splitQueue: map<int, Assembly>,
    sendQueue: seq<Message>,
    lastAckSend: int)

  /** A step's result: the new state, what it emitted, and the exception it ended with, if any
      (the state keeps whatever the step had changed before throwing). */
  datatype Outcome = Outcome(session: Session, events: seq<Event>, error: Option<Error>)

  /** Every per-channel table has one entry per channel, and no ordered message waits at the
      index the channel expects next (the drain always runs to the first gap). */
  predicate Valid(s: Session) {
    && |s.sendOrderIndex| == MAX_CHANNELS
    && |s.receiveOrderIndex| == MAX_CHANNELS
    && |s.sendSequenceIndex| == MAX_CHANNELS
    && |s.receiveSequenceIndex| == MAX_CHANNELS
    && |s.orderedHandleQueue| == MAX_CHANNELS
    && forall ch :: 0 <= ch < MAX_CHANNELS ==> s.receiveOrderIndex[ch] !in s.orderedHandleQueue[ch]
  }

  function Zeros(n: nat): (r: seq<int>)
    ensures |r| == n && forall i :: 0 <= i < n ==> r[i] == 0
  {
    seq(n, i => 0)
  }

  /** The constructor, at time `now`: all counters zero, one empty ordering queue per channel. */
  function New(maximumTransferUnit: int, now: int): (s: Session)
    ensures Valid(s)
    ensures s.maximumTransferUnit == maximumTransferUnit && s.lastAckSend == now
    ensures forall ch :: 0 <= ch < MAX_CHANNELS ==>
              s.sendOrderIndex[ch] == 0 && s.receiveOrderIndex[ch] == 0
              && s.sendSequenceIndex[ch] == 0 && s.receiveSequenceIndex[ch] == 0
              && s.orderedHandleQueue[ch] == map[]
    ensures s.sendQueue == [] && s.unacknowledgedQueue == map[] && s.splitQueue == map[]
  {
    Session(maximumTransferUnit, 0, 0, 0, 0,
            Zeros(MAX_CHANNELS), Zeros(MAX_CHANNELS), Zeros(MAX_CHANNELS), Zeros(MAX_CHANNELS),
            {}, {}, seq(MAX_CHANNELS, i => map[]),
            [], [], map[], map[], [], now)
  }

  // ---------------------------------------------------------------------------------------------
  // The acknowledgement flush

  /** The smallest sequence number in the retransmission table: the frame whose turn it is to be
      resent. */
  function OldestKey(keys: set<int>): (k: int)
    requires keys != {}
    ensures k in keys && forall j :: j in keys ==> k <= j
  {
    MinimumExists(keys);
    var k :| k in keys && forall j :: j in keys ==> k <= j;
    k
  }

  /** What one flush emits: the whole ACK queue, the whole NACK queue (each only when non-empty),
      and the oldest unacknowledged frame. */
  function FlushEvents(s: Session): seq<Event> {
    (if |s.acknowledgedQueue| > 0 then [SendAck(s.acknowledgedQueue)] else [])
    + (if |s.missingQueue| > 0 then [SendNack(s.missingQueue)] else [])
    + (if |s.unacknowledgedQueue| > 0 then [SendFrame(s.unacknowledgedQueue[OldestKey(s.unacknowledgedQueue.Keys)])] else [])
  }

  /** `updateAcknowledge(force)` at time `now`: flushes when forced or when at least
      ACK_SEND_WAIT_TIME_MILLIS have passed since the last flush, and then restarts the timer.
      The queues are sent as they are and are not emptied. */
  function UpdateAcknowledge(s: Session, now: int, force: bool): (r: (Session, seq<Event>))
    ensures r.0 == s || r.0 == s.(lastAckSend := now)
    ensures r.0.lastAckSend == now <==> (force || now - s.lastAckSend >= ACK_SEND_WAIT_TIME_MILLIS || now == s.lastAckSend)
    ensures !force && now - s.lastAckSend < ACK_SEND_WAIT_TIME_MILLIS ==> r.1 == []
    ensures (force || now - s.lastAckSend >= ACK_SEND_WAIT_TIME_MILLIS) ==>
              (|s.acknowledgedQueue| > 0 <==> SendAck(s.acknowledgedQueue) in r.1)
              && (|s.missingQueue| > 0 <==> SendNack(s.missingQueue) in r.1)
              && (|s.unacknowledgedQueue| > 0 <==> |r.1| > 0 && r.1[|r.1| - 1].SendFrame?)
              && |r.1| <= 3
  {
    if now - s.lastAckSend >= ACK_SEND_WAIT_TIME_MILLIS || force then
      (s.(lastAckSend := now), FlushEvents(s))
    else
      (s, [])
  }

  /** A due flush emits exactly the ACK queue (when non-empty), then the NACK queue (when
      non-empty), then the oldest stored frame (when the table is non-empty), and nothing else. */
  lemma FlushEmitsExactly(s: Session, now: int, force: bool)
    requires force || now - s.lastAckSend >= ACK_SEND_WAIT_TIME_MILLIS
    ensures var r := UpdateAcknowledge(s, now, force);
            var acks := if |s.acknowledgedQueue| > 0 then 1 else 0;
            var nacks := if |s.missingQueue| > 0 then 1 else 0;
            var frames := if |s.unacknowledgedQueue| > 0 then 1 else 0;
            && r.0 == s.(lastAckSend := now)
            && |r.1| == acks + nacks + frames
            && (acks == 1 ==> r.1[0] == SendAck(s.acknowledgedQueue))
            && (nacks == 1 ==> r.1[acks] == SendNack(s.missingQueue))
            && (frames == 1 ==> r.1[acks + nacks] == SendFrame(s.unacknowledgedQueue[OldestKey(s.unacknowledgedQueue.Keys)]))
  {
  }

  /** The flush never drains its queues: flushing twice in a row sends the same acknowledgements
      again. */
  lemma FlushRepeatsQueues(s: Session, now: int, later: int)
    ensures UpdateAcknowledge(UpdateAcknowledge(s, now, true).0, later, true).1
            == UpdateAcknowledge(s, now, true).1
  {
  }

  /** The resent frame is the one with the smallest sequence number in the table. */
  lemma FlushResendsOldest(s: Session, now: int, force: bool, k: int)
    requires force || now - s.lastAckSend >= ACK_SEND_WAIT_TIME_MILLIS
    requires k in s.unacknowledgedQueue
    ensures exists j :: j in s.unacknowledgedQueue && j <= k
                        && SendFrame(s.unacknowledgedQueue[j]) in UpdateAcknowledge(s, now, force).1
  {
    var j := OldestKey(s.unacknowledgedQueue.Keys);
    assert SendFrame(s.unacknowledgedQueue[j]) == UpdateAcknowledge(s, now, force).1[|UpdateAcknowledge(s, now, force).1| - 1];
  }
}
