/** Acknowledgement handling on the sending side: an ACK retires frames from the retransmission
    table and reports the messages that asked for a receipt; a NACK strips the unreliable messages
    from the named frames and resends them at once. The records arrive already expanded into
    individual sequence numbers. */
module SessionAck {
  import opened Wrappers
  import opened Constants
  import opened Cursor
  import opened ReliabilityCatalog
  import opened Encapsulated
  import opened SessionState
  import opened SessionFlush

  datatype AckKind = Ack | Nack

  /** The receipt an acknowledged message produces. */
  function Receipt(sequenceNumber: int, m: Message): Event {
    Acknowledged(sequenceNumber, m.reliability, m.orderChannel, m.payload)
  }

  /** The receipts for a frame's messages that asked for one, in message order. */
  function Receipts(sequenceNumber: int, ms: seq<Message>): (r: seq<Event>)
    ensures |r| <= |ms|
    ensures forall e :: e in r <==> exists m :: m in ms && m.reliability.RequiresAck() && e == Receipt(sequenceNumber, m)
  {
    if |ms| == 0 then []
    else
      var rest := Receipts(sequenceNumber, ms[1..]);
      assert forall m :: m in ms <==> m == ms[0] || m in ms[1..];
      if ms[0].reliability.RequiresAck() then [Receipt(sequenceNumber, ms[0])] + rest else rest
  }

  /** `removeUnreliables`: the messages worth resending, in their order. */
  function Reliables(ms: seq<Message>): (r: seq<Message>)
    ensures |r| <= |ms|
    ensures forall m :: m in r <==> m in ms && m.reliability.IsReliable()
  {
    if |ms| == 0 then []
    else
      var rest := Reliables(ms[1..]);
      assert forall m :: m in ms <==> m == ms[0] || m in ms[1..];
      if ms[0].reliability.IsReliable() then [ms[0]] + rest else rest
  }

  /** A frame with its unreliable messages removed. */
  function Stripped(f: Frame): Frame {
    f.(messages := Reliables(f.messages))
  }

  /** Stripping twice strips nothing more. */
  lemma {:induction false} ReliablesIdempotent(ms: seq<Message>)
    ensures Reliables(Reliables(ms)) == Reliables(ms)
  {
    if |ms| > 0 {
      ReliablesIdempotent(ms[1..]);
      if ms[0].reliability.IsReliable() {
        assert ([ms[0]] + Reliables(ms[1..]))[1..] == Reliables(ms[1..]);
      }
    }
  }

  /** No sequence number appears twice. */
  predicate NoRepeats(ns: seq<int>) {
    forall i, j :: 0 <= i < j < |ns| ==> ns[i] != ns[j]
  }

  /** Only the retransmission table differs between `s` and `t`. */
  predicate TableOnly(s: Session, t: Session) {
    t == s.(unacknowledgedQueue := t.unacknowledgedQueue)
  }

  /** The ACK loop: for each number in turn, the receipts of its frame, then the frame leaves the
      table. A number with no frame in the table (never sent, or already retired, including by an
      earlier repetition in the same set) makes the lookup fail; the frames retired before it stay
      retired. */
  function AckAll(s: Session, ns: seq<int>): (r: Outcome)
    ensures TableOnly(s, r.session)
    ensures forall k :: k in r.session.unacknowledgedQueue ==>
              k in s.unacknowledgedQueue && r.session.unacknowledgedQueue[k] == s.unacknowledgedQueue[k]
    ensures forall k :: k in s.unacknowledgedQueue && k !in ns ==> k in r.session.unacknowledgedQueue
    ensures r.error.None? <==> NoRepeats(ns) && forall i :: 0 <= i < |ns| ==> ns[i] in s.unacknowledgedQueue
    ensures r.error.None? ==> forall k :: k in ns ==> k !in r.session.unacknowledgedQueue
    ensures r.error.Some? ==> r.error.value.MissingFrame? && r.error.value.sequence in ns
    ensures forall e :: e in r.events ==> e.Acknowledged? && e.reliability.RequiresAck() && e.record in ns
    decreases |ns|
  {
    if |ns| == 0 then Outcome(s, [], None)
    else if ns[0] !in s.unacknowledgedQueue then Outcome(s, [], Some(MissingFrame(ns[0])))
    else
      var n := ns[0];
      var receipts := Receipts(n, s.unacknowledgedQueue[n].messages);
      var retired := s.(unacknowledgedQueue := s.unacknowledgedQueue - {n});
      var rest := AckAll(retired, ns[1..]);
      assert forall k :: k in ns <==> k == n || k in ns[1..];
      assert NoRepeats(ns) <==> NoRepeats(ns[1..]) && n !in ns[1..];
      Outcome(rest.session, receipts + rest.events, rest.error)
  }

  /** The receipts of the frames stored under `ns`, frame after frame in record order. */
  function AckReceipts(q: map<int, Frame>, ns: seq<int>): seq<Event>
    requires forall i :: 0 <= i < |ns| ==> ns[i] in q
  {
    if |ns| == 0 then [] else Receipts(ns[0], q[ns[0]].messages) + AckReceipts(q, ns[1..])
  }

  /** The receipts depend only on the frames stored under the named numbers. */
  lemma {:induction false} AckReceiptsAgree(q: map<int, Frame>, p: map<int, Frame>, ns: seq<int>)
    requires forall i :: 0 <= i < |ns| ==> ns[i] in q && ns[i] in p && q[ns[i]] == p[ns[i]]
    ensures AckReceipts(q, ns) == AckReceipts(p, ns)
    decreases |ns|
  {
    if |ns| > 0 {
      AckReceiptsAgree(q, p, ns[1..]);
    }
  }

  /** A successful ACK reports every receipt of every named frame: for each number in turn, one
      callback per message of its frame that asked for a receipt, in message order. */
  lemma {:induction false} AckAllReceipts(s: Session, ns: seq<int>)
    requires AckAll(s, ns).error.None?
    ensures AckAll(s, ns).events == AckReceipts(s.unacknowledgedQueue, ns)
    decreases |ns|
  {
    if |ns| > 0 {
      var n := ns[0];
      var retired := s.(unacknowledgedQueue := s.unacknowledgedQueue - {n});
      assert NoRepeats(ns[1..]) && n !in ns[1..] by {
        assert forall i :: 0 <= i < |ns[1..]| ==> ns[1..][i] == ns[i + 1];
      }
      AckAllReceipts(retired, ns[1..]);
      AckReceiptsAgree(retired.unacknowledgedQueue, s.unacknowledgedQueue, ns[1..]);
    }
  }

  /** The NACK loop: for each number in turn, the frame in the table loses its unreliable
      messages and is resent; it stays in the table. A number with no frame makes the lookup
      fail. */
  function NackAll(s: Session, ns: seq<int>): (r: Outcome)
    ensures TableOnly(s, r.session)
    ensures r.session.unacknowledgedQueue.Keys == s.unacknowledgedQueue.Keys
    ensures r.error.None? <==> forall i :: 0 <= i < |ns| ==> ns[i] in s.unacknowledgedQueue
    ensures r.error.Some? ==> r.error.value.MissingFrame? && r.error.value.sequence in ns
                              && r.error.value.sequence !in s.unacknowledgedQueue
    decreases |ns|
  {
    if |ns| == 0 then Outcome(s, [], None)
    else if ns[0] !in s.unacknowledgedQueue then Outcome(s, [], Some(MissingFrame(ns[0])))
    else
      var n := ns[0];
      var stripped := Stripped(s.unacknowledgedQueue[n]);
      var updated := s.(unacknowledgedQueue := s.unacknowledgedQueue[n := stripped]);
      var rest := NackAll(updated, ns[1..]);
      assert forall i :: 1 <= i < |ns| ==> ns[i] == ns[1..][i - 1];
      assert forall k :: k in ns[1..] ==> k in ns;
      Outcome(rest.session, [SendFrame(stripped)] + rest.events, rest.error)
  }

  /** The first step of the NACK loop on a stored number. */
  function NackFirst(s: Session, n: int): Session
    requires n in s.unacknowledgedQueue
  {
    s.(unacknowledgedQueue := s.unacknowledgedQueue[n := Stripped(s.unacknowledgedQueue[n])])
  }

  /** Each entry of the table ends up as it was or stripped: stripped when its number was named
      and the loop ran to the end, untouched when it was never named. */
  lemma {:induction false} NackAllEntries(s: Session, ns: seq<int>)
    ensures var q, r := s.unacknowledgedQueue, NackAll(s, ns).session.unacknowledgedQueue;
            && (forall k :: k in q ==> r[k] in {q[k], Stripped(q[k])})
            && (forall k :: k in q && k !in ns ==> r[k] == q[k])
            && (NackAll(s, ns).error.None? ==> forall k :: k in ns ==> r[k] == Stripped(q[k]))
    decreases |ns|
  {
    if |ns| > 0 && ns[0] in s.unacknowledgedQueue {
      ReliablesIdempotent(s.unacknowledgedQueue[ns[0]].messages);
      NackAllEntries(NackFirst(s, ns[0]), ns[1..]);
      assert forall k :: k in ns <==> k == ns[0] || k in ns[1..];
    }
  }

  /** A successful NACK resends, in record order, one frame per named number: the stripped frame
      the table now holds for it. */
  lemma {:induction false} NackAllResends(s: Session, ns: seq<int>)
    requires NackAll(s, ns).error.None?
    ensures var r := NackAll(s, ns);
            |r.events| == |ns| && forall i :: 0 <= i < |ns| ==> r.events[i] == SendFrame(r.session.unacknowledgedQueue[ns[i]])
    decreases |ns|
  {
    if |ns| > 0 {
      var n := ns[0];
      var updated := NackFirst(s, n);
      var r := NackAll(s, ns);
      NackAllResends(updated, ns[1..]);
      NackAllEntries(updated, ns[1..]);
      ReliablesIdempotent(s.unacknowledgedQueue[n].messages);
      if n in ns[1..] {
        assert r.session.unacknowledgedQueue[n] == Stripped(updated.unacknowledgedQueue[n]);
      }
      assert r.events[0] == SendFrame(r.session.unacknowledgedQueue[n]);
      forall i | 1 <= i < |ns|
        ensures r.events[i] == SendFrame(r.session.unacknowledgedQueue[ns[i]])
      {
        assert ns[i] == ns[1..][i - 1];
      }
    }
  }

  /** `handleAcknowledge`. */
  function HandleAcknowledge(s: Session, kind: AckKind, ns: seq<int>): (r: Outcome)
    requires Valid(s)
    ensures Valid(r.session) && TableOnly(s, r.session)
  {
    match kind
    case Ack => AckAll(s, ns)
    case Nack => NackAll(s, ns)
  }

  /** A NACK resent again changes nothing more and resends the same frames: the first one already
      left only the reliable messages. */
  lemma NackRepeatable(s: Session, ns: seq<int>)
    requires NackAll(s, ns).error.None?
    ensures NackAll(NackAll(s, ns).session, ns) == NackAll(s, ns)
  {
    var r1 := NackAll(s, ns);
    var r2 := NackAll(r1.session, ns);
    var q0, q1, q2 := s.unacknowledgedQueue, r1.session.unacknowledgedQueue, r2.session.unacknowledgedQueue;
    NackAllEntries(s, ns);
    NackAllEntries(r1.session, ns);
    NackAllResends(s, ns);
    NackAllResends(r1.session, ns);
    assert r2.error.None?;
    forall k | k in q1
      ensures q2[k] == q1[k]
    {
      if k in ns {
        ReliablesIdempotent(q0[k].messages);
      }
    }
    assert q2 == q1;
    assert r2.session == r1.session;
    forall i | 0 <= i < |ns|
      ensures r2.events[i] == r1.events[i]
    {
    }
    assert r2.events == r1.events;
  }

  /** The same ACK set applied twice fails the second time at its first number: its frame is
      already gone. */
  lemma RepeatedAckFails(s: Session, ns: seq<int>)
    requires |ns| > 0 && AckAll(s, ns).error.None?
    ensures AckAll(AckAll(s, ns).session, ns).error == Some(MissingFrame(ns[0]))
  {
    assert ns[0] in ns;
  }

  /** A frame the update sends, once acknowledged, leaves the table, and exactly its messages that
      asked for a receipt are reported, in order. */
  lemma SentFrameAcknowledged(s: Session, now: int)
    requires Valid(s) && |s.sendQueue| > 0
    requires |Update(s, now).session.sendQueue| < |s.sendQueue|
    ensures var t := Update(s, now).session;
            var n := |s.sendQueue| - |t.sendQueue|;
            var acked := AckAll(t, [s.nextSequenceNumber]);
            && acked.error == None
            && s.nextSequenceNumber !in acked.session.unacknowledgedQueue
            && acked.events == Receipts(s.nextSequenceNumber, s.sendQueue[..n])
  {
    var t := Update(s, now).session;
    var n := |s.sendQueue| - |t.sendQueue|;
    assert Packed(s, Update(s, now), n, s.maximumTransferUnit - 1, now);
    assert t.unacknowledgedQueue[s.nextSequenceNumber] == Frame(s.nextSequenceNumber, s.sendQueue[..n]);
    AckOne(t, s.nextSequenceNumber);
  }

  /** Acknowledging one stored number retires exactly its frame and reports the receipts of that
      frame's messages. */
  lemma AckOne(t: Session, k: int)
    requires k in t.unacknowledgedQueue
    ensures AckAll(t, [k]) == Outcome(t.(unacknowledgedQueue := t.unacknowledgedQueue - {k}),
                                      Receipts(k, t.unacknowledgedQueue[k].messages), None)
  {
    assert [k][1..] == [];
    assert Receipts(k, t.unacknowledgedQueue[k].messages) + [] == Receipts(k, t.unacknowledgedQueue[k].messages);
  }
}
