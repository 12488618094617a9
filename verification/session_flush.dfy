/** The outgoing flush of a session: the front of the send queue is packed into one frame, the
    frame is sent and kept for retransmission under a fresh sequence number, and the throttled
    acknowledgement flush follows. `Update` is the code as written, `UpdateCorrected` admits a
    frame that fills the MTU exactly. */
module SessionFlush {
  import opened Wrappers
  import opened Constants
  import opened Cursor
  import opened ReliabilityCatalog
  import opened Encapsulated
  import opened SessionState
  import opened Fragmenter
  import opened SessionSend

  /** The encoded size of the messages, summed. */
  function Bytes(ms: seq<Message>): (n: int)
    ensures n >= 3 * |ms|
  {
    if |ms| == 0 then 0 else Bytes(ms[..|ms| - 1]) + CalculateSize(ms[|ms| - 1])
  }

  /** The size of a frame carrying `ms`: the frame header and every message. */
  function FrameSize(ms: seq<Message>): int {
    FRAME_HEADER_SIZE + Bytes(ms)
  }

  lemma FrameSizeGrows(q: seq<Message>, k: int)
    requires 0 <= k < |q|
    ensures FrameSize(q[..k + 1]) == FrameSize(q[..k]) + CalculateSize(q[k])
  {
    assert q[..k + 1][..k] == q[..k];
  }

  /** The packing loop from position `k` on, with `size` the frame size so far: the next message
      joins while the frame with it stays within `cap` bytes; the first one that would exceed it
      ends the frame. */
  function BatchFrom(q: seq<Message>, cap: int, k: nat, size: int): (n: nat)
    requires k <= |q| && size == FrameSize(q[..k])
    requires k > 0 ==> size <= cap
    ensures k <= n <= |q|
    ensures n > 0 ==> FrameSize(q[..n]) <= cap
    ensures n < |q| ==> FrameSize(q[..n + 1]) > cap
    decreases |q| - k
  {
    if k == |q| then k
    else
      var next := size + CalculateSize(q[k]);
      FrameSizeGrows(q, k);
      if next > cap then k
      else BatchFrom(q, cap, k + 1, next)
  }

  /** The longest front of the queue whose frame is at most `cap` bytes. */
  function Batch(q: seq<Message>, cap: int): (n: nat)
    ensures n <= |q|
    ensures n > 0 ==> FrameSize(q[..n]) <= cap
    ensures n < |q| ==> FrameSize(q[..n + 1]) > cap
  {
    assert q[..0] == [];
    BatchFrom(q, cap, 0, FRAME_HEADER_SIZE)
  }

  /** Adding messages never makes a frame smaller: every shorter front fits when a longer one
      does. */
  lemma {:induction false} FrameSizeMonotone(q: seq<Message>, i: int, j: int)
    requires 0 <= i <= j <= |q|
    ensures FrameSize(q[..i]) <= FrameSize(q[..j])
    decreases j - i
  {
    if i < j {
      FrameSizeGrows(q, j - 1);
      FrameSizeMonotone(q, i, j - 1);
    }
  }

  /** The front `Batch` takes is the longest one that fits: no longer front fits. */
  lemma BatchIsLongest(q: seq<Message>, cap: int, j: int)
    requires Batch(q, cap) < j <= |q|
    ensures FrameSize(q[..j]) > cap
  {
    FrameSizeMonotone(q, Batch(q, cap) + 1, j);
  }

  /** The frame that carries the first `n` queued messages under the next sequence number. */
  function FrameOf(s: Session, n: nat): Frame
    requires n <= |s.sendQueue|
  {
    Frame(s.nextSequenceNumber, s.sendQueue[..n])
  }

  /** The session once that frame has left: the messages are off the queue, the sequence number
      is used up, and the frame is kept for retransmission. */
  function AfterSend(s: Session, n: nat): Session
    requires n <= |s.sendQueue|
  {
    s.(sendQueue := s.sendQueue[n..], nextSequenceNumber := s.nextSequenceNumber + 1,
       unacknowledgedQueue := s.unacknowledgedQueue[s.nextSequenceNumber := FrameOf(s, n)])
  }

  /** A flush at time `now` that packed the first `n` queued messages into a frame of at most
      `cap` bytes, and took as many as fit: when it took any, the frame is sent first and the
      unforced acknowledgement flush of the resulting state follows; when it took none, only the
      unforced acknowledgement flush happens. No other field changes. */
  predicate Packed(s: Session, r: Outcome, n: int, cap: int, now: int) {
    && 0 <= n <= |s.sendQueue| && r.session.sendQueue == s.sendQueue[n..]
    && r.session.maximumTransferUnit == s.maximumTransferUnit
    && (n > 0 ==> FrameSize(s.sendQueue[..n]) <= cap)
    && (n < |s.sendQueue| ==> FrameSize(s.sendQueue[..n + 1]) > cap)
    && (n > 0 ==>
          && |r.events| > 0 && r.events[0] == SendFrame(FrameOf(s, n))
          && r.session.nextSequenceNumber == s.nextSequenceNumber + 1
          && r.session.unacknowledgedQueue == s.unacknowledgedQueue[s.nextSequenceNumber := FrameOf(s, n)]
          && r.session == UpdateAcknowledge(AfterSend(s, n), now, false).0
          && r.events[1..] == UpdateAcknowledge(AfterSend(s, n), now, false).1)
    && (n == 0 ==> (r.session, r.events) == UpdateAcknowledge(s, now, false))
  }

  /** One flush with frames of at most `cap` bytes: the longest front of the queue that fits
      leaves it as one frame, which is sent and kept for retransmission; an empty send queue
      skips the acknowledgement flush too. */
  function Flush(s: Session, now: int, cap: int): (r: Outcome)
    requires Valid(s)
    ensures Valid(r.session) && r.error == None
    ensures |s.sendQueue| == 0 ==> r == Outcome(s, [], None)
    ensures |s.sendQueue| > 0 ==> Packed(s, r, |s.sendQueue| - |r.session.sendQueue|, cap, now)
  {
    if |s.sendQueue| == 0 then Outcome(s, [], None)
    else
      var n := Batch(s.sendQueue, cap);
      if n > 0 then SendFront(s, n, now)
      else
        var flushed := UpdateAcknowledge(s, now, false);
        Outcome(flushed.0, flushed.1, None)
  }

  /** The first `n` queued messages leave as one frame under the next sequence number, which is
      kept for retransmission; the unforced acknowledgement flush at `now` follows and sees the
      session with that frame already sent. */
  function SendFront(s: Session, n: nat, now: int): (r: Outcome)
    requires Valid(s) && 0 < n <= |s.sendQueue|
    ensures Valid(r.session) && r.error == None
    ensures r.session.sendQueue == s.sendQueue[n..] && r.session.maximumTransferUnit == s.maximumTransferUnit
    ensures |r.events| > 0 && r.events[0] == SendFrame(FrameOf(s, n))
    ensures r.session.nextSequenceNumber == s.nextSequenceNumber + 1
    ensures r.session.unacknowledgedQueue == s.unacknowledgedQueue[s.nextSequenceNumber := FrameOf(s, n)]
    ensures r.session == UpdateAcknowledge(AfterSend(s, n), now, false).0
    ensures r.events[1..] == UpdateAcknowledge(AfterSend(s, n), now, false).1
  {
    var flushed := UpdateAcknowledge(AfterSend(s, n), now, false);
    Outcome(flushed.0, [SendFrame(FrameOf(s, n))] + flushed.1, None)
  }

  /** `update` as written: a message joins the frame only while the frame with it stays strictly
      below the MTU. */
  function Update(s: Session, now: int): (r: Outcome)
    requires Valid(s)
    ensures Valid(r.session) && r.error == None
    ensures |s.sendQueue| == 0 ==> r == Outcome(s, [], None)
    ensures |s.sendQueue| > 0 ==> Packed(s, r, |s.sendQueue| - |r.session.sendQueue|, s.maximumTransferUnit - 1, now)
  {
    Flush(s, now, s.maximumTransferUnit - 1)
  }

  /** `update` with the packing test admitting a frame of exactly the MTU. */
  function UpdateCorrected(s: Session, now: int): (r: Outcome)
    requires Valid(s)
    ensures Valid(r.session) && r.error == None
    ensures |s.sendQueue| == 0 ==> r == Outcome(s, [], None)
    ensures |s.sendQueue| > 0 ==> Packed(s, r, |s.sendQueue| - |r.session.sendQueue|, s.maximumTransferUnit, now)
  {
    Flush(s, now, s.maximumTransferUnit)
  }

  /** As written, a message at the head of the queue that fills a frame exactly is never taken:
      the update sends no frame and uses no sequence number, and does nothing but the
      acknowledgement flush; the queue is left as it was, so every later update finds the same
      head. */
  lemma FullHeadStalls(s: Session, now: int)
    requires Valid(s) && |s.sendQueue| > 0
    requires FRAME_HEADER_SIZE + CalculateSize(s.sendQueue[0]) == s.maximumTransferUnit
    ensures var flushed := UpdateAcknowledge(s, now, false);
            Update(s, now) == Outcome(flushed.0, flushed.1, None)
  {
    var q := s.sendQueue;
    FrameSizeGrows(q, 0);
    assert q[..0] == [];
    assert Batch(q, s.maximumTransferUnit - 1) == 0;
    assert q[0..] == q;
  }

  /** With the corrected test, whenever the head of the queue fits a frame on its own, the update
      sends a frame that takes it, and the queue gets shorter. */
  lemma CorrectedHeadLeaves(s: Session, now: int)
    requires Valid(s) && |s.sendQueue| > 0
    requires FRAME_HEADER_SIZE + CalculateSize(s.sendQueue[0]) <= s.maximumTransferUnit
    ensures |UpdateCorrected(s, now).session.sendQueue| < |s.sendQueue|
    ensures UpdateCorrected(s, now).session.nextSequenceNumber == s.nextSequenceNumber + 1
  {
    var q := s.sendQueue;
    FrameSizeGrows(q, 0);
    assert q[..0] == [];
  }

  /** `k` corrected updates in a row, all at time `now`. */
  function UpdateTimes(s: Session, now: int, k: nat): (r: Session)
    requires Valid(s)
    ensures Valid(r)
    decreases k
  {
    if k == 0 then s else UpdateTimes(UpdateCorrected(s, now).session, now, k - 1)
  }

  /** A corrected update keeps every remaining message fitting on its own. */
  lemma CorrectedKeepsFitting(s: Session, now: int)
    requires Valid(s) && |s.sendQueue| > 0 && AllFit(s.sendQueue, s.maximumTransferUnit)
    ensures var t := UpdateCorrected(s, now).session;
            |t.sendQueue| < |s.sendQueue| && AllFit(t.sendQueue, t.maximumTransferUnit)
  {
    CorrectedHeadLeaves(s, now);
    var t := UpdateCorrected(s, now).session;
    var n := |s.sendQueue| - |t.sendQueue|;
    forall i | 0 <= i < |t.sendQueue|
      ensures FRAME_HEADER_SIZE + CalculateSize(t.sendQueue[i]) <= t.maximumTransferUnit
    {
      assert t.sendQueue[i] == s.sendQueue[n + i];
    }
  }

  /** When every queued message fits a frame on its own, any run of at least as many corrected
      updates as there are messages empties the queue. */
  lemma {:induction false} CorrectedUpdatesDrain(s: Session, now: int, k: nat)
    requires Valid(s) && AllFit(s.sendQueue, s.maximumTransferUnit) && k >= |s.sendQueue|
    ensures UpdateTimes(s, now, k).sendQueue == []
    decreases k
  {
    if k > 0 {
      CorrectedStepFits(s, now);
      CorrectedUpdatesDrain(UpdateCorrected(s, now).session, now, k - 1);
      UnfoldTimes(s, now, k);
    }
  }

  /** One corrected update on a queue of fitting messages: the queue gets shorter unless it is
      already empty, and what remains still fits. */
  lemma CorrectedStepFits(s: Session, now: int)
    requires Valid(s) && AllFit(s.sendQueue, s.maximumTransferUnit)
    ensures var t := UpdateCorrected(s, now).session;
            && AllFit(t.sendQueue, t.maximumTransferUnit)
            && (|s.sendQueue| > 0 ==> |t.sendQueue| < |s.sendQueue|)
            && (|s.sendQueue| == 0 ==> t.sendQueue == [])
  {
    if |s.sendQueue| > 0 {
      CorrectedKeepsFitting(s, now);
    }
  }

  /** A split message sent as written into an empty queue is never flushed: its first fragment
      fills a frame exactly, so every update only repeats the acknowledgement flush. */
  lemma SplitSendStallsAsWritten(s: Session, r: Reliability, channel: int, payload: seq<byte>, now: int)
    requires Valid(s) && s.sendQueue == []
    requires AcceptedAsWritten(s, r, channel, payload) && NeedsSplit(r, payload, s.maximumTransferUnit)
    ensures var t := SendPacket(s, r, channel, payload).session;
            var flushed := UpdateAcknowledge(t, now, false);
            Update(t, now) == Outcome(flushed.0, flushed.1, None)
  {
    var t := SendPacket(s, r, channel, payload).session;
    assert t == SplitAsWritten(s, r, channel, payload).session;
    FullHeadStalls(t, now);
  }

  /** A queue filled by corrected sends holds only messages that fit a frame on their own, so as
      many corrected updates as it has messages send all of it. */
  lemma CorrectedSendThenDrain(s: Session, r: Reliability, channel: int, payload: seq<byte>, now: int)
    requires Valid(s) && AllFit(s.sendQueue, s.maximumTransferUnit)
    requires SendPacketCorrected(s, r, channel, payload).error.None?
    ensures var t := SendPacketCorrected(s, r, channel, payload).session;
            UpdateTimes(t, now, |t.sendQueue|).sendQueue == []
  {
    var t := SendPacketCorrected(s, r, channel, payload).session;
    var extra := Appended(s, t);
    assert t.sendQueue == s.sendQueue + extra;
    forall i | 0 <= i < |t.sendQueue|
      ensures FRAME_HEADER_SIZE + CalculateSize(t.sendQueue[i]) <= t.maximumTransferUnit
    {
      if i >= |s.sendQueue| {
        assert t.sendQueue[i] == extra[i - |s.sendQueue|];
      }
    }
    CorrectedUpdatesDrain(t, now, |t.sendQueue|);
  }

  lemma UnfoldTimes(s: Session, now: int, k: nat)
    requires Valid(s) && k > 0
    ensures UpdateTimes(s, now, k) == UpdateTimes(UpdateCorrected(s, now).session, now, k - 1)
  {
  }
}
