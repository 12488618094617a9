/** The closed catalogue of delivery guarantees: ten variants, each with a one-byte wire code
    and four derived flags (reliable, ordered, sequenced, ack receipt requested). */
module ReliabilityCatalog {
  import opened Wrappers

  datatype Reliability =
    | Unreliable
    | UnreliableSequenced
    | Reliable
    | ReliableOrdered
    | ReliableSequenced
    | UnreliableWithAckReceipt
    | UnreliableSequencedWithAckReceipt
    | ReliableWithAckReceipt
    | ReliableOrderedWithAckReceipt
    | ReliableSequencedWithAckReceipt
  {
    /** The wire code of the variant (`asByte`). */
    function Code(): (c: int)
      ensures 0 <= c < 10
    {
      match this
      case Unreliable => 0
      case UnreliableSequenced => 1
      case Reliable => 2
      case ReliableOrdered => 3
      case ReliableSequenced => 4
      case UnreliableWithAckReceipt => 5
      case UnreliableSequencedWithAckReceipt => 6
      case ReliableWithAckReceipt => 7
      case ReliableOrderedWithAckReceipt => 8
      case ReliableSequencedWithAckReceipt => 9
    }

    /** Reliable: the codes 2, 3, 4 and their receipt twins 7, 8, 9. */
    function IsReliable(): (b: bool)
      ensures b <==> Code() in {2, 3, 4, 7, 8, 9}
    {
      this in {Reliable, ReliableOrdered, ReliableSequenced,
               ReliableWithAckReceipt, ReliableOrderedWithAckReceipt, ReliableSequencedWithAckReceipt}
    }

    /** Ordered: code 3 and its receipt twin 8. */
    function IsOrdered(): (b: bool)
      ensures b <==> Code() in {3, 8}
    {
      this == ReliableOrdered || this == ReliableOrderedWithAckReceipt
    }

    /** Sequenced: codes 1 and 4 and their receipt twins 6 and 9. */
    function IsSequenced(): (b: bool)
      ensures b <==> Code() in {1, 4, 6, 9}
    {
      this in {UnreliableSequenced, ReliableSequenced,
               UnreliableSequencedWithAckReceipt, ReliableSequencedWithAckReceipt}
    }

    /** A receipt is requested by the codes from 5 on. */
    function RequiresAck(): (b: bool)
      ensures b <==> Code() >= 5
    {
      this in {UnreliableWithAckReceipt, UnreliableSequencedWithAckReceipt, ReliableWithAckReceipt,
               ReliableOrderedWithAckReceipt, ReliableSequencedWithAckReceipt}
    }

    /** Ordered or sequenced: the variants that carry an order index and channel. */
    predicate HasOrderFields() {
      IsOrdered() || IsSequenced()
    }
  }

  /** The variants in declaration order (`Reliability.values()`). */
  const Values: seq<Reliability> :=
    [Unreliable, UnreliableSequenced, Reliable, ReliableOrdered, ReliableSequenced,
     UnreliableWithAckReceipt, UnreliableSequencedWithAckReceipt, ReliableWithAckReceipt,
     ReliableOrderedWithAckReceipt, ReliableSequencedWithAckReceipt]

  /** The first variant of `rs` whose code is `n`, scanning left to right. */
  function LookupIn(rs: seq<Reliability>, n: int): (r: Option<Reliability>)
    ensures r.Some? ==> r.value in rs && r.value.Code() == n
    ensures r.None? ==> forall i :: 0 <= i < |rs| ==> rs[i].Code() != n
  {
    if |rs| == 0 then None
    else if rs[0].Code() == n then Some(rs[0])
    else LookupIn(rs[1..], n)
  }

  /** The variant with code `n`, or `None` (Java's null) when no variant has it. */
  function Lookup(n: int): (r: Option<Reliability>)
    ensures r.Some? <==> 0 <= n < 10
    ensures r.Some? ==> r.value.Code() == n
  {
    assert 0 <= n < 10 ==> Values[n].Code() == n;
    LookupIn(Values, n)
  }

  /** The catalogue lists every variant exactly once, with codes 0..9 in order. */
  lemma CatalogueIsComplete(r: Reliability)
    ensures |Values| == 10
    ensures r in Values
    ensures forall i :: 0 <= i < |Values| ==> Values[i].Code() == i
  {
  }

  /** Distinct variants have distinct codes. */
  lemma CodesAreDistinct(r1: Reliability, r2: Reliability)
    ensures r1.Code() == r2.Code() ==> r1 == r2
  {
  }

  /** Looking up a variant's own code yields that variant. */
  lemma LookupOfCode(r: Reliability)
    ensures Lookup(r.Code()) == Some(r)
  {
    CodesAreDistinct(r, Lookup(r.Code()).value);
  }

  /** At most one of ordered and sequenced holds, and ordered implies reliable. */
  lemma FlagConsistency(r: Reliability)
    ensures !(r.IsOrdered() && r.IsSequenced())
    ensures r.IsOrdered() ==> r.IsReliable()
  {
  }

  /** An acknowledgement receipt is requested exactly by codes 5..9. */
  lemma RequiresAckByCode(r: Reliability)
    ensures r.RequiresAck() <==> 5 <= r.Code() <= 9
  {
  }

  /** The variant with code k+5 is the ack-receipt twin of the variant with code k:
      the same reliable/ordered/sequenced flags. */
  lemma AckTwinsShareFlags(r: Reliability, twin: Reliability)
    requires twin.Code() == r.Code() + 5
    ensures twin.IsReliable() == r.IsReliable()
    ensures twin.IsOrdered() == r.IsOrdered()
    ensures twin.IsSequenced() == r.IsSequenced()
    ensures !r.RequiresAck() && twin.RequiresAck()
  {
  }
}
