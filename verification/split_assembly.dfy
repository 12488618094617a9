/** Reassembly of split messages: an assembly collects fragments by split index and, once it
    holds as many fragments as the split count announces, joins them in index order.
    The same logic appears in two package iterations of the library; both are modelled here. */
module SplitAssembly {
  import opened Wrappers
  import opened Constants
  import opened Cursor
  import opened ReliabilityCatalog
  import opened Encapsulated
  import opened Chunking

  /** One split message being reassembled: its identity and the fragments received so far,
      keyed by split index. */
  datatype Assembly = Assembly(
    splitId: int,
    splitCount: int,
    reliability: Reliability,
    payloads: map<int, seq<byte>>)

  /** The outcome of one update: the (possibly changed) assembly and either `None` (still
      incomplete), `Some(payload)` (joined) or the error the update threw. */
  datatype Step = Step(assembly: Assembly, result: Result<Option<seq<byte>>, Error>)

  /** The constructor: an empty assembly, refused when more than MAX_SPLIT_COUNT fragments are
      announced. */
  function New(splitId: int, splitCount: int, reliability: Reliability): (r: Result<Assembly, Error>)
    ensures r.Success? <==> splitCount <= MAX_SPLIT_COUNT
    ensures r.Failure? ==> r.error == SplitLimitExceeded
    ensures r.Success? ==> r.value == Assembly(splitId, splitCount, reliability, map[])
  {
    if splitCount > MAX_SPLIT_COUNT then Failure(SplitLimitExceeded)
    else Success(Assembly(splitId, splitCount, reliability, map[]))
  }

  /** A fragment belongs to an assembly when it is split and agrees on id, count and reliability. */
  predicate Belongs(a: Assembly, m: Message) {
    m.split && m.splitId == a.splitId && m.splitCount == a.splitCount && m.reliability == a.reliability
  }

  /** The payloads at indices `lo` .. `hi - 1` concatenated, or the first missing index. */
  function Join(payloads: map<int, seq<byte>>, lo: int, hi: int): (r: Result<seq<byte>, Error>)
    ensures r.Success? <==> forall i :: lo <= i < hi ==> i in payloads
    ensures r.Failure? ==> FirstMissing(payloads, lo, hi, r.error)
    decreases hi - lo
  {
    if lo >= hi then Success([])
    else if lo !in payloads then Failure(MissingFragment(lo))
    else
      match Join(payloads, lo + 1, hi)
      case Success(tail) => Success(payloads[lo] + tail)
      case Failure(e) => Failure(e)
  }

  /** `e` names the first index in `lo` .. `hi - 1` that has no payload. */
  predicate FirstMissing(payloads: map<int, seq<byte>>, lo: int, hi: int, e: Error) {
    && e.MissingFragment?
    && lo <= e.index < hi
    && e.index !in payloads
    && (forall j :: lo <= j < e.index ==> j in payloads)
  }

  /** `update`: stores the fragment at its split index (overwriting), then joins indices
      0 .. size-1 once the assembly holds at least `splitCount` fragments. */
  function Update(a: Assembly, m: Message): (s: Step)
    ensures s.result == Failure(SplitMismatch) <==> !Belongs(a, m)
    ensures !Belongs(a, m) ==> s.assembly == a
    ensures Belongs(a, m) ==> s.assembly == a.(payloads := a.payloads[m.splitIndex := m.payload])
    ensures s.result == Success(None) <==> Belongs(a, m) && |s.assembly.payloads| < a.splitCount
    ensures s.result.Success? && s.result.value.Some? ==>
              |s.assembly.payloads| >= a.splitCount
              && forall i :: 0 <= i < |s.assembly.payloads| ==> i in s.assembly.payloads
  {
    if !Belongs(a, m) then
      Step(a, Failure(SplitMismatch))
    else
      var stored := a.(payloads := a.payloads[m.splitIndex := m.payload]);
      if |stored.payloads| >= a.splitCount then
        match Join(stored.payloads, 0, |stored.payloads|)
        case Success(payload) => Step(stored, Success(Some(payload)))
        case Failure(e) => Step(stored, Failure(e))
      else
        Step(stored, Success(None))
  }

  // ---------------------------------------------------------------------------------------------
  // Cardinality helpers

  lemma SubsetCard<T>(a: set<T>, b: set<T>)
    requires a <= b
    ensures |a| <= |b|
  {
    if a != {} {
      var x :| x in a;
      SubsetCard(a - {x}, b - {x});
    }
  }

  function Range(n: int): (r: set<int>)
    ensures forall i :: i in r <==> 0 <= i < n
    ensures n >= 0 ==> |r| == n
    decreases if n < 0 then 0 else n
  {
    if n <= 0 then {} else Range(n - 1) + {n - 1}
  }

  /** Keys of a map that has every index 0..n-1 and nothing else. */
  lemma MapOverRange<V>(m: map<int, V>, n: int)
    requires n >= 0
    requires forall i :: i in m <==> 0 <= i < n
    ensures |m| == n
  {
    assert m.Keys == Range(n);
  }

  // ---------------------------------------------------------------------------------------------
  // Properties of one update

  /** Re-delivering a stored index overwrites its payload and does not change the count. */
  lemma RedeliveryOverwrites(a: Assembly, m: Message)
    requires Belongs(a, m) && m.splitIndex in a.payloads
    ensures Update(a, m).assembly.payloads.Keys == a.payloads.Keys
    ensures |Update(a, m).assembly.payloads| == |a.payloads|
    ensures Update(a, m).assembly.payloads[m.splitIndex] == m.payload
  {
    assert a.payloads[m.splitIndex := m.payload].Keys == a.payloads.Keys;
  }

  /** A new index grows the assembly by exactly one fragment. */
  lemma NewIndexGrows(a: Assembly, m: Message)
    requires Belongs(a, m) && m.splitIndex !in a.payloads
    ensures |Update(a, m).assembly.payloads| == |a.payloads| + 1
  {
    assert a.payloads[m.splitIndex := m.payload].Keys == a.payloads.Keys + {m.splitIndex};
  }

  /** The concatenation over a map that holds `chunks[i]` at every index lo `lo` on. */
  lemma {:induction false} JoinOfChunks(payloads: map<int, seq<byte>>, chunks: seq<seq<byte>>, lo: int)
    requires 0 <= lo <= |chunks|
    requires forall i :: lo <= i < |chunks| ==> i in payloads && payloads[i] == chunks[i]
    ensures Join(payloads, lo, |chunks|) == Success(Flatten(chunks[lo..]))
    decreases |chunks| - lo
  {
    if lo < |chunks| {
      JoinOfChunks(payloads, chunks, lo + 1);
      assert chunks[lo..][1..] == chunks[lo + 1..];
    }
  }

  /** A completed assembly is not consumed: when it already holds exactly the indices
      0..splitCount-1, re-delivering any of them with the same payload joins the whole message
      again. */
  lemma CompletedAssemblyRepeats(a: Assembly, m: Message, chunks: seq<seq<byte>>)
    requires Belongs(a, m)
    requires a.splitCount == |chunks|
    requires forall i :: i in a.payloads <==> 0 <= i < |chunks|
    requires forall i :: 0 <= i < |chunks| ==> a.payloads[i] == chunks[i]
    requires 0 <= m.splitIndex < |chunks| && m.payload == chunks[m.splitIndex]
    ensures Update(a, m).assembly == a
    ensures Update(a, m).result == Success(Some(Flatten(chunks)))
  {
    assert a.payloads[m.splitIndex := m.payload] == a.payloads;
    MapOverRange(a.payloads, |chunks|);
    JoinOfChunks(a.payloads, chunks, 0);
    assert chunks[0..] == chunks;
  }

  /** After completion, a fragment that claims an index outside 0..splitCount-1 makes the
      assembly larger than the join range covers, and the join hits a hole. */
  lemma OutOfRangeIndexAfterCompletion(a: Assembly, m: Message)
    requires Belongs(a, m) && a.splitCount >= 0
    requires forall i :: i in a.payloads <==> 0 <= i < a.splitCount
    requires m.splitIndex > a.splitCount
    ensures Update(a, m).result == Failure(MissingFragment(a.splitCount))
  {
    var stored := a.payloads[m.splitIndex := m.payload];
    MapOverRange(a.payloads, a.splitCount);
    NewIndexGrows(a, m);
    assert a.splitCount !in stored;
  }

  // ---------------------------------------------------------------------------------------------
  // Reassembly in any arrival order

  /** Feeds the fragments in order; the final assembly and the result of each update. */
  function Feed(a: Assembly, ms: seq<Message>): (r: (Assembly, seq<Result<Option<seq<byte>>, Error>>))
    ensures |r.1| == |ms|
  {
    if |ms| == 0 then (a, [])
    else
      var previous := Feed(a, ms[..|ms| - 1]);
      var step := Update(previous.0, ms[|ms| - 1]);
      (step.assembly, previous.1 + [step.result])
  }

  /** The split indices of a sequence of fragments. */
  function Indices(ms: seq<Message>): (r: set<int>)
    ensures |r| <= |ms|
    ensures forall k :: 0 <= k < |ms| ==> ms[k].splitIndex in r
  {
    if |ms| == 0 then {} else Indices(ms[..|ms| - 1]) + {ms[|ms| - 1].splitIndex}
  }

  /** The fragments of one split message, each carrying the chunk at its own index. */
  predicate FragmentsOf(a: Assembly, ms: seq<Message>, chunks: seq<seq<byte>>) {
    forall k :: 0 <= k < |ms| ==> FragmentOf(a, ms[k], chunks)
  }

  predicate FragmentOf(a: Assembly, m: Message, chunks: seq<seq<byte>>) {
    Belongs(a, m) && 0 <= m.splitIndex < |chunks| && m.payload == chunks[m.splitIndex]
  }

  /** `current` is `a` holding exactly the chunks at the indices in `seen`. */
  predicate Holds(current: Assembly, a: Assembly, seen: set<int>, chunks: seq<seq<byte>>) {
    && current == a.(payloads := current.payloads)
    && current.payloads.Keys == seen
    && forall i :: i in current.payloads ==> 0 <= i < |chunks| && current.payloads[i] == chunks[i]
  }

  /** One fragment of the message adds its chunk under its index. */
  lemma UpdateStep(current: Assembly, a: Assembly, seen: set<int>, m: Message, chunks: seq<seq<byte>>)
    requires Holds(current, a, seen, chunks) && FragmentOf(a, m, chunks)
    ensures Holds(Update(current, m).assembly, a, seen + {m.splitIndex}, chunks)
    ensures |Update(current, m).assembly.payloads| == |seen + {m.splitIndex}|
  {
    var stored := current.payloads[m.splitIndex := m.payload];
    assert stored.Keys == seen + {m.splitIndex};
  }

  /** While fewer than `splitCount` indices have arrived, every update reports "incomplete",
      and the assembly holds exactly the chunks at the indices seen. */
  lemma {:induction false} FeedInvariant(a: Assembly, ms: seq<Message>, chunks: seq<seq<byte>>)
    requires a.payloads == map[] && a.splitCount == |chunks|
    requires FragmentsOf(a, ms, chunks)
    ensures Holds(Feed(a, ms).0, a, Indices(ms), chunks)
    ensures |ms| < |chunks| ==> forall k :: 0 <= k < |ms| ==> Feed(a, ms).1[k] == Success(None)
  {
    if |ms| > 0 {
      var init := ms[..|ms| - 1];
      var last := ms[|ms| - 1];
      assert FragmentsOf(a, init, chunks);
      assert FragmentOf(a, last, chunks);
      FeedInvariant(a, init, chunks);
      var previous := Feed(a, init);
      UpdateStep(previous.0, a, Indices(init), last, chunks);
      var step := Update(previous.0, last);
      assert Feed(a, ms) == (step.assembly, previous.1 + [step.result]);
      if |ms| < |chunks| {
        assert step.result == Success(None);
      }
    }
  }

  /** Every index of the message arrives at least once among `ms`. */
  predicate CoversAll(ms: seq<Message>, n: int) {
    forall i :: 0 <= i < n ==> i in Indices(ms)
  }

  /** Fed the `n` fragments of a message in any order to a fresh assembly, every update but
      the last reports "incomplete" and the last one yields the original payload. */
  lemma ReassemblyInAnyOrder(splitId: int, reliability: Reliability, ms: seq<Message>, chunks: seq<seq<byte>>)
    requires 1 <= |chunks| <= MAX_SPLIT_COUNT
    requires |ms| == |chunks| && CoversAll(ms, |chunks|)
    requires FragmentsOf(Assembly(splitId, |chunks|, reliability, map[]), ms, chunks)
    ensures New(splitId, |chunks|, reliability).Success?
    ensures var r := Feed(New(splitId, |chunks|, reliability).value, ms).1;
            (forall k :: 0 <= k < |ms| - 1 ==> r[k] == Success(None))
            && r[|ms| - 1] == Success(Some(Flatten(chunks)))
  {
    var a := Assembly(splitId, |chunks|, reliability, map[]);
    var n := |chunks|;
    var init := ms[..n - 1];
    assert FragmentsOf(a, init, chunks);
    FeedInvariant(a, init, chunks);
    FeedInvariant(a, ms, chunks);
    var previous := Feed(a, init);
    assert Feed(a, ms).1 == previous.1 + [Update(previous.0, ms[n - 1]).result];
    var final := Feed(a, ms).0.payloads;
    MapOverRange(final, n);
    JoinOfChunks(final, chunks, 0);
    assert chunks[0..] == chunks;
  }
}
