/** The client's candidate maximum transfer units during login: each has a size and a retry
    budget, and the candidates are tried from the largest size down. */
module TransferUnits {
  import opened Wrappers
  import opened IntSets

  datatype Unit = Unit(maximumTransferUnit: int, retries: int, retriesLeft: int)

  /** The constructor: the full retry budget is left. */
  function New(maximumTransferUnit: int, retries: int): (u: Unit)
    ensures u.maximumTransferUnit == maximumTransferUnit && u.retries == retries && u.retriesLeft == retries
  {
    Unit(maximumTransferUnit, retries, retries)
  }

  /** `retry`: one retry fewer; yields the count from before the call (post-decrement). */
  function Retry(u: Unit): (r: (Unit, int))
    ensures r.1 == u.retriesLeft && r.0.retriesLeft == r.1 - 1
    ensures r.0.maximumTransferUnit == u.maximumTransferUnit && r.0.retries == u.retries
  {
    (u.(retriesLeft := u.retriesLeft - 1), u.retriesLeft)
  }

  /** `reset`: the full budget again. */
  function Reset(u: Unit): (r: Unit)
    ensures r.retriesLeft == r.retries == u.retries && r.maximumTransferUnit == u.maximumTransferUnit
  {
    u.(retriesLeft := u.retries)
  }

  /** `k` retries in a row: the unit afterwards and what each call yielded. */
  function RetryTimes(u: Unit, k: nat): (r: (Unit, seq<int>))
    ensures |r.1| == k
    decreases k
  {
    if k == 0 then (u, [])
    else
      var step := Retry(u);
      var rest := RetryTimes(step.0, k - 1);
      (rest.0, [step.1] + rest.1)
  }

  /** From a fresh or reset unit, the `i`-th retry yields `retries - i`: the first `retries` calls
      yield a positive count and every later one zero or less, and a reset starts over. */
  lemma {:induction false} RetryCountsDown(u: Unit, k: nat)
    ensures RetryTimes(u, k).0 == u.(retriesLeft := u.retriesLeft - k)
    ensures forall i :: 0 <= i < k ==> RetryTimes(u, k).1[i] == u.retriesLeft - i
    ensures Reset(RetryTimes(u, k).0) == Reset(u)
    decreases k
  {
    if k > 0 {
      RetryCountsDown(Retry(u).0, k - 1);
    }
  }

  // ---------------------------------------------------------------------------------------------
  // Sorting

  /** The units keyed by size, built front to back so that a later unit replaces an earlier one of
      the same size. */
  function Index(acc: map<int, Unit>, units: seq<Unit>): (m: map<int, Unit>)
    requires forall k :: k in acc ==> acc[k].maximumTransferUnit == k
    ensures forall k :: k in m ==> m[k].maximumTransferUnit == k
    decreases |units|
  {
    if |units| == 0 then acc
    else Index(acc[units[0].maximumTransferUnit := units[0]], units[1..])
  }

  /** The last unit of the given size, searched from the back. */
  function LastWith(units: seq<Unit>, size: int): (r: Option<Unit>)
    ensures r.Some? ==> r.value in units && r.value.maximumTransferUnit == size
    ensures r.None? <==> forall i :: 0 <= i < |units| ==> units[i].maximumTransferUnit != size
  {
    if |units| == 0 then None
    else if units[|units| - 1].maximumTransferUnit == size then Some(units[|units| - 1])
    else LastWith(units[..|units| - 1], size)
  }

  /** The front-to-back index agrees with the backward search: a size maps to the last unit that
      has it, and sizes nobody has fall back to the starting map. */
  lemma {:induction false} IndexKeepsLast(acc: map<int, Unit>, units: seq<Unit>, size: int)
    requires forall k :: k in acc ==> acc[k].maximumTransferUnit == k
    ensures LastWith(units, size).Some? ==> size in Index(acc, units) && Index(acc, units)[size] == LastWith(units, size).value
    ensures LastWith(units, size).None? ==>
              (size in Index(acc, units) <==> size in acc) && (size in acc ==> Index(acc, units)[size] == acc[size])
    decreases |units|
  {
    if |units| > 0 {
      var acc' := acc[units[0].maximumTransferUnit := units[0]];
      IndexKeepsLast(acc', units[1..], size);
      LastWithDropFirst(units, size);
    }
  }

  /** Searching from the back finds the same unit with or without the first element, unless only
      the first element has the size. */
  lemma {:induction false} LastWithDropFirst(units: seq<Unit>, size: int)
    requires |units| > 0
    ensures LastWith(units, size)
            == if LastWith(units[1..], size).Some? then LastWith(units[1..], size)
               else if units[0].maximumTransferUnit == size then Some(units[0]) else None
    decreases |units|
  {
    if |units| > 1 {
      var init := units[..|units| - 1];
      assert init[1..] == units[1..][..|units[1..]| - 1];
      LastWithDropFirst(init, size);
      assert units[|units| - 1] == units[1..][|units[1..]| - 1];
    }
  }

  /** The keys from the largest down. */
  function Descending(keys: set<int>): (r: seq<int>)
    ensures forall i, j :: 0 <= i < j < |r| ==> r[i] > r[j]
    ensures forall k :: k in keys <==> k in r
    decreases |keys|
  {
    if keys == {} then []
    else
      MaximumExists(keys);
      var top :| top in keys && forall j :: j in keys ==> j <= top;
      var rest := Descending(keys - {top});
      assert forall k :: k in keys <==> k == top || k in keys - {top};
      [top] + rest
  }

  /** The sizes present among the units. */
  function Sizes(units: seq<Unit>): set<int> {
    set i | 0 <= i < |units| :: units[i].maximumTransferUnit
  }

  /** `sort`: one unit per distinct size, the last given of that size, from the largest size down. */
  function Sort(units: seq<Unit>): (r: seq<Unit>)
    ensures forall i, j :: 0 <= i < j < |r| ==> r[i].maximumTransferUnit > r[j].maximumTransferUnit
    ensures forall i :: 0 <= i < |r| ==> LastWith(units, r[i].maximumTransferUnit) == Some(r[i])
    ensures forall size :: size in Sizes(units) <==> exists i :: 0 <= i < |r| && r[i].maximumTransferUnit == size
  {
    var index := Index(map[], units);
    var sizes := Descending(index.Keys);
    var r := seq(|sizes|, i requires 0 <= i < |sizes| => index[sizes[i]]);
    forall i | 0 <= i < |r|
      ensures LastWith(units, r[i].maximumTransferUnit) == Some(r[i])
    {
      IndexKeepsLast(map[], units, sizes[i]);
    }
    forall size
      ensures size in Sizes(units) <==> exists i :: 0 <= i < |r| && r[i].maximumTransferUnit == size
    {
      IndexKeepsLast(map[], units, size);
      if size in Sizes(units) {
        var j :| 0 <= j < |units| && units[j].maximumTransferUnit == size;
        assert size in sizes;
        var i :| 0 <= i < |sizes| && sizes[i] == size;
        assert r[i].maximumTransferUnit == size;
      }
      if exists i :: 0 <= i < |r| && r[i].maximumTransferUnit == size {
        var i :| 0 <= i < |r| && r[i].maximumTransferUnit == size;
        assert LastWith(units, size).Some?;
      }
    }
    r
  }
}
