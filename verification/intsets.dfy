/** Extremes of finite sets of integers: the session's retransmission table is searched for its
    smallest key, the MTU candidates are sorted from their largest size down. */
module IntSets {
  /** The smallest element of a non-empty set. */
  lemma {:induction false} Minimum(keys: set<int>) returns (k: int)
    requires keys != {}
    ensures k in keys && forall j :: j in keys ==> k <= j
  {
    if forall y :: y !in keys {
      assert false;
    }
    var x :| x in keys;
    var rest := keys - {x};
    if rest == {} {
      assert keys == {x};
      k := x;
    } else {
      var m := Minimum(rest);
      k := if x < m then x else m;
      assert forall j :: j in keys ==> j == x || j in rest;
    }
  }

  lemma MinimumExists(keys: set<int>)
    requires keys != {}
    ensures exists k :: k in keys && forall j :: j in keys ==> k <= j
  {
    var k := Minimum(keys);
  }

  /** The largest element of a non-empty set: the negation of the smallest negated element. */
  lemma MaximumExists(keys: set<int>)
    requires keys != {}
    ensures exists k :: k in keys && forall j :: j in keys ==> j <= k
  {
    var x := Minimum(keys);
    var negated := set j | j in keys :: -j;
    assert -x in negated;
    var m := Minimum(negated);
    assert -m in keys;
    forall j | j in keys
      ensures j <= -m
    {
      assert -j in negated;
    }
  }
}
