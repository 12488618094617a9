/** The connection states of a session and their numeric order. */
module ConnectionState {
  import opened Wrappers

  datatype State = Disconnected | Handshaking | Connected {
    /** `getOrder`: the state's position in the declaration order. */
    function Order(): (o: int)
      ensures 0 <= o < |Values| && Values[o] == this
    {
      match this
      case Disconnected => 0
      case Handshaking => 1
      case Connected => 2
    }
  }

  /** The states in declaration order, as `values()` lists them. */
  const Values: seq<State> := [Disconnected, Handshaking, Connected]

  /** The first state from `i` on whose order is `order`. */
  function FindFrom(order: int, i: nat): (r: Option<State>)
    requires i <= |Values|
    ensures r.Some? ==> r.value.Order() == order
    ensures r.None? ==> forall j :: i <= j < |Values| ==> Values[j].Order() != order
    decreases |Values| - i
  {
    if i == |Values| then None
    else if Values[i].Order() == order then Some(Values[i])
    else FindFrom(order, i + 1)
  }

  /** `getState`: the state with the given order, or nothing (the Java null) for any other
      number. */
  function GetState(order: int): (r: Option<State>)
    ensures r.Some? ==> r.value.Order() == order
    ensures r.None? <==> order !in {0, 1, 2}
  {
    FindFrom(order, 0)
  }

  /** Looking a state up by its order gives the state back, so no two states share an order. */
  lemma OrderRoundTrip(st: State)
    ensures GetState(st.Order()) == Some(st)
  {
  }

  /** Distinct states have distinct orders. */
  lemma OrderInjective(a: State, b: State)
    ensures a.Order() == b.Order() ==> a == b
  {
    OrderRoundTrip(a);
    OrderRoundTrip(b);
  }
}
