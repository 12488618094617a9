/** The one conversion fact every byte-level proof rests on, kept apart from everything else. */
module Octets {
  /** A value in the byte range survives the trip to `bv8` and back; the proof goes through the
      wider `bv16`, where the value and its truncation coincide. */
  lemma RoundTrip(v: int)
    requires 0 <= v < 256
    ensures (v as bv8) as int == v
  {
    var w := v as bv16;
    assert w < 256;
    assert (w as bv8) as bv16 == w;
    assert w as bv8 == v as bv8;
  }
}
