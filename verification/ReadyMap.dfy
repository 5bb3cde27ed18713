/** The word whose bits say which priorities have a ready task, as a sequence with the lowest bit first. */
module ReadyMap {
  /** The highest set bit: 31 less the number of leading zeros, for the 32 bits of a word. */
  function HighestSet(bits: seq<bool>): (p: nat)
    requires exists i :: 0 <= i < |bits| && bits[i]
    ensures p < |bits| && bits[p] && forall q :: p < q < |bits| ==> !bits[q]
  {
    var n := |bits| - 1;
    if bits[n] then n else
      SetBelow(bits, bits[..n]);
      HighestSet(bits[..n])
  }

  lemma SetBelow(bits: seq<bool>, below: seq<bool>)
    requires (exists i :: 0 <= i < |bits| && bits[i]) && !bits[|bits| - 1] && below == bits[..|bits| - 1]
    ensures exists i :: 0 <= i < |below| && below[i]
  {
    var i :| 0 <= i < |bits| && bits[i];
    assert below[i];
  }
}
