/** A few facts about slices. */
module Sequences {

  /** A buffer with a part written at an offset. */
  function Overwritten<T>(before: seq<T>, o: nat, part: seq<T>): (now: seq<T>)
    requires o + |part| <= |before|
    ensures |now| == |before|
  {
    before[..o] + part + before[o + |part|..]
  }

  lemma SliceOfSlice<T>(s: seq<T>, a: nat, b: nat, i: nat, j: nat)
    requires a <= b <= |s| && i <= j <= b - a
    ensures s[a..b][i..j] == s[a + i..a + j]
  {
    var t := s[a..b];
    var left, right := t[i..j], s[a + i..a + j];
    forall k | 0 <= k < |left|
      ensures left[k] == right[k]
    {
      assert left[k] == t[i + k];
    }
  }
}
