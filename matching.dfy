/** The match rule of a polling tick: every face detected in the live frame
    is compared with the one stored reference encoding, in detection order,
    and the search stops at the first positive comparison. */
module Matching {

  /** Some detected face was judged to be the registered person. */
  predicate AnyMatch(verdicts: seq<bool>) {
    exists k :: 0 <= k < |verdicts| && verdicts[k]
  }

  /** The flag-and-break search over the per-face comparison verdicts.
      `compared` is how many comparisons were made: up to and including the
      first positive one, or all of them when none is positive. In particular
      a frame with no detected face never matches. */
  method FirstMatch(verdicts: seq<bool>) returns (matched: bool, compared: nat)
    ensures matched <==> AnyMatch(verdicts)
    ensures compared <= |verdicts|
    ensures matched ==> 0 < compared && verdicts[compared - 1]
    ensures forall k :: 0 <= k < compared - 1 ==> !verdicts[k]
    ensures !matched ==> compared == |verdicts|
  {
    matched := false;
    compared := 0;
    while compared < |verdicts|
      invariant compared <= |verdicts|
      invariant forall k :: 0 <= k < compared ==> !verdicts[k]
    {
      var positive := verdicts[compared];
      compared := compared + 1;
      if positive {
        matched := true;
        break;
      }
    }
  }
}
