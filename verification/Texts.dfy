/** Searching in C strings. */
module Texts {

  /** strcspn(): the first place from `i` on that holds a character of `stop`, or the end. */
  function Span(s: string, i: nat, stop: string): (j: nat)
    requires i <= |s|
    ensures i <= j <= |s| && (j < |s| ==> s[j] in stop) && forall k | i <= k < j :: s[k] !in stop
    decreases |s| - i
  {
    if i == |s| || s[i] in stop then i else Span(s, i + 1, stop)
  }

  lemma {:induction false} SpanIs(s: string, i: nat, j: nat, stop: string)
    requires i <= j <= |s| && (j < |s| ==> s[j] in stop) && forall k | i <= k < j :: s[k] !in stop
    ensures Span(s, i, stop) == j
  {
  }
}
