/** Facts about sequence concatenation used by the tree-walking proofs. */
module SeqFacts {

  /** Two concatenations that agree, with left parts of equal length, agree part by part. */
  lemma SplitAppend<X>(a1: seq<X>, c1: seq<X>, a2: seq<X>, c2: seq<X>)
    requires a1 + c1 == a2 + c2 && |a1| == |a2|
    ensures a1 == a2 && c1 == c2
  {
    assert a1 == (a1 + c1)[..|a1|];
    assert a2 == (a2 + c2)[..|a2|];
    assert c1 == (a1 + c1)[|a1|..];
    assert c2 == (a2 + c2)[|a2|..];
  }
}
