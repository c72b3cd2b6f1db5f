/** Notions and laws of sequences that several modules use. */
module Sequences {
  /** The places of the elements with a property. */
  function Where<T>(s: seq<T>, p: T -> bool): set<int> { set k | 0 <= k < |s| && p(s[k]) }

  lemma WhereSnoc<T>(s: seq<T>, p: T -> bool)
    requires s != []
    ensures |Where(s, p)| == |Where(s[..|s| - 1], p)| + if p(s[|s| - 1]) then 1 else 0
  {
    var n := |s| - 1;
    assert Where(s, p) == Where(s[..n], p) + if p(s[n]) then {n} else {};
  }

  lemma Assoc<T>(a: seq<T>, b: seq<T>, c: seq<T>)
    ensures a + b + c == a + (b + c)
  {
  }
}
