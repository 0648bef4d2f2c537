/** Order-preserving subsequences: `a` is obtained from `b` by deleting
    elements without reordering the rest. */
module Sequences {

  predicate IsSubseq<T(==)>(a: seq<T>, b: seq<T>)
    decreases |b|
  {
    || |a| == 0
    || (|b| > 0 && ((a[0] == b[0] && IsSubseq(a[1..], b[1..])) || IsSubseq(a, b[1..])))
  }

  lemma {:induction false} SubseqMembers<T>(a: seq<T>, b: seq<T>)
    requires IsSubseq(a, b)
    ensures |a| <= |b|
    ensures forall x :: x in a ==> x in b
    decreases |b|
  {
    if |a| == 0 {
    } else if a[0] == b[0] && IsSubseq(a[1..], b[1..]) {
      SubseqMembers(a[1..], b[1..]);
      assert forall x :: x in a ==> x == a[0] || x in a[1..];
    } else {
      SubseqMembers(a, b[1..]);
    }
  }
}
