/** Order-preserving subsequences and distinctness, shared by the search loop and the filter. */
module Seqs {

  /** `a` is obtained from `b` by deleting elements, keeping the order of the rest. */
  predicate Subsequence<T(==)>(a: seq<T>, b: seq<T>)
    decreases |b|
  {
    if |a| == 0 then true
    else if |b| == 0 then false
    else (a[0] == b[0] && Subsequence(a[1..], b[1..])) || Subsequence(a, b[1..])
  }

  /** No two positions of `s` carry the same key. */
  predicate DistinctBy<T, K(==)>(s: seq<T>, key: T -> K)
  {
    forall i, j :: 0 <= i < j < |s| ==> key(s[i]) != key(s[j])
  }

  /** Every element of a subsequence is an element of the sequence it was taken from. */
  lemma {:induction false} SubsequenceMembers<T>(a: seq<T>, b: seq<T>)
    requires Subsequence(a, b)
    ensures forall x :: x in a ==> x in b
    decreases |b|
  {
    if |a| == 0 {
    } else if a[0] == b[0] && Subsequence(a[1..], b[1..]) {
      SubsequenceMembers(a[1..], b[1..]);
      forall x | x in a
        ensures x in b
      {
        if x != a[0] {
          assert x in a[1..];
          assert x in b[1..];
        }
      }
    } else {
      SubsequenceMembers(a, b[1..]);
      forall x | x in a
        ensures x in b
      {
        assert x in b[1..];
      }
    }
  }

  /** Deleting elements keeps keys distinct. */
  lemma {:induction false} SubsequenceDistinctBy<T, K>(a: seq<T>, b: seq<T>, key: T -> K)
    requires Subsequence(a, b)
    requires DistinctBy(b, key)
    ensures DistinctBy(a, key)
    decreases |b|
  {
    if |a| == 0 {
    } else if a[0] == b[0] && Subsequence(a[1..], b[1..]) {
      SubsequenceDistinctBy(a[1..], b[1..], key);
      SubsequenceMembers(a[1..], b[1..]);
      forall i, j | 0 <= i < j < |a|
        ensures key(a[i]) != key(a[j])
      {
        if i == 0 {
          assert a[j] == a[1..][j - 1];
          assert a[j] in b[1..];
          var k :| 0 <= k < |b[1..]| && b[1..][k] == a[j];
          assert b[k + 1] == a[j];
        } else {
          assert a[i] == a[1..][i - 1] && a[j] == a[1..][j - 1];
        }
      }
    } else {
      SubsequenceDistinctBy(a, b[1..], key);
    }
  }
}
