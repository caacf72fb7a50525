/** Facts about sequences that every recursive walk over a concatenation needs. */
module Sequences {

  /** The walk of a + b starts with the head of a and continues with the rest of a, then b. */
  lemma TailOfConcat<T>(a: seq<T>, b: seq<T>)
    requires |a| > 0
    ensures (a + b)[0] == a[0] && (a + b)[1..] == a[1..] + b
  {
  }

  /** Putting the head back in front of the tail with its element j removed removes element j + 1. */
  lemma ConsOfSplice<T>(s: seq<T>, j: nat)
    requires j + 1 < |s|
    ensures [s[0]] + (s[1..][..j] + s[1..][j + 1..]) == s[..j + 1] + s[j + 2..]
  {
    assert s[1..][..j] == s[1..j + 1] && s[1..][j + 1..] == s[j + 2..];
    assert [s[0]] + s[1..j + 1] == s[..j + 1];
  }

  /** Two sequences that agree up to q agree on every slice that ends by q. */
  lemma SliceWithinPrefix<T>(a: seq<T>, b: seq<T>, q: nat, p: nat, e: nat)
    requires q <= |a| && q <= |b| && a[..q] == b[..q]
    requires p <= e <= q
    ensures a[p..e] == b[p..e]
  {
    forall k | 0 <= k < e - p
      ensures a[p..e][k] == b[p..e][k]
    {
      assert a[p + k] == a[..q][p + k];
    }
  }
}
