/** Facts about sequences that the ledger proofs share. */
module Seqs {

  /** Taking out the element at k removes exactly one copy of it. */
  lemma RemoveAt<T>(s: seq<T>, k: nat)
    requires k < |s|
    ensures multiset(s[..k] + s[k + 1..]) + multiset{s[k]} == multiset(s)
  {
    assert s == s[..k] + [s[k]] + s[k + 1..];
  }

  lemma Cancel<T>(m1: multiset<T>, m2: multiset<T>, x: T)
    requires m1 + multiset{x} == m2 + multiset{x}
    ensures m1 == m2
  {
    assert forall y :: m1[y] == (m1 + multiset{x})[y] - multiset{x}[y];
    assert forall y :: m2[y] == (m2 + multiset{x})[y] - multiset{x}[y];
  }

  /** Taking out position k of two sequences related element by element keeps them related. */
  lemma RemoveAtPointwise<A, B>(a: seq<A>, b: seq<B>, f: A --> B, k: nat) returns (a': seq<A>, b': seq<B>)
    requires |a| == |b| && k < |a|
    requires forall i :: 0 <= i < |a| ==> f.requires(a[i]) && b[i] == f(a[i])
    ensures a' == a[..k] + a[k + 1..] && b' == b[..k] + b[k + 1..]
    ensures |a'| == |b'| && forall i :: 0 <= i < |a'| ==> f.requires(a'[i]) && b'[i] == f(a'[i])
  {
    a', b' := a[..k] + a[k + 1..], b[..k] + b[k + 1..];
    forall i | 0 <= i < |a'| ensures f.requires(a'[i]) && b'[i] == f(a'[i]) {
      if i < k {
        assert a'[i] == a[i] && b'[i] == b[i];
      } else {
        assert a'[i] == a[i + 1] && b'[i] == b[i + 1];
      }
    }
  }

  /** Applying one function (defined on every element) element by element to two sequences that hold the
      same elements, in any order, gives two sequences that hold the same
      elements. */
  lemma {:induction false} MultisetImage<A, B>(a: seq<A>, a': seq<A>, b: seq<B>, b': seq<B>, f: A --> B)
    requires multiset(a) == multiset(a')
    requires |b| == |a| && |b'| == |a'|
    requires forall i :: 0 <= i < |a| ==> f.requires(a[i]) && b[i] == f(a[i])
    requires forall i :: 0 <= i < |a'| ==> f.requires(a'[i]) && b'[i] == f(a'[i])
    ensures multiset(b) == multiset(b')
    decreases |a|
  {
    if |a| == 0 {
      assert |multiset(a')| == 0;
      assert b == [] && b' == [];
    } else {
      var n := |a| - 1;
      var x := a[n];
      assert x in multiset(a') by {
        assert a == a[..n] + [x];
      }
      var k :| 0 <= k < |a'| && a'[k] == x;
      var a'', b'' := RemoveAtPointwise(a', b', f, k);
      assert multiset(a'') == multiset(a[..n]) by {
        RemoveAt(a', k);
        RemoveAt(a, n);
        assert a[..n] + a[n + 1..] == a[..n];
        Cancel(multiset(a''), multiset(a[..n]), x);
      }
      MultisetImage(a[..n], a'', b[..n], b'', f);
      assert b'[k] == b[n];
      RemoveAt(b', k);
      RemoveAt(b, n);
      assert b[..n] + b[n + 1..] == b[..n];
    }
  }
}
