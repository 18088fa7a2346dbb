/** Prefixes of sequences. */
module Prefixes {
  ghost predicate Prefix<T>(p: seq<T>, q: seq<T>) {
    |p| <= |q| && q[..|p|] == p
  }

  lemma PrefixAt<T>(p: seq<T>, q: seq<T>)
    requires |p| <= |q|
    ensures Prefix(p, q) <==> forall i | 0 <= i < |p| :: p[i] == q[i]
  {
  }

  lemma PrefixTrans<T>(p: seq<T>, q: seq<T>, r: seq<T>)
    requires Prefix(p, q) && Prefix(q, r)
    ensures Prefix(p, r)
  {
    assert r[..|p|] == r[..|q|][..|p|];
  }

  /** Two prefixes of one sequence are prefixes of each other. */
  lemma PrefixChain<T>(p: seq<T>, q: seq<T>, r: seq<T>)
    requires Prefix(p, r) && Prefix(q, r) && |p| <= |q|
    ensures Prefix(p, q)
  {
    assert r[..|q|][..|p|] == r[..|p|];
  }

  lemma PrefixNext<T>(p: seq<T>, q: seq<T>)
    requires Prefix(p, q) && |p| < |q|
    ensures Prefix(p + [q[|p|]], q)
  {
    assert q[..|p| + 1] == q[..|p|] + [q[|p|]];
  }

  lemma PrefixLast<T>(p: seq<T>, c: T, q: seq<T>)
    requires Prefix(p + [c], q)
    ensures |p| < |q| && q[..|p|] == p && q[|p|] == c
  {
    var r := q[..|p| + 1];
    assert q[..|p|] == r[..|p|] == p;
    assert q[|p|] == r[|p|] == c;
  }
}
