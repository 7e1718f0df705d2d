/** Optional results: `None` stands for the Java methods' `null` return. */
module Options {

  datatype Option<T> = None | Some(value: T)

  /** The first index of `p` whose element satisfies `P`, given that one exists. */
  lemma FirstIndex<T>(p: seq<T>, P: T -> bool) returns (i: nat)
    requires exists k | 0 <= k < |p| :: P(p[k])
    ensures i < |p| && P(p[i])
    ensures forall j | 0 <= j < i :: !P(p[j])
  {
    i := 0;
    while !P(p[i])
      invariant i < |p|
      invariant forall j | 0 <= j < i :: !P(p[j])
      invariant exists k | i <= k < |p| :: P(p[k])
      decreases |p| - i
    {
      i := i + 1;
    }
  }

  /** Removing elements from a finite set strictly shrinks it. */
  lemma ProperSubsetSmaller<T>(a: set<T>, b: set<T>)
    requires a < b
    ensures |a| < |b|
  {
    var x :| x in b && x !in a;
    SubsetSmaller(a, b - {x});
  }

  lemma {:induction false} SubsetSmaller<T>(a: set<T>, c: set<T>)
    requires a <= c
    ensures |a| <= |c|
    decreases |c|
  {
    if c != {} {
      var y :| y in c;
      SubsetSmaller(a - {y}, c - {y});
    }
  }
}
