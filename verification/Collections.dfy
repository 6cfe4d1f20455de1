/** Optional values and the sizes of finite sets, shared by the other modules. */
module Collections {

  datatype Option<T> = None | Some(value: T)

  /** A union has as many members as its parts together exactly when they are disjoint. */
  lemma UnionSize<T>(a: set<T>, b: set<T>)
    ensures |a + b| <= |a| + |b|
    ensures |a + b| == |a| + |b| <==> a !! b
  {
    assert |a + b| + |a * b| == |a| + |b|;
  }

  /** A subset is no larger, and equal when it is as large. */
  lemma SubsetSize<T>(a: set<T>, b: set<T>)
    requires a <= b
    ensures |a| <= |b|
    ensures |a| == |b| ==> a == b
  {
    assert b == a + (b - a);
  }
}
