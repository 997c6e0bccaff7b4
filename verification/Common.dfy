/** What several components share. */
module Common {
  datatype Option<+T> = None | Some(value: T)

  /** The sequence without its element at `k`. */
  function Without<T>(q: seq<T>, k: nat): (r: seq<T>)
    requires k < |q|
    ensures |r| == |q| - 1
    ensures forall a :: 0 <= a < |r| ==> r[a] == if a < k then q[a] else q[a + 1]
  {
    q[..k] + q[k + 1..]
  }

  lemma {:induction false} SubsetSize<T>(a: set<T>, b: set<T>)
    requires a <= b
    ensures |a| <= |b|
    decreases a
  {
    if a != {} {
      var x :| x in a;
      SubsetSize(a - {x}, b - {x});
    }
  }
}
