/** Bucket tables as two-dimensional arrays, and the maps they stand for. */
module AddrManGrid {
  import opened AddrManState
  import opened AddrManRuns

  /** The contents of a bucket table. */
  ghost function GridOf(a: array2<int>): (g: Grid)
    reads a
    ensures GridShape(g, a.Length0, a.Length1)
    ensures forall b, p :: 0 <= b < a.Length0 && 0 <= p < a.Length1 ==> g[(b, p)] == a[b, p]
  {
    map k | k in AllSlots(a.Length0, a.Length1) :: a[k.0, k.1]
  }

  method Put(a: array2<int>, b: int, p: int, x: int)
    requires 0 <= b < a.Length0 && 0 <= p < a.Length1
    modifies a
    ensures GridOf(a) == old(GridOf(a))[(b, p) := x]
  {
    ghost var g := GridOf(a);
    a[b, p] := x;
    ghost var h := g[(b, p) := x];
    forall k | k in h ensures k in GridOf(a) && GridOf(a)[k] == h[k] { assert k == (k.0, k.1); }
    assert forall k :: k in GridOf(a) <==> k in h;
  }

  lemma SameGrid(a: array2<int>, g: Grid)
    requires GridShape(g, a.Length0, a.Length1)
    requires forall b, p :: 0 <= b < a.Length0 && 0 <= p < a.Length1 ==> a[b, p] == g[(b, p)]
    ensures GridOf(a) == g
  {
    forall k: Slot | k in g ensures GridOf(a)[k] == g[k] { assert k == (k.0, k.1); }
    assert forall k :: k in GridOf(a) <==> k in g;
  }

  lemma AllEmpty(a: array2<int>)
    requires forall b, p :: 0 <= b < a.Length0 && 0 <= p < a.Length1 ==> a[b, p] == -1
    ensures GridOf(a) == EmptyGrid(a.Length0, a.Length1)
  {
    var g, h := GridOf(a), EmptyGrid(a.Length0, a.Length1);
    forall k: Slot | k in g ensures g[k] == -1 { assert k == (k.0, k.1); }
    assert forall k :: k in g <==> k in h;
  }
}
