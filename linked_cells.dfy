/** The node pool shared by the sentinel-delimited sorted linked lists.

    A list is a sequence of cells; a cell holds a value and the index of its
    successor, so a pointer is an index into the pool. Cell HEAD is the head
    sentinel and cell TAIL the tail sentinel; NIL stands for a null pointer
    (the tail's successor). A list is described by its spine: the indices of
    the data cells in the order in which following `next` from HEAD visits
    them before reaching TAIL. Position 0 of a list is the head sentinel,
    positions 1..|spine| are the data cells and position |spine| + 1 is the
    tail sentinel. Unlinked cells stay in the pool, unreachable. */
module LinkedCells {

  const HEAD: int := 0
  const TAIL: int := 1
  const NIL: int := -1

  datatype Cell<T> = Cell(val: T, next: int)

  /** The pool index of the cell at list position k. */
  function Pos(spine: seq<int>, k: int): int
    requires 0 <= k <= |spine| + 1
  {
    if k == 0 then HEAD else if k <= |spine| then spine[k - 1] else TAIL
  }

  /** Every data cell lies in the pool, apart from the two sentinels. */
  ghost predicate InPool<T>(nodes: seq<Cell<T>>, spine: seq<int>)
  {
    forall k :: 0 <= k < |spine| ==> 2 <= spine[k] < |nodes|
  }

  /** Following `next` from HEAD visits exactly the spine, then TAIL, whose
      successor is null; no data cell is visited twice. */
  ghost predicate Linked<T>(nodes: seq<Cell<T>>, spine: seq<int>)
  {
    && |nodes| >= 2
    && nodes[TAIL].next == NIL
    && InPool(nodes, spine)
    && (forall i, j :: 0 <= i < j < |spine| ==> spine[i] != spine[j])
    && (forall k :: 0 <= k <= |spine| ==> nodes[Pos(spine, k)].next == Pos(spine, k + 1))
  }

  /** The values of the data cells, in list order. */
  ghost function Values<T>(nodes: seq<Cell<T>>, spine: seq<int>): (vs: seq<T>)
    requires InPool(nodes, spine)
    ensures |vs| == |spine|
    ensures forall k :: 0 <= k < |spine| ==> vs[k] == nodes[spine[k]].val
  {
    seq(|spine|, k requires 0 <= k < |spine| => nodes[spine[k]].val)
  }

  function Inserted<X>(s: seq<X>, k: int, x: X): (r: seq<X>)
    requires 0 <= k <= |s|
    ensures |r| == |s| + 1 && r[k] == x
    ensures forall i :: 0 <= i < k ==> r[i] == s[i]
    ensures forall i :: k < i < |r| ==> r[i] == s[i - 1]
  {
    s[..k] + [x] + s[k..]
  }

  function Removed<X>(s: seq<X>, k: int): (r: seq<X>)
    requires 0 <= k < |s|
    ensures |r| == |s| - 1
    ensures forall i :: 0 <= i < k ==> r[i] == s[i]
    ensures forall i :: k <= i < |r| ==> r[i] == s[i + 1]
  {
    s[..k] + s[k + 1..]
  }

  /** Distinct list positions hold distinct cells. */
  lemma PosInjective<T>(nodes: seq<Cell<T>>, spine: seq<int>, i: int, j: int)
    requires Linked(nodes, spine)
    requires 0 <= i <= |spine| + 1 && 0 <= j <= |spine| + 1 && i != j
    ensures Pos(spine, i) != Pos(spine, j)
  {
    if 1 <= i <= |spine| && 1 <= j <= |spine| {
      if i < j {
        assert spine[i - 1] != spine[j - 1];
      } else {
        assert spine[j - 1] != spine[i - 1];
      }
    } else if 1 <= i <= |spine| {
      assert 2 <= spine[i - 1];
    } else if 1 <= j <= |spine| {
      assert 2 <= spine[j - 1];
    }
  }

  /** Every cell on the list lies in the pool. */
  lemma PosInPool<T>(nodes: seq<Cell<T>>, spine: seq<int>, k: int)
    requires Linked(nodes, spine) && 0 <= k <= |spine| + 1
    ensures 0 <= Pos(spine, k) < |nodes|
    ensures 1 <= k <= |spine| ==> 2 <= Pos(spine, k)
  {
  }

  /** Splicing a new cell holding v between positions k and k + 1 (the new
      cell is appended to the pool and the cell at position k is redirected
      to it) yields a list whose values are the old ones with v at k. */
  lemma LinkAfter<T>(nodes: seq<Cell<T>>, spine: seq<int>, k: int, v: T, nodes': seq<Cell<T>>)
    requires Linked(nodes, spine) && 0 <= k <= |spine|
    requires nodes' == (nodes + [Cell(v, Pos(spine, k + 1))])[Pos(spine, k) := Cell(nodes[Pos(spine, k)].val, |nodes|)]
    ensures Linked(nodes', Inserted(spine, k, |nodes|))
    ensures Values(nodes', Inserted(spine, k, |nodes|)) == Inserted(Values(nodes, spine), k, v)
  {
    var spine' := Inserted(spine, k, |nodes|);
    PosInPool(nodes, spine, k);
    assert InPool(nodes', spine');
    LinkAfterDistinct(nodes, spine, k);
    LinkAfterNext(nodes, spine, k, v, nodes');
    PosInjective(nodes, spine, k, |spine| + 1);
    assert nodes'[TAIL] == nodes[TAIL];
    forall p | 0 <= p < |spine'| ensures Values(nodes', spine')[p] == Inserted(Values(nodes, spine), k, v)[p] {
      if p != k {
        var p0 := if p < k then p else p - 1;
        assert spine'[p] == spine[p0];
      }
    }
  }

  /** The new cell's index is fresh, so the spine stays free of repeats. */
  lemma LinkAfterDistinct<T>(nodes: seq<Cell<T>>, spine: seq<int>, k: int)
    requires Linked(nodes, spine) && 0 <= k <= |spine|
    ensures forall i, j :: 0 <= i < j < |Inserted(spine, k, |nodes|)| ==>
      Inserted(spine, k, |nodes|)[i] != Inserted(spine, k, |nodes|)[j]
  {
    var spine' := Inserted(spine, k, |nodes|);
    forall i, j | 0 <= i < j < |spine'| ensures spine'[i] != spine'[j] {
      if i != k && j != k {
        var i0 := if i < k then i else i - 1;
        var j0 := if j < k then j else j - 1;
        assert spine'[i] == spine[i0] && spine'[j] == spine[j0] && i0 < j0;
      }
    }
  }

  /** After the splice every list position points at the next one. */
  lemma LinkAfterNext<T>(nodes: seq<Cell<T>>, spine: seq<int>, k: int, v: T, nodes': seq<Cell<T>>)
    requires Linked(nodes, spine) && 0 <= k <= |spine|
    requires nodes' == (nodes + [Cell(v, Pos(spine, k + 1))])[Pos(spine, k) := Cell(nodes[Pos(spine, k)].val, |nodes|)]
    ensures forall p :: 0 <= p <= |spine| + 1 ==>
      nodes'[Pos(Inserted(spine, k, |nodes|), p)].next == Pos(Inserted(spine, k, |nodes|), p + 1)
  {
    var n := |nodes|;
    var spine' := Inserted(spine, k, n);
    var pred := Pos(spine, k);
    PosInPool(nodes, spine, k);
    forall p | 0 <= p <= |spine'| ensures nodes'[Pos(spine', p)].next == Pos(spine', p + 1) {
      if p < k {
        PosInjective(nodes, spine, p, k);
        assert Pos(spine', p) == Pos(spine, p) && Pos(spine', p + 1) == Pos(spine, p + 1);
      } else if p == k {
        assert Pos(spine', p) == pred;
      } else if p == k + 1 {
        assert Pos(spine', p) == n && Pos(spine', p + 1) == Pos(spine, k + 1);
      } else {
        PosInjective(nodes, spine, p - 1, k);
        PosInPool(nodes, spine, p - 1);
        assert Pos(spine', p) == Pos(spine, p - 1) && Pos(spine', p + 1) == Pos(spine, p);
      }
    }
  }

  /** Redirecting the cell at position k to the successor of the data cell at
      position k + 1 removes that data cell's value from the list. */
  lemma Unlink<T>(nodes: seq<Cell<T>>, spine: seq<int>, k: int, nodes': seq<Cell<T>>)
    requires Linked(nodes, spine) && 0 <= k < |spine|
    requires nodes' == nodes[Pos(spine, k) := Cell(nodes[Pos(spine, k)].val, nodes[spine[k]].next)]
    ensures Linked(nodes', Removed(spine, k))
    ensures Values(nodes', Removed(spine, k)) == Removed(Values(nodes, spine), k)
  {
    var spine' := Removed(spine, k);
    var pred := Pos(spine, k);
    PosInPool(nodes, spine, k);
    assert InPool(nodes', spine');
    forall i, j | 0 <= i < j < |spine'| ensures spine'[i] != spine'[j] {
      var i0 := if i < k then i else i + 1;
      var j0 := if j < k then j else j + 1;
      assert spine'[i] == spine[i0] && spine'[j] == spine[j0] && i0 < j0;
    }
    forall p | 0 <= p <= |spine'| ensures nodes'[Pos(spine', p)].next == Pos(spine', p + 1) {
      if p < k {
        PosInjective(nodes, spine, p, k);
        assert Pos(spine', p) == Pos(spine, p) && Pos(spine', p + 1) == Pos(spine, p + 1);
      } else if p == k {
        assert Pos(spine', p) == pred && Pos(spine', p + 1) == Pos(spine, k + 2);
        assert nodes[spine[k]].next == nodes[Pos(spine, k + 1)].next == Pos(spine, k + 2);
      } else {
        PosInjective(nodes, spine, p + 1, k);
        PosInPool(nodes, spine, p + 1);
        assert Pos(spine', p) == Pos(spine, p + 1) && Pos(spine', p + 1) == Pos(spine, p + 2);
      }
    }
    PosInjective(nodes, spine, k, |spine| + 1);
    assert nodes'[TAIL] == nodes[TAIL];
    forall p | 0 <= p < |spine'| ensures Values(nodes', spine')[p] == Removed(Values(nodes, spine), k)[p] {
      var p0 := if p < k then p else p + 1;
      assert spine'[p] == spine[p0];
    }
  }
}
