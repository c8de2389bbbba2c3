/** The sentinel-delimited sorted list that all three set implementations
    share: the head sentinel holds LOWEST, the tail sentinel HIGHEST, and the
    data cells between them hold strictly ascending values. The predecessor
    search and the order check are the same walk in every implementation
    (the fine-grained one adds hand-over-hand locking to the search), so they
    are defined once here. */
module SortedSetList {
  import opened LinkedCells
  import opened ISet

  /** The representation invariant of a quiescent set. */
  ghost predicate SortedList(nodes: seq<Cell<Int32>>, spine: seq<int>)
  {
    && Linked(nodes, spine)
    && nodes[HEAD].val == LOWEST
    && nodes[TAIL].val == HIGHEST
    && StrictlyAscending(Values(nodes, spine))
  }

  /** The lists of a fresh set: the head points straight at the tail. */
  function EmptyPool(): (nodes: seq<Cell<Int32>>)
    ensures SortedList(nodes, []) && Values(nodes, []) == []
    ensures nodes[HEAD].next == TAIL
  {
    [Cell(LOWEST, TAIL), Cell(HIGHEST, NIL)]
  }

  /** An empty pool's contents as a set. */
  lemma EmptyElems(nodes: seq<Cell<Int32>>)
    requires InPool(nodes, [])
    ensures Elems(Values(nodes, [])) == {}
  {
  }

  /** find_node: walk from the head while the next value is below v. The
      result is the cell at position k: every value before position k is
      below v, and the value at k (if any) is at least v. */
  method FindPredecessor(nodes: seq<Cell<Int32>>, ghost spine: seq<int>, v: Int32)
    returns (pred: int, ghost k: int)
    requires Linked(nodes, spine)
    ensures 0 <= k <= |spine| && pred == Pos(spine, k)
    ensures forall i :: 0 <= i < k ==> Values(nodes, spine)[i] < v
    ensures k < |spine| ==> v <= Values(nodes, spine)[k]
  {
    pred := HEAD;
    var curr := nodes[HEAD].next;
    k := 0;
    while curr != TAIL && nodes[curr].val < v
      invariant 0 <= k <= |spine| && pred == Pos(spine, k) && curr == Pos(spine, k + 1)
      invariant forall i :: 0 <= i < k ==> Values(nodes, spine)[i] < v
      decreases |spine| - k
    {
      pred := curr;
      curr := nodes[curr].next;
      k := k + 1;
    }
  }

  /** check_invariants: walk the list and compare each cell's value with its
      predecessor's, starting with the head sentinel. The result is exactly
      whether the head value followed by the contents never decreases. The
      null checks of the source cannot fail on a linked list and are not
      modelled as branches. */
  method CheckSortedChain(nodes: seq<Cell<Int32>>, ghost spine: seq<int>) returns (ok: bool)
    requires Linked(nodes, spine)
    ensures ok == NonDecreasing([nodes[HEAD].val] + Values(nodes, spine))
  {
    ghost var chain := [nodes[HEAD].val] + Values(nodes, spine);
    assert forall i :: 0 <= i <= |spine| ==> chain[i] == nodes[Pos(spine, i)].val;
    var pred := HEAD;
    var curr := nodes[HEAD].next;
    ghost var k := 0;
    while curr != TAIL
      invariant 0 <= k <= |spine| && pred == Pos(spine, k) && curr == Pos(spine, k + 1)
      invariant forall i :: 0 < i <= k ==> chain[i - 1] <= chain[i]
      decreases |spine| - k
    {
      if nodes[pred].val > nodes[curr].val {
        assert chain[k + 1] < chain[k];
        return false;
      }
      pred := curr;
      curr := nodes[curr].next;
      k := k + 1;
    }
    ok := nodes[pred].next == TAIL;
  }

  /** On a well-formed set the order check succeeds. */
  lemma SortedListPassesCheck(nodes: seq<Cell<Int32>>, spine: seq<int>)
    requires SortedList(nodes, spine)
    ensures NonDecreasing([nodes[HEAD].val] + Values(nodes, spine))
  {
    var chain := [nodes[HEAD].val] + Values(nodes, spine);
    forall i | 0 < i < |chain| ensures chain[i - 1] <= chain[i] {
      if i > 1 {
        assert chain[i - 1] == Values(nodes, spine)[i - 2];
      }
    }
  }

  /** Splicing a new cell holding an absent value v in after position k,
      where the walk for v stopped, keeps the list sorted and adds exactly v
      to the set. */
  lemma SpliceInPreserves(nodes: seq<Cell<Int32>>, spine: seq<int>, k: int, v: Int32, nodes': seq<Cell<Int32>>)
    requires SortedList(nodes, spine) && 0 <= k <= |spine|
    requires forall i :: 0 <= i < k ==> Values(nodes, spine)[i] < v
    requires k < |spine| ==> v < Values(nodes, spine)[k]
    requires nodes' == (nodes + [Cell(v, Pos(spine, k + 1))])[Pos(spine, k) := Cell(nodes[Pos(spine, k)].val, |nodes|)]
    ensures SortedList(nodes', Inserted(spine, k, |nodes|))
    ensures Elems(Values(nodes', Inserted(spine, k, |nodes|))) == Elems(Values(nodes, spine)) + {v}
  {
    PosInPool(nodes, spine, k);
    LinkAfter(nodes, spine, k, v, nodes');
    InsertAscending(Values(nodes, spine), k, v);
  }

  /** Unlinking the data cell at position k + 1 keeps the list sorted and
      removes exactly its value from the set. */
  lemma SpliceOutPreserves(nodes: seq<Cell<Int32>>, spine: seq<int>, k: int, nodes': seq<Cell<Int32>>)
    requires SortedList(nodes, spine) && 0 <= k < |spine|
    requires nodes' == nodes[Pos(spine, k) := Cell(nodes[Pos(spine, k)].val, nodes[spine[k]].next)]
    ensures SortedList(nodes', Removed(spine, k))
    ensures Elems(Values(nodes', Removed(spine, k))) == Elems(Values(nodes, spine)) - {Values(nodes, spine)[k]}
  {
    PosInPool(nodes, spine, k);
    Unlink(nodes, spine, k, nodes');
    RemoveAscending(Values(nodes, spine), k);
  }
}
