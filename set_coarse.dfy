/** The sorted linked-list set guarded by one reader-writer lock for the whole
    list, with an element counter. A call holds the lock for its whole
    duration, so each operation is atomic and is modelled as one step; the
    lock itself is not modelled. */
module SetCoarse {
  import opened LinkedCells
  import opened ISet
  import opened SortedSetList

  class SortedLinkedListCoarseLock {
    var nodes: seq<Cell<Int32>>
    var currentSize: nat
    ghost var spine: seq<int>

    /** The list is well formed and the counter equals its length. */
    ghost predicate Valid()
      reads this
    {
      SortedList(nodes, spine) && currentSize == |spine|
    }

    /** The values of the data cells, in list order. */
    ghost function Contents(): seq<Int32>
      reads this
      requires Valid()
    {
      Values(nodes, spine)
    }

    /** The abstract set. */
    ghost function Elements(): set<Int32>
      reads this
      requires Valid()
    {
      Elems(Contents())
    }

    /** A fresh set: head sentinel pointing at the tail sentinel. */
    constructor ()
      ensures Valid() && Contents() == [] && Elements() == {}
      ensures nodes[HEAD].next == TAIL
    {
      nodes := EmptyPool();
      currentSize := 0;
      spine := [];
      new;
      EmptyElems(nodes);
    }

    method Contains(v: Int32) returns (r: bool)
      requires Valid()
      ensures r == (v in Elements())
    {
      var pred, k := FindPredecessor(nodes, spine, v);
      PosInPool(nodes, spine, k + 1);
      var curr := nodes[pred].next;
      r := curr != TAIL && nodes[curr].val == v;
      StopPosition(Contents(), k, v);
    }

    /** Adds v at its sorted position; an existing value leaves the list
        untouched. */
    method Add(v: Int32) returns (added: bool)
      requires Valid()
      modifies this
      ensures Valid() && AddOutcome(old(Elements()), Elements(), v, added)
      ensures added ==> |Contents()| == |old(Contents())| + 1
      ensures !added ==> nodes == old(nodes) && spine == old(spine) && currentSize == old(currentSize)
    {
      var pred, k := FindPredecessor(nodes, spine, v);
      PosInPool(nodes, spine, k + 1);
      var curr := nodes[pred].next;
      StopPosition(Contents(), k, v);
      if curr != TAIL && nodes[curr].val == v {
        return false;
      }
      var newCell := |nodes|;
      var pool := (nodes + [Cell(v, curr)])[pred := Cell(nodes[pred].val, newCell)];
      SpliceInPreserves(nodes, spine, k, v, pool);
      nodes := pool;
      spine := Inserted(spine, k, newCell);
      currentSize := currentSize + 1;
      added := true;
    }

    /** Unlinks the cell holding v, if there is one. */
    method Remove(v: Int32) returns (removed: bool)
      requires Valid()
      modifies this
      ensures Valid() && RemoveOutcome(old(Elements()), Elements(), v, removed)
      ensures removed ==> |Contents()| == |old(Contents())| - 1
      ensures !removed ==> nodes == old(nodes) && spine == old(spine) && currentSize == old(currentSize)
    {
      var pred, k := FindPredecessor(nodes, spine, v);
      PosInPool(nodes, spine, k + 1);
      var curr := nodes[pred].next;
      StopPosition(Contents(), k, v);
      if curr != TAIL && nodes[curr].val == v {
        var pool := nodes[pred := Cell(nodes[pred].val, nodes[curr].next)];
        SpliceOutPreserves(nodes, spine, k, pool);
        nodes := pool;
        spine := Removed(spine, k);
        currentSize := currentSize - 1;
        return true;
      }
      return false;
    }

    /** Reads the counter, which equals the number of elements. */
    method Size() returns (n: nat)
      requires Valid()
      ensures n == |Elements()|
    {
      n := currentSize;
      AscendingCardinality(Contents());
    }

    /** The order check; on a valid set it always succeeds. */
    method CheckInvariants() returns (ok: bool)
      requires Valid()
      ensures ok == NonDecreasing([nodes[HEAD].val] + Contents())
      ensures ok
    {
      ok := CheckSortedChain(nodes, spine);
      SortedListPassesCheck(nodes, spine);
    }
  }
}
