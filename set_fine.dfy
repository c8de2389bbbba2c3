/** The sorted linked-list set with one lock per cell, searched hand over
    hand, with an element counter. A lock is modelled as membership of the
    cell's index in the ghost set `locked` of cells held by the calling
    thread: taking a lock the thread already holds, or releasing one it does
    not hold, is ruled out by the preconditions of Lock and Unlock. Other
    threads are not modelled: every operation is verified as if it ran alone
    from a quiescent list, which is also the condition under which the order
    check may be called. */
module SetFine {
  import opened LinkedCells
  import opened ISet
  import opened SortedSetList

  class SortedLinkedListFineLock {
    var nodes: seq<Cell<Int32>>
    var currentSize: nat
    ghost var spine: seq<int>
    /** Indices of the cells whose locks the calling thread holds. */
    ghost var locked: set<int>

    /** The list is well formed and the counter equals its length. */
    ghost predicate Valid()
      reads this`nodes, this`spine, this`currentSize
    {
      SortedList(nodes, spine) && currentSize == |spine|
    }

    ghost function Contents(): seq<Int32>
      reads this`nodes, this`spine, this`currentSize
      requires Valid()
    {
      Values(nodes, spine)
    }

    ghost function Elements(): set<Int32>
      reads this`nodes, this`spine, this`currentSize
      requires Valid()
    {
      Elems(Contents())
    }

    constructor ()
      ensures Valid() && Contents() == [] && Elements() == {}
      ensures nodes[HEAD].next == TAIL && locked == {}
    {
      nodes := EmptyPool();
      currentSize := 0;
      spine := [];
      locked := {};
      new;
      EmptyElems(nodes);
    }

    /** A cell's mutex is not recursive: the thread must not hold it. */
    ghost method Lock(i: int)
      requires i !in locked
      modifies this`locked
      ensures locked == old(locked) + {i}
    {
      locked := locked + {i};
    }

    ghost method Unlock(i: int)
      requires i in locked
      modifies this`locked
      ensures locked == old(locked) - {i}
    {
      locked := locked - {i};
    }

    /** find_and_lock_hoh: the predecessor walk of the other sets, hand over
        hand: at each step it releases pred's lock, moves pred to curr (whose
        lock it keeps) and then locks the new curr, so the thread never holds
        more than the two locks of pred and curr. It returns with exactly
        those two held. */
    method FindAndLockHoh(v: Int32) returns (pred: int, curr: int, ghost k: int)
      requires Valid() && locked == {}
      modifies this`locked
      ensures 0 <= k <= |spine| && pred == Pos(spine, k) && curr == Pos(spine, k + 1)
      ensures pred != curr && locked == {pred, curr}
      ensures forall i :: 0 <= i < k ==> Contents()[i] < v
      ensures k < |spine| ==> v <= Contents()[k]
    {
      pred := HEAD;
      Lock(pred);
      curr := nodes[pred].next;
      assert nodes[Pos(spine, 0)].next == Pos(spine, 1);
      PosInjective(nodes, spine, 0, 1);
      Lock(curr);
      k := 0;
      while curr != TAIL && nodes[curr].val < v
        invariant 0 <= k <= |spine| && pred == Pos(spine, k) && curr == Pos(spine, k + 1)
        invariant pred != curr && locked == {pred, curr}
        invariant forall i :: 0 <= i < k ==> Contents()[i] < v
        decreases |spine| - k
      {
        Unlock(pred);
        pred := curr;
        // The source also guards against a null successor here; on a
        // linked list the successor of a data cell is never null.
        curr := nodes[curr].next;
        PosInjective(nodes, spine, k + 1, k + 2);
        Lock(curr);
        k := k + 1;
      }
    }

    method Contains(v: Int32) returns (r: bool)
      requires Valid() && locked == {}
      modifies this`locked
      ensures r == (v in Elements())
      ensures locked == {}
    {
      var pred, curr, k := FindAndLockHoh(v);
      PosInPool(nodes, spine, k + 1);
      r := curr != TAIL && nodes[curr].val == v;
      StopPosition(Contents(), k, v);
      Unlock(curr);
      Unlock(pred);
    }

    /** Adds v while holding the locks of the two cells around its sorted
        position, then releases both. */
    method Add(v: Int32) returns (added: bool)
      requires Valid() && locked == {}
      modifies this
      ensures Valid() && AddOutcome(old(Elements()), Elements(), v, added)
      ensures added ==> |Contents()| == |old(Contents())| + 1
      ensures !added ==> nodes == old(nodes) && spine == old(spine) && currentSize == old(currentSize)
      ensures locked == {}
    {
      var pred, curr, k := FindAndLockHoh(v);
      PosInPool(nodes, spine, k + 1);
      StopPosition(Contents(), k, v);
      if curr != TAIL && nodes[curr].val == v {
        added := false;
      } else {
        LinkNew(pred, curr, k, v);
        added := true;
      }
      Unlock(curr);
      Unlock(pred);
    }

    /** The splice of add, done under the locks of pred and curr: a new cell
        holding v that points at curr, then pred redirected to it. */
    method LinkNew(pred: int, curr: int, ghost k: int, v: Int32)
      requires Valid() && 0 <= k <= |spine| && pred == Pos(spine, k) && curr == Pos(spine, k + 1)
      requires forall i :: 0 <= i < k ==> Contents()[i] < v
      requires k < |spine| ==> v < Contents()[k]
      modifies this`nodes, this`spine, this`currentSize
      ensures Valid() && Elements() == old(Elements()) + {v}
      ensures |Contents()| == |old(Contents())| + 1
    {
      assert Contents() == Values(nodes, spine);
      var newCell := |nodes|;
      var pool := (nodes + [Cell(v, curr)])[pred := Cell(nodes[pred].val, newCell)];
      SpliceInPreserves(nodes, spine, k, v, pool);
      nodes := pool;
      spine := Inserted(spine, k, newCell);
      currentSize := currentSize + 1;
    }

    /** Unlinks the cell holding v while holding its lock and its
        predecessor's, then releases both. */
    method Remove(v: Int32) returns (removed: bool)
      requires Valid() && locked == {}
      modifies this
      ensures Valid() && RemoveOutcome(old(Elements()), Elements(), v, removed)
      ensures removed ==> |Contents()| == |old(Contents())| - 1
      ensures !removed ==> nodes == old(nodes) && spine == old(spine) && currentSize == old(currentSize)
      ensures locked == {}
    {
      var pred, curr, k := FindAndLockHoh(v);
      PosInPool(nodes, spine, k + 1);
      StopPosition(Contents(), k, v);
      if curr != TAIL && nodes[curr].val == v {
        UnlinkNext(pred, curr, k);
        removed := true;
      } else {
        removed := false;
      }
      Unlock(curr);
      Unlock(pred);
    }

    /** The splice of remove, done under the locks of pred and curr: pred is
        redirected to curr's successor. */
    method UnlinkNext(pred: int, curr: int, ghost k: int)
      requires Valid() && 0 <= k < |spine| && pred == Pos(spine, k) && curr == Pos(spine, k + 1)
      modifies this`nodes, this`spine, this`currentSize
      ensures Valid() && Elements() == old(Elements()) - {old(Contents())[k]}
      ensures |Contents()| == |old(Contents())| - 1
    {
      var pool := nodes[pred := Cell(nodes[pred].val, nodes[curr].next)];
      SpliceOutPreserves(nodes, spine, k, pool);
      nodes := pool;
      spine := Removed(spine, k);
      currentSize := currentSize - 1;
    }

    /** Reads the counter, which equals the number of elements. */
    method Size() returns (n: nat)
      requires Valid()
      ensures n == |Elements()|
    {
      n := currentSize;
      AscendingCardinality(Contents());
    }

    /** The unlocked order check, for a quiescent list. */
    method CheckInvariants() returns (ok: bool)
      requires Valid() && locked == {}
      ensures ok == NonDecreasing([nodes[HEAD].val] + Contents())
      ensures ok
    {
      ok := CheckSortedChain(nodes, spine);
      SortedListPassesCheck(nodes, spine);
    }
  }

  /** Adding pairwise distinct values to an empty set, one after another
      (one interleaving of the concurrent adders), counting the adds that
      return true: every add succeeds, so the count and the size counter end
      at the number of values, and every value is contained. */
  method AddAllDistinct(s: SortedLinkedListFineLock, values: seq<Int32>) returns (successes: nat)
    requires s.Valid() && s.locked == {} && s.Elements() == {}
    requires forall i, j :: 0 <= i < j < |values| ==> values[i] != values[j]
    modifies s
    ensures s.Valid() && s.locked == {}
    ensures successes == |values| && s.currentSize == |values|
    ensures s.Elements() == Elems(values)
  {
    AscendingCardinality(s.Contents());
    successes := 0;
    var i := 0;
    assert values[..0] == [];
    while i < |values|
      invariant 0 <= i <= |values| && successes == i
      invariant s.Valid() && s.locked == {} && s.currentSize == i
      invariant s.Elements() == Elems(values[..i])
    {
      assert values[i] !in Elems(values[..i]);
      var added := s.Add(values[i]);
      assert values[..i + 1] == values[..i] + [values[i]];
      assert Elems(values[..i + 1]) == Elems(values[..i]) + {values[i]};
      if added {
        successes := successes + 1;
      }
      i := i + 1;
    }
    assert values[..i] == values;
  }
}
