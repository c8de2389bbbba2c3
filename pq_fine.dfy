/** The priority queue kept as a sorted linked list with one lock per cell.
    The list is ascending under the comparator from the head sentinel
    (holding the type's lowest value) to the tail sentinel (holding its
    maximum), so the highest priority sits just before the tail and pop
    takes it from there. As for the fine-grained set, a lock is membership
    of the cell's index in the ghost set `locked` of cells the calling
    thread holds, and every operation is verified as if it ran alone. */
module PqFine {
  import opened Wrappers
  import opened LinkedCells
  import opened IPQ
  import opened Seqs

  class SortedLinkedListFineLockPQ<T(!new)> {
    /** The `Compare` object: less(a, b) when a has lower priority. */
    const less: (T, T) -> bool
    /** The sentinel values, numeric_limits<T>::lowest() and max(). */
    const lowest: T
    const highest: T
    var nodes: seq<Cell<T>>
    var currentSize: nat
    ghost var spine: seq<int>
    /** The push number of each element, in list order. */
    ghost var stamps: seq<nat>
    /** The number of pushes so far. */
    ghost var clock: nat
    ghost var locked: set<int>

    /** Well formed, ordered, equal priorities in arrival order, and the
        counter equal to the number of data cells. */
    ghost predicate Valid()
      reads this`nodes, this`spine, this`stamps, this`clock, this`currentSize
    {
      QueueInv(less, lowest, highest, nodes, spine, stamps, clock, currentSize)
    }

    /** The queued elements, from lowest to highest priority. */
    ghost function Contents(): seq<T>
      reads this`nodes, this`spine, this`stamps, this`clock, this`currentSize
      requires Valid()
    {
      Values(nodes, spine)
    }

    constructor (less: (T, T) -> bool, lowest: T, highest: T)
      requires StrictWeakOrder(less)
      ensures this.less == less && this.lowest == lowest && this.highest == highest
      ensures Valid() && Contents() == [] && locked == {}
      ensures nodes[HEAD].next == TAIL
    {
      this.less := less;
      this.lowest := lowest;
      this.highest := highest;
      nodes := [Cell(lowest, TAIL), Cell(highest, NIL)];
      currentSize := 0;
      spine := [];
      stamps := [];
      clock := 0;
      locked := {};
    }

    ghost method Lock(i: int)
      requires i !in locked
      modifies this`locked
      ensures locked == old(locked) + {i}
    {
      locked := locked + {i};
    }

    ghost method Unlock(i: int)
      requires i in locked
      modifies this`locked
      ensures locked == old(locked) - {i}
    {
      locked := locked - {i};
    }

    /** find_and_lock_for_push: hand-over-hand walk past every element below
        v; returns with the two cells around v's push position locked. */
    method FindAndLockForPush(v: T) returns (pred: int, curr: int, ghost k: int)
      requires Linked(nodes, spine) && locked == {}
      modifies this`locked
      ensures 0 <= k <= |spine| && pred == Pos(spine, k) && curr == Pos(spine, k + 1)
      ensures k == PushPosition(less, Values(nodes, spine), v)
      ensures pred != curr && locked == {pred, curr}
    {
      ghost var s := Values(nodes, spine);
      pred := HEAD;
      Lock(pred);
      curr := nodes[pred].next;
      assert nodes[Pos(spine, 0)].next == Pos(spine, 1);
      PosInjective(nodes, spine, 0, 1);
      Lock(curr);
      k := 0;
      while curr != TAIL && less(nodes[curr].val, v)
        invariant 0 <= k <= |spine| && pred == Pos(spine, k) && curr == Pos(spine, k + 1)
        invariant pred != curr && locked == {pred, curr}
        invariant forall i :: 0 <= i < k ==> less(s[i], v)
        decreases |spine| - k
      {
        Unlock(pred);
        pred := curr;
        curr := nodes[curr].next;
        PosInjective(nodes, spine, k + 1, k + 2);
        Lock(curr);
        k := k + 1;
      }
      PushPositionUnique(less, s, v, k);
    }

    /** Inserts v before the first element that is not below it, so that v
        leaves after every equal element already queued. */
    method Push(v: T)
      requires Valid() && locked == {}
      modifies this
      ensures Valid() && locked == {}
      ensures Contents() == Inserted(old(Contents()), PushPosition(less, old(Contents()), v), v)
      ensures stamps == Inserted(old(stamps), PushPosition(less, old(Contents()), v), old(clock))
      ensures clock == old(clock) + 1 && currentSize == old(currentSize) + 1
      ensures multiset(Contents()) == multiset(old(Contents())) + multiset{v}
    {
      var pred, curr, k := FindAndLockForPush(v);
      LinkNew(pred, curr, k, v);
      Unlock(curr);
      Unlock(pred);
    }

    /** The splice of push, under the locks of pred and curr. */
    method LinkNew(pred: int, curr: int, ghost k: int, v: T)
      requires Valid() && 0 <= k <= |spine| && pred == Pos(spine, k) && curr == Pos(spine, k + 1)
      requires k == PushPosition(less, Contents(), v)
      modifies this`nodes, this`spine, this`stamps, this`clock, this`currentSize
      ensures Valid()
      ensures Contents() == Inserted(old(Contents()), k, v)
      ensures stamps == Inserted(old(stamps), k, old(clock))
      ensures clock == old(clock) + 1 && currentSize == old(currentSize) + 1
      ensures multiset(Contents()) == multiset(old(Contents())) + multiset{v}
    {
      PosInPool(nodes, spine, k);
      var pool := (nodes + [Cell(v, curr)])[pred := Cell(nodes[pred].val, |nodes|)];
      PushKeepsInv(less, lowest, highest, nodes, spine, stamps, clock, currentSize, k, v, pool);
      spine := Inserted(spine, k, |nodes|);
      nodes := pool;
      stamps := Inserted(stamps, k, clock);
      clock := clock + 1;
      currentSize := currentSize + 1;
    }

    /** Removes the element just before the tail: one of highest priority,
        and the earliest pushed among those. An empty queue gives None and
        is left unchanged. */
    method Pop() returns (r: Option<T>)
      requires Valid() && locked == {}
      modifies this
      ensures Valid() && locked == {}
      ensures old(|Contents()|) == 0 ==>
        r == None && nodes == old(nodes) && spine == old(spine) && stamps == old(stamps)
      ensures old(|Contents()|) > 0 ==>
        && r == Some(old(Contents())[|old(Contents())| - 1])
        && Contents() == old(Contents())[..|old(Contents())| - 1]
        && stamps == old(stamps)[..|old(Contents())| - 1]
        && currentSize == old(currentSize) - 1
        && IsHighest(less, r.value, old(Contents()))
        && IsOldestOfItsPriority(less, old(Contents()), old(stamps), |old(Contents())| - 1)
      ensures clock == old(clock)
    {
      var predPred := HEAD;
      Lock(predPred);
      var toDelete := nodes[HEAD].next;
      assert nodes[Pos(spine, 0)].next == Pos(spine, 1);
      PosInjective(nodes, spine, 0, 1);
      Lock(toDelete);
      if toDelete == TAIL {
        Unlock(toDelete);
        Unlock(predPred);
        return None;
      }
      ghost var k;
      predPred, toDelete, k := WalkToLast(predPred, toDelete);
      var tailLocked := nodes[toDelete].next;
      PosInjective(nodes, spine, k, k + 2);
      PosInjective(nodes, spine, k + 1, k + 2);
      Lock(tailLocked);
      var value := nodes[toDelete].val;
      ghost var s, st := Contents(), stamps;
      LastIsHighest(less, s);
      LastIsOldest(less, s, st);
      UnlinkLast(predPred, k);
      Unlock(tailLocked);
      Unlock(toDelete);
      Unlock(predPred);
      r := Some(value);
    }

    /** The walk of pop: hand-over-hand (three locks held for a moment at
        each step) until the locked pair is the last two cells before the
        tail. */
    method WalkToLast(first: int, second: int) returns (predPred: int, toDelete: int, ghost k: int)
      requires Valid() && |spine| > 0 && first == Pos(spine, 0) && second == Pos(spine, 1)
      requires first != second && locked == {first, second}
      modifies this`locked
      ensures k == |spine| - 1 && predPred == Pos(spine, k) && toDelete == Pos(spine, k + 1)
      ensures predPred != toDelete && locked == {predPred, toDelete}
    {
      assert Linked(nodes, spine);
      predPred, toDelete, k := first, second, 0;
      while nodes[toDelete].next != TAIL
        invariant 0 <= k < |spine| && predPred == Pos(spine, k) && toDelete == Pos(spine, k + 1)
        invariant 2 <= toDelete < |nodes|
        invariant predPred != toDelete && locked == {predPred, toDelete}
        decreases |spine| - k
      {
        var nextNode := nodes[toDelete].next;
        assert nodes[Pos(spine, k + 1)].next == Pos(spine, k + 2);
        PosInjective(nodes, spine, k + 2, k);
        PosInjective(nodes, spine, k + 2, k + 1);
        PosInPool(nodes, spine, k + 2);
        Lock(nextNode);
        Unlock(predPred);
        predPred := toDelete;
        toDelete := nextNode;
        k := k + 1;
      }
      assert nodes[Pos(spine, k + 1)].next == Pos(spine, k + 2);
    }

    /** The splice of pop, under the locks of the last two data cells and
        the tail: the next-to-last cell is redirected to the tail. */
    method UnlinkLast(predPred: int, ghost k: int)
      requires Valid() && k == |spine| - 1 && k >= 0 && predPred == Pos(spine, k)
      modifies this`nodes, this`spine, this`stamps, this`currentSize
      ensures Valid()
      ensures Contents() == old(Contents())[..k] && stamps == old(stamps)[..k]
      ensures currentSize == old(currentSize) - 1
    {
      PosInPool(nodes, spine, k);
      var pool := nodes[predPred := Cell(nodes[predPred].val, TAIL)];
      DropLastKeepsInv(less, lowest, highest, nodes, spine, stamps, clock, currentSize, pool);
      spine := Removed(spine, k);
      nodes := pool;
      stamps := stamps[..k];
      currentSize := currentSize - 1;
    }

    method Empty() returns (e: bool)
      requires Valid()
      ensures e == (|Contents()| == 0)
    {
      e := currentSize == 0;
    }

    method Size() returns (n: nat)
      requires Valid()
      ensures n == |Contents()|
    {
      n := currentSize;
    }

    /** check_invariants as written: the first element is compared with the
        head sentinel too. */
    method CheckInvariantsAsWritten() returns (ok: bool)
      requires Valid()
      ensures ok == AdjacentOrdered(less, [lowest] + Contents())
    {
      ok := OrderCheck(less, nodes, spine, true, currentSize);
    }

    /** check_invariants comparing data cells only; on a valid queue it
        always succeeds, whatever the comparator. */
    method CheckInvariants() returns (ok: bool)
      requires Valid()
      ensures ok == AdjacentOrdered(less, Contents())
      ensures ok
    {
      ok := OrderCheck(less, nodes, spine, false, currentSize);
      OrderedIsAdjacentOrdered(less, Contents());
    }
  }

  /** The queue's invariant on its state values: well linked, sentinels in
      place, ordered, equal priorities in arrival order, every stamp below
      the clock, and the counter equal to the number of data cells. */
  ghost predicate QueueInv<T(!new)>(less: (T, T) -> bool, lowest: T, highest: T, nodes: seq<Cell<T>>,
                                    spine: seq<int>, stamps: seq<nat>, clock: nat, size: nat)
  {
    && StrictWeakOrder(less)
    && Linked(nodes, spine)
    && nodes[HEAD].val == lowest && nodes[TAIL].val == highest
    && |stamps| == |spine| && size == |spine|
    && Ordered(less, Values(nodes, spine))
    && Fifo(less, Values(nodes, spine), stamps)
    && (forall i :: 0 <= i < |stamps| ==> stamps[i] < clock)
  }

  /** Splicing a cell for v in at its push position keeps the invariant and
      inserts v, stamped with the clock, at that position. */
  lemma PushKeepsInv<T(!new)>(less: (T, T) -> bool, lowest: T, highest: T, nodes: seq<Cell<T>>,
                              spine: seq<int>, stamps: seq<nat>, clock: nat, size: nat,
                              k: int, v: T, pool: seq<Cell<T>>)
    requires QueueInv(less, lowest, highest, nodes, spine, stamps, clock, size)
    requires 0 <= k <= |spine| && k == PushPosition(less, Values(nodes, spine), v)
    requires pool == (nodes + [Cell(v, Pos(spine, k + 1))])[Pos(spine, k) := Cell(nodes[Pos(spine, k)].val, |nodes|)]
    ensures QueueInv(less, lowest, highest, pool, Inserted(spine, k, |nodes|), Inserted(stamps, k, clock), clock + 1, size + 1)
    ensures Values(pool, Inserted(spine, k, |nodes|)) == Inserted(Values(nodes, spine), k, v)
    ensures multiset(Inserted(Values(nodes, spine), k, v)) == multiset(Values(nodes, spine)) + multiset{v}
  {
    var s := Values(nodes, spine);
    PushKeepsLinks(nodes, spine, lowest, highest, k, v, pool);
    PushKeepsOrderFifo(less, s, stamps, clock, k, v);
    InsertedMultiset(s, k, v);
  }

  lemma InsertedMultiset<X>(s: seq<X>, k: int, x: X)
    requires 0 <= k <= |s|
    ensures multiset(Inserted(s, k, x)) == multiset(s) + multiset{x}
  {
    assert s == s[..k] + s[k..];
  }

  /** The pointer half of the push splice. */
  lemma PushKeepsLinks<T>(nodes: seq<Cell<T>>, spine: seq<int>, lowest: T, highest: T, k: int, v: T, pool: seq<Cell<T>>)
    requires Linked(nodes, spine) && nodes[HEAD].val == lowest && nodes[TAIL].val == highest
    requires 0 <= k <= |spine|
    requires pool == (nodes + [Cell(v, Pos(spine, k + 1))])[Pos(spine, k) := Cell(nodes[Pos(spine, k)].val, |nodes|)]
    ensures Linked(pool, Inserted(spine, k, |nodes|))
    ensures pool[HEAD].val == lowest && pool[TAIL].val == highest
    ensures Values(pool, Inserted(spine, k, |nodes|)) == Inserted(Values(nodes, spine), k, v)
  {
    LinkAfter(nodes, spine, k, v, pool);
    PosInjective(nodes, spine, k, |spine| + 1);
  }

  /** The value half: order, arrival order and the clock bound. */
  lemma PushKeepsOrderFifo<T(!new)>(less: (T, T) -> bool, s: seq<T>, stamps: seq<nat>, clock: nat, k: int, v: T)
    requires StrictWeakOrder(less) && Ordered(less, s)
    requires |stamps| == |s| && Fifo(less, s, stamps)
    requires forall i :: 0 <= i < |stamps| ==> stamps[i] < clock
    requires k == PushPosition(less, s, v)
    ensures Ordered(less, Inserted(s, k, v))
    ensures Fifo(less, Inserted(s, k, v), Inserted(stamps, k, clock))
    ensures forall i :: 0 <= i < |stamps| + 1 ==> Inserted(stamps, k, clock)[i] < clock + 1
  {
    PushKeepsOrder(less, s, v);
    PushKeepsFifo(less, s, stamps, v, clock);
    StampsBelow(stamps, k, clock);
  }

  lemma StampsBelow(stamps: seq<nat>, k: int, clock: nat)
    requires 0 <= k <= |stamps| && forall i :: 0 <= i < |stamps| ==> stamps[i] < clock
    ensures forall i :: 0 <= i < |stamps| + 1 ==> Inserted(stamps, k, clock)[i] < clock + 1
  {
  }

  /** Redirecting the next-to-last cell to the tail keeps the invariant and
      drops the last element and its stamp. */
  lemma DropLastKeepsInv<T(!new)>(less: (T, T) -> bool, lowest: T, highest: T, nodes: seq<Cell<T>>,
                                  spine: seq<int>, stamps: seq<nat>, clock: nat, size: nat, pool: seq<Cell<T>>)
    requires QueueInv(less, lowest, highest, nodes, spine, stamps, clock, size) && |spine| > 0
    requires pool == nodes[Pos(spine, |spine| - 1) := Cell(nodes[Pos(spine, |spine| - 1)].val, TAIL)]
    ensures QueueInv(less, lowest, highest, pool, Removed(spine, |spine| - 1), stamps[..|spine| - 1], clock, size - 1)
    ensures Values(pool, Removed(spine, |spine| - 1)) == Values(nodes, spine)[..|spine| - 1]
  {
    var k := |spine| - 1;
    var s := Values(nodes, spine);
    PosInPool(nodes, spine, k);
    assert nodes[Pos(spine, k + 1)].next == Pos(spine, k + 2) == TAIL;
    Unlink(nodes, spine, k, pool);
    DropLastKeepsOrder(less, s, stamps);
    PosInjective(nodes, spine, k, |spine| + 1);
  }

  /** The order check of check_invariants, walking a quiescent queue
      without locks: each data cell is compared with its predecessor and the
      cells are counted against the counter `size`. With includeHead the
      first data cell is compared with the head sentinel too, as the source
      does. A failing assertion of the source is modelled as the result
      false. */
  method OrderCheck<T(!new)>(less: (T, T) -> bool, nodes: seq<Cell<T>>, ghost spine: seq<int>,
                             includeHead: bool, size: int) returns (ok: bool)
    requires Linked(nodes, spine)
    ensures ok == (AdjacentOrdered(less, if includeHead then [nodes[HEAD].val] + Values(nodes, spine)
                                         else Values(nodes, spine))
                   && size == |spine|)
  {
    ghost var c := [nodes[HEAD].val] + Values(nodes, spine);
    assert forall i :: 0 <= i <= |spine| ==> c[i] == nodes[Pos(spine, i)].val;
    var pred := HEAD;
    var curr := nodes[HEAD].next;
    assert nodes[Pos(spine, 0)].next == Pos(spine, 1);
    var count := 0;
    while curr != TAIL
      invariant 0 <= count <= |spine| && pred == Pos(spine, count) && curr == Pos(spine, count + 1)
      invariant forall i :: (if includeHead then 0 else 1) < i <= count ==> !less(c[i], c[i - 1])
      decreases |spine| - count
    {
      if (includeHead || pred != HEAD) && less(nodes[curr].val, nodes[pred].val) {
        assert less(c[count + 1], c[count]);
        if !includeHead {
          PosInjective(nodes, spine, 0, count);
          assert Values(nodes, spine)[count] == c[count + 1] && Values(nodes, spine)[count - 1] == c[count];
        }
        return false;
      }
      pred := curr;
      curr := nodes[curr].next;
      count := count + 1;
    }
    // The last cell is linked to the tail here, so of the source's two
    // final assertions only the count can fail.
    ok := count == size;
    if !includeHead {
      ghost var d := Values(nodes, spine);
      forall i | 0 < i < |d| ensures !less(d[i], d[i - 1]) {
        assert d[i] == c[i + 1] && d[i - 1] == c[i];
      }
    }
  }

  /** The walk stops at the push position: the first element not below v. */
  lemma PushPositionUnique<T(!new)>(less: (T, T) -> bool, s: seq<T>, v: T, k: int)
    requires 0 <= k <= |s|
    requires forall i :: 0 <= i < k ==> less(s[i], v)
    requires k < |s| ==> !less(s[k], v)
    ensures k == PushPosition(less, s, v)
  {
  }

  /** Pops until the queue reports empty, as the draining loops of the
      queue's tests do: the elements come out in reverse list order, so with
      non-increasing priority, equal priorities in push order, and exactly
      the queued multiset. */
  method Drain<T(!new)>(q: SortedLinkedListFineLockPQ<T>) returns (out: seq<T>, ghost outStamps: seq<nat>)
    requires q.Valid() && q.locked == {}
    modifies q
    ensures q.Valid() && q.locked == {} && q.Contents() == []
    ensures out == Reverse(old(q.Contents())) && outStamps == Reverse(old(q.stamps))
    ensures multiset(out) == multiset(old(q.Contents()))
    ensures NonIncreasing(q.less, out) && FifoOut(q.less, out, outStamps)
  {
    ghost var s0, st0 := q.Contents(), q.stamps;
    out, outStamps := [], [];
    while true
      invariant q.Valid() && q.locked == {}
      invariant |q.Contents()| <= |s0| && |out| == |s0| - |q.Contents()| == |outStamps|
      invariant q.Contents() == s0[..|q.Contents()|] && q.stamps == st0[..|q.Contents()|]
      invariant forall i :: 0 <= i < |out| ==> out[i] == s0[|s0| - 1 - i] && outStamps[i] == st0[|s0| - 1 - i]
      decreases q.currentSize
    {
      ghost var m := |q.Contents()|;
      var r := q.Pop();
      if r.None? {
        break;
      }
      out := out + [r.value];
      outStamps := outStamps + [st0[m - 1]];
    }
    assert out == Reverse(s0) && outStamps == Reverse(st0);
    DrainOrder(q.less, s0, st0);
  }
}

/** The queue of A* (astar.cpp) instantiated as in the source's min-heap use:
    `std::greater` as the comparator, so numeric_limits::lowest() in the head
    sentinel is the greatest element under the comparator, not the least. */
module PqFineGreater {
  import opened IPQ
  import opened PqFine

  const INT_LOWEST: int := -0x8000_0000
  const INT_MAX: int := 0x7fff_ffff

  function Greater(a: int, b: int): bool { a > b }

  lemma GreaterIsStrictWeakOrder()
    ensures StrictWeakOrder(Greater)
  {
  }

  /** The as-written order check rejects every queue whose first data cell is
      above the head value: under `std::greater` that is every non-empty
      queue of values other than lowest(). */
  lemma AsWrittenCheckRejectsGreater(lowest: int, s: seq<int>)
    requires |s| > 0 && s[0] > lowest
    ensures !AdjacentOrdered(Greater, [lowest] + s)
  {
    var c := [lowest] + s;
    assert c[1] == s[0] && c[0] == lowest;
    assert Greater(c[1], c[1 - 1]);
  }

  /** A fresh min-heap queue after push(0): the as-written check fails (in
      the source, its assertion aborts), the corrected one succeeds. */
  method PushZeroThenCheck() returns (asWritten: bool, corrected: bool)
    ensures !asWritten && corrected
  {
    GreaterIsStrictWeakOrder();
    var q := new SortedLinkedListFineLockPQ<int>(Greater, INT_LOWEST, INT_MAX);
    q.Push(0);
    assert q.Contents() == [0];
    AsWrittenCheckRejectsGreater(INT_LOWEST, q.Contents());
    asWritten := q.CheckInvariantsAsWritten();
    assert q.lowest == INT_LOWEST && q.less == Greater;
    assert !asWritten;
    corrected := q.CheckInvariants();
  }
}
