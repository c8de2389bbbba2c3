/** The contract of the priority-queue interface (`IPriorityQueue`), over an
    element type T ordered by a comparator `less` (the `Compare` parameter:
    `less(a, b)` means a has lower priority than b). Highest priority is the
    largest element under `less`; elements of equal priority leave in the
    order in which they arrived. Each element carries the ghost number of the
    push that inserted it (its stamp), so that arrival order can be stated. */
module IPQ {
  import opened Seqs

  /** What the C++ standard library demands of a comparator: irreflexive,
      transitive, and with transitive incomparability (stated here as: not
      below is transitive). */
  ghost predicate StrictWeakOrder<T(!new)>(less: (T, T) -> bool)
  {
    && (forall a :: !less(a, a))
    && (forall a, b, c :: less(a, b) && less(b, c) ==> less(a, c))
    && (forall a, b, c :: !less(a, b) && !less(b, c) ==> !less(a, c))
  }

  /** Ascending under `less`: no later element is below an earlier one. */
  ghost predicate Ordered<T(!new)>(less: (T, T) -> bool, s: seq<T>)
  {
    forall i, j :: 0 <= i < j < |s| ==> !less(s[j], s[i])
  }

  /** Among elements of equal priority, later positions hold earlier pushes
      (smaller stamps), so the tail end holds the oldest. */
  ghost predicate Fifo<T(!new)>(less: (T, T) -> bool, s: seq<T>, stamps: seq<nat>)
    requires |stamps| == |s|
  {
    forall i, j :: 0 <= i < j < |s| && !less(s[i], s[j]) ==> stamps[j] < stamps[i]
  }

  /** x has the highest priority among the elements of s. */
  ghost predicate IsHighest<T(!new)>(less: (T, T) -> bool, x: T, s: seq<T>)
  {
    forall i :: 0 <= i < |s| ==> !less(x, s[i])
  }

  /** The element at position p is the earliest push among those of the
      same priority. */
  ghost predicate IsOldestOfItsPriority<T(!new)>(less: (T, T) -> bool, s: seq<T>, stamps: seq<nat>, p: int)
    requires |stamps| == |s| && 0 <= p < |s|
  {
    forall i :: 0 <= i < |s| && i != p && !less(s[i], s[p]) && !less(s[p], s[i]) ==> stamps[p] < stamps[i]
  }

  /** What check_invariants compares: each element is not below the one
      before it. */
  ghost predicate AdjacentOrdered<T(!new)>(less: (T, T) -> bool, s: seq<T>)
  {
    forall i :: 0 < i < |s| ==> !less(s[i], s[i - 1])
  }

  /** Where push inserts: before the first element that is not below v. */
  function PushPosition<T(!new)>(less: (T, T) -> bool, s: seq<T>, v: T): (k: nat)
    ensures k <= |s|
    ensures forall i :: 0 <= i < k ==> less(s[i], v)
    ensures k < |s| ==> !less(s[k], v)
  {
    if s == [] || !less(s[0], v) then 0 else 1 + PushPosition(less, s[1..], v)
  }

  lemma Asymmetric<T(!new)>(less: (T, T) -> bool, a: T, b: T)
    requires StrictWeakOrder(less) && less(a, b)
    ensures !less(b, a)
  {
  }

  /** Inserting at the push position keeps the sequence ordered. */
  lemma {:induction false} PushKeepsOrder<T(!new)>(less: (T, T) -> bool, s: seq<T>, v: T)
    requires StrictWeakOrder(less) && Ordered(less, s)
    ensures Ordered(less, s[..PushPosition(less, s, v)] + [v] + s[PushPosition(less, s, v)..])
  {
    var k := PushPosition(less, s, v);
    var r := s[..k] + [v] + s[k..];
    forall i, j | 0 <= i < j < |r| ensures !less(r[j], r[i]) {
      if j < k {
        assert r[i] == s[i] && r[j] == s[j];
      } else if j == k {
        assert r[i] == s[i];
        Asymmetric(less, s[i], v);
      } else if i > k {
        assert r[i] == s[i - 1] && r[j] == s[j - 1];
      } else if i == k {
        assert r[j] == s[j - 1];
        if j - 1 > k {
          assert !less(s[j - 1], s[k]);
        }
      } else {
        assert r[i] == s[i] && r[j] == s[j - 1];
      }
    }
  }

  /** Inserting at the push position with a stamp later than every existing
      one keeps equal-priority elements in arrival order. */
  lemma PushKeepsFifo<T(!new)>(less: (T, T) -> bool, s: seq<T>, stamps: seq<nat>, v: T, clock: nat)
    requires |stamps| == |s| && Fifo(less, s, stamps)
    requires forall i :: 0 <= i < |stamps| ==> stamps[i] < clock
    ensures Fifo(less, s[..PushPosition(less, s, v)] + [v] + s[PushPosition(less, s, v)..],
                 stamps[..PushPosition(less, s, v)] + [clock] + stamps[PushPosition(less, s, v)..])
  {
    var k := PushPosition(less, s, v);
    InsertKeepsFifo(less, s, stamps, k, v, clock);
  }

  lemma InsertKeepsFifo<T(!new)>(less: (T, T) -> bool, s: seq<T>, stamps: seq<nat>, k: nat, v: T, clock: nat)
    requires |stamps| == |s| && Fifo(less, s, stamps) && k <= |s|
    requires forall i :: 0 <= i < k ==> less(s[i], v)
    requires forall i :: 0 <= i < |stamps| ==> stamps[i] < clock
    ensures Fifo(less, s[..k] + [v] + s[k..], stamps[..k] + [clock] + stamps[k..])
  {
    var r := s[..k] + [v] + s[k..];
    var t := stamps[..k] + [clock] + stamps[k..];
    assert |r| == |t|;
    forall i, j | 0 <= i < j < |r| && !less(r[i], r[j]) ensures t[j] < t[i] {
      if j < k {
        assert r[i] == s[i] && r[j] == s[j];
        assert t[i] == stamps[i] && t[j] == stamps[j];
      } else if j == k {
      } else if i > k {
        assert r[i] == s[i - 1] && r[j] == s[j - 1];
        assert t[i] == stamps[i - 1] && t[j] == stamps[j - 1];
      } else if i == k {
        assert t[i] == clock && t[j] == stamps[j - 1];
      } else {
        assert r[i] == s[i] && r[j] == s[j - 1];
        assert t[i] == stamps[i] && t[j] == stamps[j - 1];
      }
    }
  }

  /** The last element of an ordered sequence has the highest priority. */
  lemma LastIsHighest<T(!new)>(less: (T, T) -> bool, s: seq<T>)
    requires StrictWeakOrder(less) && Ordered(less, s) && |s| > 0
    ensures IsHighest(less, s[|s| - 1], s)
  {
    forall i | 0 <= i < |s| ensures !less(s[|s| - 1], s[i]) {
      if i < |s| - 1 {
        assert !less(s[|s| - 1], s[i]);
      }
    }
  }

  /** In an ordered sequence kept in arrival order, the last element is the
      earliest push of its priority. */
  lemma LastIsOldest<T(!new)>(less: (T, T) -> bool, s: seq<T>, stamps: seq<nat>)
    requires |stamps| == |s| && |s| > 0 && Fifo(less, s, stamps)
    ensures IsOldestOfItsPriority(less, s, stamps, |s| - 1)
  {
  }

  /** Dropping the last element keeps both orders. */
  lemma DropLastKeepsOrder<T(!new)>(less: (T, T) -> bool, s: seq<T>, stamps: seq<nat>)
    requires |stamps| == |s| && |s| > 0 && Ordered(less, s) && Fifo(less, s, stamps)
    ensures Ordered(less, s[..|s| - 1]) && Fifo(less, s[..|s| - 1], stamps[..|s| - 1])
  {
  }

  /** Ordered sequences pass the data-node part of the order check. */
  lemma OrderedIsAdjacentOrdered<T(!new)>(less: (T, T) -> bool, s: seq<T>)
    requires Ordered(less, s)
    ensures AdjacentOrdered(less, s)
  {
  }

  /** When the head value is not above any element (a true lowest value
      under `less`), the order check that includes the head succeeds. */
  lemma HeadCheckPassesWhenHeadIsLowest<T(!new)>(less: (T, T) -> bool, head: T, s: seq<T>)
    requires Ordered(less, s)
    requires forall i :: 0 <= i < |s| ==> !less(s[i], head)
    ensures AdjacentOrdered(less, [head] + s)
  {
    var c := [head] + s;
    forall i | 0 < i < |c| ensures !less(c[i], c[i - 1]) {
      assert c[i] == s[i - 1];
      if i > 1 {
        assert c[i - 1] == s[i - 2];
      }
    }
  }

  /** Emptying an ordered queue from its tail yields its elements, each
      with the highest priority among those still to come, and elements of
      equal priority in the order in which they were pushed. */
  lemma DrainOrder<T(!new)>(less: (T, T) -> bool, s: seq<T>, stamps: seq<nat>)
    requires |stamps| == |s| && Ordered(less, s) && Fifo(less, s, stamps)
    ensures multiset(Reverse(s)) == multiset(s)
    ensures NonIncreasing(less, Reverse(s))
    ensures FifoOut(less, Reverse(s), Reverse(stamps))
  {
    ReverseMultiset(s);
    ReverseNonIncreasing(less, s);
    ReverseFifo(less, s, stamps);
  }

  /** No element is above an earlier one. */
  ghost predicate NonIncreasing<T(!new)>(less: (T, T) -> bool, s: seq<T>)
  {
    forall i, j :: 0 <= i < j < |s| ==> !less(s[i], s[j])
  }

  /** Elements of equal priority appear in push order. */
  ghost predicate FifoOut<T(!new)>(less: (T, T) -> bool, s: seq<T>, stamps: seq<nat>)
    requires |stamps| == |s|
  {
    forall i, j :: 0 <= i < j < |s| && !less(s[j], s[i]) ==> stamps[i] < stamps[j]
  }

  lemma ReverseNonIncreasing<T(!new)>(less: (T, T) -> bool, s: seq<T>)
    requires Ordered(less, s)
    ensures NonIncreasing(less, Reverse(s))
  {
    var r := Reverse(s);
    forall i, j | 0 <= i < j < |r| ensures !less(r[i], r[j]) {
      assert r[i] == s[|s| - 1 - i] && r[j] == s[|s| - 1 - j];
    }
  }

  lemma ReverseFifo<T(!new)>(less: (T, T) -> bool, s: seq<T>, stamps: seq<nat>)
    requires |stamps| == |s| && Fifo(less, s, stamps)
    ensures FifoOut(less, Reverse(s), Reverse(stamps))
  {
    MirrorFifo(less, s, stamps, Reverse(s), Reverse(stamps));
  }

  /** r and t are s and stamps read back to front. */
  lemma MirrorFifo<T(!new)>(less: (T, T) -> bool, s: seq<T>, stamps: seq<nat>, r: seq<T>, t: seq<nat>)
    requires |stamps| == |s| && |r| == |s| && |t| == |s| && Fifo(less, s, stamps)
    requires forall i :: 0 <= i < |s| ==> r[i] == s[|s| - 1 - i]
    requires forall i :: 0 <= i < |s| ==> t[i] == stamps[|s| - 1 - i]
    ensures FifoOut(less, r, t)
  {
    forall i, j | 0 <= i < j < |r| && !less(r[j], r[i]) ensures t[i] < t[j] {
      var a, b := |s| - 1 - j, |s| - 1 - i;
      FifoAt(less, s, stamps, a, b, r[j], r[i]);
    }
  }

  lemma FifoAt<T(!new)>(less: (T, T) -> bool, s: seq<T>, stamps: seq<nat>, a: int, b: int, x: T, y: T)
    requires |stamps| == |s| && Fifo(less, s, stamps)
    requires 0 <= a < b < |s| && x == s[a] && y == s[b] && !less(x, y)
    ensures stamps[b] < stamps[a]
  {
  }
}
