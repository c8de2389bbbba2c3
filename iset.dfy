/** The contract every set implementation promises (the `ISet` interface):
    a finite set of 32-bit integers, stated on the abstract set before and
    after each operation. The element type is `int`, the type the set
    implementations are instantiated with; LOWEST and HIGHEST are the values
    that `std::numeric_limits<int>` supplies for the two sentinels. */
module ISet {

  newtype Int32 = x: int | -0x8000_0000 <= x < 0x8000_0000

  const LOWEST: Int32 := -0x8000_0000
  const HIGHEST: Int32 := 0x7fff_ffff

  ghost function Elems(s: seq<Int32>): set<Int32>
  {
    set x | x in s
  }

  /** `add`: true exactly when the value was absent; afterwards it is present
      and nothing else changed. */
  ghost predicate AddOutcome(before: set<Int32>, after: set<Int32>, v: Int32, added: bool)
  {
    added == (v !in before) && after == before + {v}
  }

  /** `remove`: true exactly when the value was present; afterwards it is
      absent and nothing else changed. */
  ghost predicate RemoveOutcome(before: set<Int32>, after: set<Int32>, v: Int32, removed: bool)
  {
    removed == (v in before) && after == before - {v}
  }

  ghost predicate StrictlyAscending(s: seq<Int32>)
  {
    forall i, j :: 0 <= i < j < |s| ==> s[i] < s[j]
  }

  /** What `check_invariants` compares: each value is at least its
      predecessor's (the first one is compared with the head sentinel's). */
  ghost predicate NonDecreasing(s: seq<Int32>)
  {
    forall i :: 0 < i < |s| ==> s[i - 1] <= s[i]
  }

  /** A strictly ascending sequence holds each element once, so its length
      is the cardinality of its set of elements. */
  lemma {:induction false} AscendingCardinality(s: seq<Int32>)
    requires StrictlyAscending(s)
    ensures |Elems(s)| == |s|
  {
    if s != [] {
      AscendingCardinality(s[1..]);
      assert Elems(s) == {s[0]} + Elems(s[1..]) by {
        forall x | x in Elems(s) ensures x == s[0] || x in Elems(s[1..]) {
          var i :| 0 <= i < |s| && s[i] == x;
          if i > 0 { assert s[1..][i - 1] == x; }
        }
      }
      assert s[0] !in Elems(s[1..]) by {
        forall i | 0 <= i < |s[1..]| ensures s[1..][i] != s[0] {
          assert s[1..][i] == s[i + 1];
        }
      }
    }
  }

  /** The position where the sorted walk stops decides membership: the value
      is present exactly when the element there equals it. */
  lemma StopPosition(s: seq<Int32>, k: int, v: Int32)
    requires StrictlyAscending(s) && 0 <= k <= |s|
    requires forall i :: 0 <= i < k ==> s[i] < v
    requires k < |s| ==> v <= s[k]
    ensures (v in Elems(s)) <==> (k < |s| && s[k] == v)
  {
  }

  /** Inserting at the stop position of an absent value keeps the sequence
      strictly ascending and adds exactly that value. */
  lemma InsertAscending(s: seq<Int32>, k: int, v: Int32)
    requires StrictlyAscending(s) && 0 <= k <= |s|
    requires forall i :: 0 <= i < k ==> s[i] < v
    requires k < |s| ==> v < s[k]
    ensures StrictlyAscending(s[..k] + [v] + s[k..])
    ensures Elems(s[..k] + [v] + s[k..]) == Elems(s) + {v}
  {
    InsertOrderedAt(s, k, v);
    InsertElems(s, k, v);
  }

  lemma InsertOrderedAt(s: seq<Int32>, k: int, v: Int32)
    requires StrictlyAscending(s) && 0 <= k <= |s|
    requires forall i :: 0 <= i < k ==> s[i] < v
    requires k < |s| ==> v < s[k]
    ensures StrictlyAscending(s[..k] + [v] + s[k..])
  {
    var r := s[..k] + [v] + s[k..];
    forall i, j | 0 <= i < j < |r| ensures r[i] < r[j] {
      if j < k {
        assert r[i] == s[i] && r[j] == s[j];
      } else if j == k {
        assert r[i] == s[i];
      } else if i > k {
        assert r[i] == s[i - 1] && r[j] == s[j - 1];
      } else if i == k {
        assert r[j] == s[j - 1];
        assert v < s[k] <= s[j - 1];
      } else {
        assert r[i] == s[i] && r[j] == s[j - 1];
        assert s[i] < v < s[k] <= s[j - 1];
      }
    }
  }

  lemma InsertElems(s: seq<Int32>, k: int, v: Int32)
    requires 0 <= k <= |s|
    ensures Elems(s[..k] + [v] + s[k..]) == Elems(s) + {v}
  {
    var r := s[..k] + [v] + s[k..];
    assert forall i :: 0 <= i < k ==> r[i] == s[i];
    assert forall i :: k < i < |r| ==> r[i] == s[i - 1];
    forall x ensures x in Elems(r) <==> x in Elems(s) + {v} {
      if x in Elems(s) {
        var i :| 0 <= i < |s| && s[i] == x;
        if i < k { assert r[i] == x; } else { assert r[i + 1] == x; }
      }
      if x in Elems(r) {
        var i :| 0 <= i < |r| && r[i] == x;
        if i < k { assert s[i] == x; } else if i > k { assert s[i - 1] == x; }
      }
    }
  }

  /** Removing the element at k from a strictly ascending sequence keeps it
      strictly ascending and removes exactly that value. */
  lemma RemoveAscending(s: seq<Int32>, k: int)
    requires StrictlyAscending(s) && 0 <= k < |s|
    ensures StrictlyAscending(s[..k] + s[k + 1..])
    ensures Elems(s[..k] + s[k + 1..]) == Elems(s) - {s[k]}
  {
    var r := s[..k] + s[k + 1..];
    assert forall i :: 0 <= i < k ==> r[i] == s[i];
    assert forall i :: k <= i < |r| ==> r[i] == s[i + 1];
    forall x ensures x in Elems(r) <==> x in Elems(s) - {s[k]} {
      if x in Elems(s) - {s[k]} {
        var i :| 0 <= i < |s| && s[i] == x;
        if i < k { assert r[i] == x; } else { assert i > k && r[i - 1] == x; }
      }
      if x in Elems(r) {
        var i :| 0 <= i < |r| && r[i] == x;
        var i0 := if i < k then i else i + 1;
        assert s[i0] == x && i0 != k;
      }
    }
  }
}
