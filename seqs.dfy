/** Sequence reversal, as std::reverse leaves a vector and as a queue emptied
    from its tail yields its contents; and picking a member of a set. */
module Seqs {
  function Reverse<X>(s: seq<X>): (r: seq<X>)
    ensures |r| == |s|
    ensures forall i :: 0 <= i < |s| ==> r[i] == s[|s| - 1 - i]
  {
    if s == [] then [] else Reverse(s[1..]) + [s[0]]
  }

  lemma {:induction false} ReverseMultiset<X>(s: seq<X>)
    ensures multiset(Reverse(s)) == multiset(s)
  {
    if s != [] {
      ReverseMultiset(s[1..]);
      assert s == [s[0]] + s[1..];
    }
  }

  /** A set is empty or has a member (what `var x :| x in s` needs). */
  lemma SetHasMember(s: set<int>)
    ensures s == {} || exists x :: x in s
  {
    if !(exists x :: x in s) {
      assert forall x :: x !in s;
      assert s == {};
    }
  }
}
