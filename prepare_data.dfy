/** The test driver's conversion of a NetworkX graph into the two
    dictionaries the road network is built from (testAStar.py), and its
    decision whether the C++ and NetworkX searches agree.

    The graph is given as its node records and its edge records in
    iteration order; an absent coordinate attribute, or a weight attribute
    that is absent or None, is None here.
    Weights are reals; the counts of skipped records only feed warnings and
    are not modelled. */
module PrepareData {
  import opened Wrappers
  import opened Seqs

  /** A node with its optional `y` (latitude) and `x` (longitude). */
  datatype NodeData = NodeData(id: int, y: Option<real>, x: Option<real>)

  /** An edge u -> v with its optional weight attribute. */
  datatype EdgeData = EdgeData(u: int, v: int, weight: Option<real>)

  /** One adjacency list: (target, weight) pairs. */
  type Adjacency = seq<(int, real)>

  predicate HasCoords(n: NodeData)
  {
    n.y.Some? && n.x.Some?
  }

  /** e is an edge u -> v that carries a weight. */
  predicate Weighted(e: EdgeData, u: int, v: int)
  {
    e.u == u && e.v == v && e.weight.Some?
  }

  function Targets(l: Adjacency): (t: seq<int>)
    ensures |t| == |l| && forall i :: 0 <= i < |l| ==> t[i] == l[i].0
  {
    seq(|l|, i requires 0 <= i < |l| => l[i].0)
  }

  predicate Distinct(s: seq<int>)
  {
    forall i, j :: 0 <= i < j < |s| ==> s[i] != s[j]
  }

  // ---------------------------------------------------------------------
  // Coordinates

  /** nodes_dict after visiting the nodes in order: each node with both
      coordinates written as (y, x). */
  function Coords(nodes: seq<NodeData>): map<int, (real, real)>
  {
    if |nodes| == 0 then map[]
    else
      var n := nodes[|nodes| - 1];
      var m := Coords(nodes[..|nodes| - 1]);
      if HasCoords(n) then m[n.id := (n.y.value, n.x.value)] else m
  }

  /** nodes_dict holds exactly the ids of the nodes that have both
      coordinates. */
  lemma {:induction false} CoordsKeys(nodes: seq<NodeData>, k: int)
    ensures k in Coords(nodes) <==> exists i :: 0 <= i < |nodes| && nodes[i].id == k && HasCoords(nodes[i])
  {
    if |nodes| > 0 {
      var p := nodes[..|nodes| - 1];
      CoordsKeys(p, k);
      if k in Coords(p) {
        var i :| 0 <= i < |p| && p[i].id == k && HasCoords(p[i]);
        assert nodes[i] == p[i];
      }
      if exists i :: 0 <= i < |nodes| && nodes[i].id == k && HasCoords(nodes[i]) {
        var i :| 0 <= i < |nodes| && nodes[i].id == k && HasCoords(nodes[i]);
        if i < |p| {
          assert p[i] == nodes[i];
        }
      }
    }
  }

  /** With distinct node ids (a NetworkX graph's nodes are dictionary
      keys), each node with coordinates is mapped to its own (y, x). */
  lemma {:induction false} CoordsValue(nodes: seq<NodeData>, i: int)
    requires forall a, b :: 0 <= a < b < |nodes| ==> nodes[a].id != nodes[b].id
    requires 0 <= i < |nodes| && HasCoords(nodes[i])
    ensures nodes[i].id in Coords(nodes)
    ensures Coords(nodes)[nodes[i].id] == (nodes[i].y.value, nodes[i].x.value)
  {
    var p := nodes[..|nodes| - 1];
    if i < |nodes| - 1 {
      assert p[i] == nodes[i];
      CoordsValue(p, i);
    }
  }

  // ---------------------------------------------------------------------
  // Parallel-edge collapse

  /** Adding (v, w) to an adjacency list: the first entry for v is replaced
      when w is lower and kept otherwise; with no entry for v, (v, w) is
      appended. */
  function Merge(l: Adjacency, v: int, w: real): Adjacency
  {
    if |l| == 0 then [(v, w)]
    else if l[0].0 == v then (if w < l[0].1 then [(v, w)] + l[1..] else l)
    else [l[0]] + Merge(l[1..], v, w)
  }

  /** Merge on the suffix l[i..], unfolded once. */
  lemma MergeSuffix(l: Adjacency, i: int, v: int, w: real)
    requires 0 <= i < |l|
    ensures Merge(l[i..], v, w)
         == if l[i].0 != v then [l[i]] + Merge(l[i + 1..], v, w)
            else if w < l[i].1 then [(v, w)] + l[i + 1..]
            else l[i..]
  {
    assert l[i..][0] == l[i] && l[i..][1..] == l[i + 1..];
  }

  /** Merging keeps the targets and their order, appending v when it is
      new. */
  lemma {:induction false} MergeTargets(l: Adjacency, v: int, w: real)
    ensures Targets(Merge(l, v, w)) == (if v in Targets(l) then Targets(l) else Targets(l) + [v])
  {
    if |l| > 0 && l[0].0 != v {
      var r, r' := Merge(l, v, w), Merge(l[1..], v, w);
      MergeTargets(l[1..], v, w);
      assert r == [l[0]] + r';
      assert Targets(l) == [l[0].0] + Targets(l[1..]);
      assert Targets(r) == [l[0].0] + Targets(r');
    }
  }

  /** Merging leaves every entry for another target where it was. */
  lemma {:induction false} MergeOthers(l: Adjacency, v: int, w: real)
    ensures |Merge(l, v, w)| >= |l|
    ensures forall i :: 0 <= i < |l| && l[i].0 != v ==> Merge(l, v, w)[i] == l[i]
  {
    MergeTargets(l, v, w);
    if |l| > 0 && l[0].0 != v {
      var r, r' := Merge(l, v, w), Merge(l[1..], v, w);
      MergeOthers(l[1..], v, w);
      assert r == [l[0]] + r';
      forall i | 1 <= i < |l| && l[i].0 != v
        ensures r[i] == l[i]
      {
        assert l[1..][i - 1] == l[i];
      }
    }
  }

  /** Merging appends (v, w) when v has no entry. */
  lemma {:induction false} MergeAppends(l: Adjacency, v: int, w: real)
    ensures v !in Targets(l) ==> Merge(l, v, w) == l + [(v, w)]
  {
    if |l| > 0 && l[0].0 != v {
      MergeAppends(l[1..], v, w);
      if v in Targets(l[1..]) {
        var k :| 0 <= k < |l| - 1 && Targets(l[1..])[k] == v;
        assert Targets(l)[k + 1] == v;
      }
      assert l == [l[0]] + l[1..];
    }
  }

  /** Where l has one entry for v, merging leaves the smaller weight there. */
  lemma {:induction false} MergeWeight(l: Adjacency, v: int, w: real, i: int)
    requires Distinct(Targets(l)) && 0 <= i < |l| && l[i].0 == v
    ensures |Merge(l, v, w)| == |l| && Merge(l, v, w)[i] == (v, if w < l[i].1 then w else l[i].1)
  {
    MergeTargets(l, v, w);
    if l[0].0 != v {
      assert Targets(l[1..]) == Targets(l)[1..];
      MergeWeight(l[1..], v, w, i - 1);
    } else {
      assert Targets(l)[0] == v && Targets(l)[i] == v;
      assert i == 0;
    }
  }

  /** graph_dict after one edge: an edge without a weight is skipped;
      otherwise u gets a list (empty if new) into which (v, w) is merged. */
  function AddEdge(gd: map<int, Adjacency>, e: EdgeData): map<int, Adjacency>
  {
    if e.weight.None? then gd
    else
      var l := if e.u in gd then gd[e.u] else [];
      gd[e.u := Merge(l, e.v, e.weight.value)]
  }

  /** graph_dict after the edge loop. */
  function Collapse(edges: seq<EdgeData>): map<int, Adjacency>
  {
    if |edges| == 0 then map[] else AddEdge(Collapse(edges[..|edges| - 1]), edges[|edges| - 1])
  }

  /** The targets of u's weighted edges, in edge order, with repeats. */
  function WeightedTargets(edges: seq<EdgeData>, u: int): seq<int>
  {
    if |edges| == 0 then []
    else
      var e := edges[|edges| - 1];
      var p := WeightedTargets(edges[..|edges| - 1], u);
      if e.u == u && e.weight.Some? then p + [e.v] else p
  }

  /** s without repeats, each element where it first appears. */
  function Dedup(s: seq<int>): seq<int>
  {
    if |s| == 0 then []
    else
      var d := Dedup(s[..|s| - 1]);
      if s[|s| - 1] in d then d else d + [s[|s| - 1]]
  }

  lemma {:induction false} DedupSpec(s: seq<int>)
    ensures Distinct(Dedup(s))
    ensures forall x :: x in Dedup(s) <==> x in s
  {
    if |s| > 0 {
      var p := s[..|s| - 1];
      DedupSpec(p);
      assert s == p + [s[|s| - 1]];
    }
  }

  lemma {:induction false} WeightedTargetsSpec(edges: seq<EdgeData>, u: int, v: int)
    ensures v in WeightedTargets(edges, u) <==> exists j :: 0 <= j < |edges| && Weighted(edges[j], u, v)
  {
    if |edges| > 0 {
      var p := edges[..|edges| - 1];
      WeightedTargetsSpec(p, u, v);
      if exists j :: 0 <= j < |p| && Weighted(p[j], u, v) {
        var j :| 0 <= j < |p| && Weighted(p[j], u, v);
        assert edges[j] == p[j];
      }
      if exists j :: 0 <= j < |edges| && Weighted(edges[j], u, v) {
        var j :| 0 <= j < |edges| && Weighted(edges[j], u, v);
        if j < |p| {
          assert p[j] == edges[j];
        }
      }
    }
  }

  /** u has a list exactly when it is the source of a weighted edge, and
      the list's targets are those of u's weighted edges, once each, in
      order of first appearance. */
  lemma {:induction false} CollapseTargets(edges: seq<EdgeData>, u: int)
    ensures u in Collapse(edges) ==> Targets(Collapse(edges)[u]) == Dedup(WeightedTargets(edges, u))
    ensures u !in Collapse(edges) ==> WeightedTargets(edges, u) == []
    ensures u in Collapse(edges) <==> exists j :: 0 <= j < |edges| && edges[j].u == u && edges[j].weight.Some?
  {
    if |edges| > 0 {
      var p := edges[..|edges| - 1];
      var e := edges[|edges| - 1];
      CollapseTargets(p, u);
      if e.u == u && e.weight.Some? {
        var l := if u in Collapse(p) then Collapse(p)[u] else [];
        MergeTargets(l, e.v, e.weight.value);
        var wt := WeightedTargets(p, u) + [e.v];
        assert wt[..|wt| - 1] == WeightedTargets(p, u);
      }
      if exists j :: 0 <= j < |p| && p[j].u == u && p[j].weight.Some? {
        var j :| 0 <= j < |p| && p[j].u == u && p[j].weight.Some?;
        assert edges[j] == p[j];
      }
      if exists j :: 0 <= j < |edges| && edges[j].u == u && edges[j].weight.Some? {
        var j :| 0 <= j < |edges| && edges[j].u == u && edges[j].weight.Some?;
        if j < |p| {
          assert p[j] == edges[j];
        }
      }
    }
  }

  /** At most one entry per target. */
  lemma CollapseDistinct(edges: seq<EdgeData>, u: int)
    requires u in Collapse(edges)
    ensures Distinct(Targets(Collapse(edges)[u]))
  {
    CollapseTargets(edges, u);
    DedupSpec(WeightedTargets(edges, u));
  }

  /** (v, w) carries the least weight of the weighted u -> v edges. */
  ghost predicate LeastWeight(edges: seq<EdgeData>, u: int, v: int, w: real)
  {
    && (exists j :: 0 <= j < |edges| && Weighted(edges[j], u, v) && edges[j].weight.value == w)
    && (forall j :: 0 <= j < |edges| && Weighted(edges[j], u, v) ==> w <= edges[j].weight.value)
  }

  /** Adding a later edge: the weight recorded for a target the new edge
      does not hit stays the least one. */
  lemma LeastWeightOther(edges: seq<EdgeData>, u: int, v: int, w: real)
    requires |edges| > 0 && !Weighted(edges[|edges| - 1], u, v)
    requires LeastWeight(edges[..|edges| - 1], u, v, w)
    ensures LeastWeight(edges, u, v, w)
  {
    var p := edges[..|edges| - 1];
    var j :| 0 <= j < |p| && Weighted(p[j], u, v) && p[j].weight.value == w;
    assert edges[j] == p[j];
    forall k | 0 <= k < |edges| && Weighted(edges[k], u, v)
      ensures w <= edges[k].weight.value
    {
      assert p[k] == edges[k];
    }
  }

  /** Adding a later u -> v edge of weight w': the least weight becomes
      min(w, w'), or w' when no u -> v edge came before. */
  lemma LeastWeightHit(edges: seq<EdgeData>, u: int, v: int, old_w: Option<real>)
    requires |edges| > 0 && Weighted(edges[|edges| - 1], u, v)
    requires old_w.Some? ==> LeastWeight(edges[..|edges| - 1], u, v, old_w.value)
    requires old_w.None? ==> forall j :: 0 <= j < |edges| - 1 ==> !Weighted(edges[j], u, v)
    ensures var w' := edges[|edges| - 1].weight.value;
      LeastWeight(edges, u, v, if old_w.Some? && !(w' < old_w.value) then old_w.value else w')
  {
    var p := edges[..|edges| - 1];
    var n := |edges| - 1;
    var w' := edges[n].weight.value;
    if old_w.Some? {
      var j :| 0 <= j < |p| && Weighted(p[j], u, v) && p[j].weight.value == old_w.value;
      assert edges[j] == p[j];
      forall k | 0 <= k < n && Weighted(edges[k], u, v)
        ensures old_w.value <= edges[k].weight.value
      {
        assert p[k] == edges[k];
      }
    }
  }

  /** Every entry of u's list carries the least weight of the weighted
      u -> target edges. */
  lemma {:induction false} CollapseLeast(edges: seq<EdgeData>, u: int, i: int)
    requires u in Collapse(edges) && 0 <= i < |Collapse(edges)[u]|
    ensures var (v, w) := Collapse(edges)[u][i]; LeastWeight(edges, u, v, w)
  {
    var p := edges[..|edges| - 1];
    var e := edges[|edges| - 1];
    var r := Collapse(edges)[u];
    var (v, w) := r[i];
    if !(e.u == u && e.weight.Some?) {
      assert u in Collapse(p) && Collapse(p)[u] == r;
      CollapseLeast(p, u, i);
      LeastWeightOther(edges, u, v, w);
    } else {
      var l := if u in Collapse(p) then Collapse(p)[u] else [];
      MergeTargets(l, e.v, e.weight.value);
      MergeOthers(l, e.v, e.weight.value);
      MergeAppends(l, e.v, e.weight.value);
      if u in Collapse(p) {
        CollapseDistinct(p, u);
      }
      if i < |l| && l[i].0 != e.v {
        CollapseLeast(p, u, i);
        LeastWeightOther(edges, u, v, w);
      } else if i < |l| {
        MergeWeight(l, e.v, e.weight.value, i);
        CollapseLeast(p, u, i);
        LeastWeightHit(edges, u, v, Some(l[i].1));
      } else {
        assert r == l + [(e.v, e.weight.value)] && v == e.v;
        CollapseTargets(p, u);
        if u in Collapse(p) {
          DedupSpec(WeightedTargets(p, u));
        }
        WeightedTargetsSpec(p, u, v);
        LeastWeightHit(edges, u, v, None);
      }
    }
  }

  // ---------------------------------------------------------------------
  // Completion and the whole conversion

  /** r is gd with an empty list added for every key of `keys` it lacks. */
  ghost predicate CompletedWith(r: map<int, Adjacency>, gd: map<int, Adjacency>, keys: set<int>)
  {
    && (forall k :: k in r <==> k in gd || k in keys)
    && (forall k :: k in gd ==> r[k] == gd[k])
    && (forall k :: k in keys && k !in gd ==> r[k] == [])
  }

  /** The inner loop over u's list: replace the entry for v in place when w
      is lower, stop at the first entry for v, append when there is none. */
  method MergeEdge(l: Adjacency, v: int, w: real) returns (r: Adjacency)
    ensures r == Merge(l, v, w)
  {
    r := l;
    var found := false;
    var i := 0;
    while i < |l|
      invariant 0 <= i <= |l| && r == l && !found
      invariant Merge(l, v, w) == l[..i] + Merge(l[i..], v, w)
      decreases |l| - i
    {
      MergeSuffix(l, i, v, w);
      if l[i].0 == v {
        if w < l[i].1 {
          r := r[i := (v, w)];
          assert r == l[..i] + [(v, w)] + l[i + 1..];
        } else {
          assert l == l[..i] + l[i..];
        }
        found := true;
        break;
      }
      assert l[..i + 1] == l[..i] + [l[i]];
      i := i + 1;
    }
    if !found {
      assert l[..|l|] == l;
      r := r + [(v, w)];
    }
  }

  /** The coordinate loop of prepare_cpp_data. */
  method ExtractCoords(nodes: seq<NodeData>) returns (nodesDict: map<int, (real, real)>)
    ensures nodesDict == Coords(nodes)
  {
    nodesDict := map[];
    for i := 0 to |nodes|
      invariant nodesDict == Coords(nodes[..i])
    {
      assert nodes[..i + 1][..i] == nodes[..i];
      var n := nodes[i];
      if n.y.Some? && n.x.Some? {
        nodesDict := nodesDict[n.id := (n.y.value, n.x.value)];
      }
    }
    assert nodes[..|nodes|] == nodes;
  }

  /** The edge loop of prepare_cpp_data. */
  method CollapseEdges(edges: seq<EdgeData>) returns (graphDict: map<int, Adjacency>)
    ensures graphDict == Collapse(edges)
  {
    graphDict := map[];
    for k := 0 to |edges|
      invariant graphDict == Collapse(edges[..k])
    {
      assert edges[..k + 1][..k] == edges[..k];
      var e := edges[k];
      if e.weight.None? {
        continue;
      }
      if e.u !in graphDict {
        graphDict := graphDict[e.u := []];
      }
      var l := MergeEdge(graphDict[e.u], e.v, e.weight.value);
      graphDict := graphDict[e.u := l];
    }
    assert edges[..|edges|] == edges;
  }

  /** The completion loop of prepare_cpp_data, over the keys of nodes_dict
      (in any order: the result does not depend on it). */
  method AddEmptyLists(graphDict: map<int, Adjacency>, nodesDict: map<int, (real, real)>)
    returns (completed: map<int, Adjacency>)
    ensures CompletedWith(completed, graphDict, nodesDict.Keys)
  {
    completed := graphDict;
    var pending := nodesDict.Keys;
    ghost var done: set<int> := {};
    while pending != {}
      invariant forall k :: k in nodesDict <==> k in pending || k in done
      invariant CompletedWith(completed, graphDict, done)
      decreases |pending|
    {
      SetHasMember(pending);
      var nodeId :| nodeId in pending;
      CompletedStep(completed, graphDict, done, nodeId);
      if nodeId !in completed {
        completed := completed[nodeId := []];
      }
      pending := pending - {nodeId};
      done := done + {nodeId};
    }
  }

  /** One turn of the completion loop keeps the completion property. */
  lemma CompletedStep(completed: map<int, Adjacency>, gd: map<int, Adjacency>, done: set<int>, k: int)
    requires CompletedWith(completed, gd, done)
    ensures CompletedWith(if k in completed then completed else completed[k := []], gd, done + {k})
  {
  }

  /** prepare_cpp_data: node coordinates, the collapsed adjacency lists,
      and an empty list for every node with coordinates and no list. */
  method PrepareCppData(nodes: seq<NodeData>, edges: seq<EdgeData>)
    returns (nodesDict: map<int, (real, real)>, graphDict: map<int, Adjacency>)
    ensures nodesDict == Coords(nodes)
    ensures CompletedWith(graphDict, Collapse(edges), nodesDict.Keys)
  {
    nodesDict := ExtractCoords(nodes);
    graphDict := CollapseEdges(edges);
    graphDict := AddEmptyLists(graphDict, nodesDict);
  }

  /** graph_dict's keys are the sources of weighted edges and the nodes
      with coordinates; a key that is no weighted edge's source gets the
      empty list. No source is dropped for lacking coordinates. */
  lemma PreparedKeys(nodes: seq<NodeData>, edges: seq<EdgeData>, gd: map<int, Adjacency>, u: int)
    requires CompletedWith(gd, Collapse(edges), Coords(nodes).Keys)
    ensures u in gd <==> ((exists j :: 0 <= j < |edges| && edges[j].u == u && edges[j].weight.Some?)
                       || (exists i :: 0 <= i < |nodes| && nodes[i].id == u && HasCoords(nodes[i])))
    ensures u in gd && u !in Collapse(edges) ==> gd[u] == [] && WeightedTargets(edges, u) == []
    ensures u in Collapse(edges) ==> gd[u] == Collapse(edges)[u]
  {
    CollapseTargets(edges, u);
    CoordsKeys(nodes, u);
  }

  /** Every target in u's list comes from a weighted u -> target edge. */
  lemma CollapseSound(edges: seq<EdgeData>, u: int, v: int)
    requires u in Collapse(edges) && v in Targets(Collapse(edges)[u])
    ensures exists j :: 0 <= j < |edges| && Weighted(edges[j], u, v)
  {
    CollapseTargets(edges, u);
    DedupSpec(WeightedTargets(edges, u));
    WeightedTargetsSpec(edges, u, v);
  }

  /** Every weighted edge survives as an entry of its source's list, whether
      or not its endpoints have coordinates. */
  lemma CollapseKeepsEdge(edges: seq<EdgeData>, j: int)
    requires 0 <= j < |edges| && edges[j].weight.Some?
    ensures edges[j].u in Collapse(edges) && edges[j].v in Targets(Collapse(edges)[edges[j].u])
  {
    var u, v := edges[j].u, edges[j].v;
    CollapseTargets(edges, u);
    DedupSpec(WeightedTargets(edges, u));
    WeightedTargetsSpec(edges, u, v);
    assert Weighted(edges[j], u, v);
  }

  // ---------------------------------------------------------------------
  // Comparing the two searches

  /** What a run reported: no path, or a path. */
  datatype Outcome = NoPath | Path(p: seq<int>)

  /** The C++ result: None when the call raised; an empty list means no
      path was found. */
  function CppOutcome(cppPath: Option<seq<int>>): Outcome
  {
    if cppPath.Some? && cppPath.value != [] then Path(cppPath.value) else NoPath
  }

  /** The NetworkX result: None when no path was found. */
  function NxOutcome(nxPath: Option<seq<int>>): Outcome
  {
    if nxPath.Some? then Path(nxPath.value) else NoPath
  }

  /** The match decision of compare_results: both found identical paths,
      or neither found one. CppOutcome and NxOutcome are how compare_results
      reads each side's result (a raised call or an empty list is no path on
      the C++ side, None is no path on the NetworkX side); the first ensures
      says the decision is equality of those readings, and the others spell
      out the cases. */
  function PathMatch(cppPath: Option<seq<int>>, nxPath: Option<seq<int>>): (m: bool)
    ensures m <==> CppOutcome(cppPath) == NxOutcome(nxPath)
    ensures (cppPath.None? || cppPath == Some([])) ==> (m <==> nxPath.None?)
    ensures cppPath.Some? && cppPath.value != [] && nxPath.None? ==> !m
    ensures cppPath.Some? && cppPath.value != [] && nxPath.Some? ==> (m <==> cppPath.value == nxPath.value)
  {
    var cppFound := cppPath.Some? && cppPath.value != [];
    var nxFound := nxPath.Some?;
    if cppFound && nxFound then cppPath.value == nxPath.value
    else !cppFound && !nxFound
  }

  /** A C++ run that raised (an unknown start or goal) matches exactly a
      NetworkX run that found nothing, and equal non-empty paths match. */
  lemma PathMatchCases(p: seq<int>, nxPath: Option<seq<int>>)
    ensures PathMatch(None, nxPath) <==> nxPath.None?
    ensures PathMatch(Some([]), nxPath) <==> nxPath.None?
    ensures PathMatch(Some(p), Some(p)) <==> p != []
  {
  }
}
