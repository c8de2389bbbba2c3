/** A* search (astar.cpp): the sequential `AStar::search` and the four
    parallel drivers, which share its single-threaded outer loop and differ
    only in how the popped node's edges are relaxed (all in one loop, or in
    per-thread chunks) and in the open-set container.

    The open set is a multiset of (id, f) entries and each step pops an
    entry of least f. std::priority_queue breaks ties arbitrarily and the
    sorted-list queue in arrival order; the model allows any tie-break, so
    both containers are covered. There is no closed set: a node may be
    pushed and popped several times. */
module AStarSearch {
  import opened Wrappers
  import opened Seqs
  import opened RoadNetwork
  import opened AStarRelax
  import opened AStarChunks

  /** The runtime_error the search throws before searching. */
  datatype SearchError = StartNotFound | GoalNotFound

  /** search, search_TPool_* (thread pool, empty chunks not submitted) and
      search_TVector_* (one thread per chunk). */
  datatype Driver = Sequential | ThreadPool(threads: int) | ThreadVector(threads: int)

  /** NUM_THREADS must be positive: the chunk size divides by it. */
  predicate ValidDriver(d: Driver)
  {
    d.Sequential? || d.threads >= 1
  }

  /** a < b on f scores, where None (max()) is above every number. */
  predicate FLess(a: Option<nat>, b: Option<nat>)
  {
    a.Some? && (b.None? || a.value < b.value)
  }

  /** x is an entry the open set may yield next: none has a smaller f. */
  predicate IsMinEntry(x: OpenEntry, open: multiset<OpenEntry>)
  {
    x in open && forall y :: y in open ==> !FLess(y.f, x.f)
  }

  /** A non-empty open set has an entry of least f. */
  lemma {:induction false} MinExists(open: multiset<OpenEntry>)
    requires open != multiset{}
    ensures exists x :: IsMinEntry(x, open)
    decreases |open|
  {
    var y :| y in open;
    var rest := open - multiset{y};
    assert open == rest + multiset{y};
    if rest == multiset{} {
      assert open == multiset{y};
      assert IsMinEntry(y, open);
    } else {
      MinExists(rest);
      var x :| IsMinEntry(x, rest);
      if FLess(y.f, x.f) {
        assert IsMinEntry(y, open);
      } else {
        assert IsMinEntry(x, open);
      }
    }
  }

  ghost function OpenIds(open: multiset<OpenEntry>): set<int>
  {
    set x | x in open :: x.id
  }

  /** A node that has been or may be popped: the start, or a node with a
      predecessor that could be pushed. */
  ghost predicate Popable(env: Env, start: int, fr: Frontier, v: int)
  {
    v == start || (v in fr.cameFrom && Pushable(env, v))
  }

  /** The predecessor link of v is an edge from a popable node, and the pair
      (g score, time of the last g update) strictly decreases along it, so
      following predecessors cannot cycle. */
  ghost predicate ParentOk(env: Env, start: int, fr: Frontier, time: map<int, nat>, v: int)
    requires v in fr.cameFrom
  {
    var p := fr.cameFrom[v];
    && Popable(env, start, fr, p)
    && IsEdge(env.net, p, v)
    && p in fr.g && v in fr.g && p in time && v in time
    && (fr.g[p] < fr.g[v] || (fr.g[p] == fr.g[v] && time[p] < time[v]))
  }

  /** What every state of the search satisfies; `time` and `clock` are
      ghost bookkeeping of when each g score was last written. */
  ghost predicate Sound(env: Env, start: int, fr: Frontier, time: map<int, nat>, clock: nat)
  {
    && start in fr.g && fr.g[start] == 0 && start !in fr.cameFrom
    && fr.g.Keys <= Universe(env.net, start)
    && fr.g.Keys <= time.Keys
    && (forall v :: v in time ==> time[v] < clock)
    && fr.cameFrom.Keys <= fr.g.Keys
    && (forall v :: v in fr.cameFrom ==> ParentOk(env, start, fr, time, v))
    && (forall x :: x in fr.open ==> x.id in fr.g && Popable(env, start, fr, x.id))
  }

  /** Every edge of w leads to a node with a g score. */
  ghost predicate Expanded(net: Network, g: map<int, nat>, w: int)
  {
    w in net.graph ==> forall j :: 0 <= j < |net.graph[w]| ==> net.graph[w][j].target in g
  }

  /** Every node with a g score that the search could push is still open,
      or is not the goal and has had all its edges relaxed; cur excepted
      (the node being expanded). */
  ghost predicate CompleteExcept(env: Env, start: int, goal: int, fr: Frontier, cur: Option<int>)
  {
    forall w :: w in fr.g && Some(w) != cur && (w == start || Pushable(env, w)) ==>
      w in OpenIds(fr.open) || (w != goal && Expanded(env.net, fr.g, w))
  }

  ghost predicate Complete(env: Env, start: int, goal: int, fr: Frontier)
  {
    CompleteExcept(env, start, goal, fr, None)
  }

  /** The node being expanded: popped, with its g score gCur, and with an
      adjacency list. */
  ghost predicate Expanding(env: Env, start: int, fr: Frontier, cur: int, gCur: nat)
  {
    cur in fr.g && fr.g[cur] == gCur && Popable(env, start, fr, cur) && cur in env.net.graph
  }

  /** A path from start to goal whose nodes after the start could all be
      pushed: the only paths the search can follow. */
  ghost predicate PushablePath(env: Env, start: int, goal: int, p: seq<int>)
  {
    StartPath(env, start, p) && p[|p| - 1] == goal
  }

  ghost predicate StartPath(env: Env, start: int, p: seq<int>)
  {
    && |p| > 0 && p[0] == start && IsPath(env.net, p)
    && forall i :: 0 < i < |p| ==> Pushable(env, p[i])
  }

  /** What the heuristic's id-0 guard does to the search: a node reached
      through an edge is pushed only when it has a record whose id is not 0
      and the goal's record id is not 0 either, so every node of a path the
      search can follow after the start has such a record, and a goal whose
      record has id 0 can only be reached as the start itself. */
  lemma PushablePathRecords(env: Env, start: int, goal: int, p: seq<int>)
    requires PushablePath(env, start, goal, p)
    ensures forall i :: 0 < i < |p| ==> p[i] in env.net.nodes && env.net.nodes[p[i]].id != 0
    ensures env.goalNode.id == 0 ==> p == [start] && goal == start
  {
    if |p| > 1 {
      assert Pushable(env, p[1]);
    }
  }

  // ---------------------------------------------------------------------
  // Ghost time of g-score writes

  ghost function Retime(fr: Frontier, e: Edge, gCur: nat, time: map<int, nat>, clock: nat): (map<int, nat>, nat)
  {
    if Improves(fr.g, e.target, gCur + e.weight) then (time[e.target := clock], clock + 1) else (time, clock)
  }

  ghost function RetimeRange(env: Env, cur: int, gCur: nat, edges: seq<Edge>, lo: nat, hi: int, fr: Frontier,
                             time: map<int, nat>, clock: nat): (map<int, nat>, nat)
    requires hi <= |edges|
    decreases hi - lo
  {
    if lo >= hi then (time, clock)
    else
      var tc := Retime(fr, edges[lo], gCur, time, clock);
      RetimeRange(env, cur, gCur, edges, lo + 1, hi, RelaxEdge(env, cur, gCur, edges[lo], fr), tc.0, tc.1)
  }

  // ---------------------------------------------------------------------
  // Sum of g scores, for termination

  ghost function SumG(g: map<int, nat>): nat
  {
    SumOver(g, g.Keys)
  }

  ghost function SumOver(g: map<int, nat>, keys: set<int>): nat
    requires keys <= g.Keys
  {
    if keys == {} then 0
    else
      SetHasMember(keys);
      var k :| k in keys;
      g[k] + SumOver(g, keys - {k})
  }

  lemma {:induction false} SumOverRemove(g: map<int, nat>, keys: set<int>, k: int)
    requires keys <= g.Keys && k in keys
    ensures SumOver(g, keys) == g[k] + SumOver(g, keys - {k})
    decreases |keys|
  {
    var j :| j in keys && SumOver(g, keys) == g[j] + SumOver(g, keys - {j});
    if j != k {
      SumOverRemove(g, keys - {j}, k);
      SumOverRemove(g, keys - {k}, j);
      assert keys - {j} - {k} == keys - {k} - {j};
    }
  }

  lemma {:induction false} SumOverSame(g: map<int, nat>, h: map<int, nat>, keys: set<int>)
    requires keys <= g.Keys && keys <= h.Keys
    requires forall k :: k in keys ==> g[k] == h[k]
    ensures SumOver(g, keys) == SumOver(h, keys)
    decreases |keys|
  {
    if keys != {} {
      SetHasMember(keys);
      var j :| j in keys;
      SumOverRemove(g, keys, j);
      SumOverRemove(h, keys, j);
      SumOverSame(g, h, keys - {j});
    }
  }

  /** Lowering one g score lowers the sum. */
  lemma SumGDecrease(g: map<int, nat>, k: int, v: nat)
    requires k in g && v < g[k]
    ensures SumG(g[k := v]) < SumG(g)
  {
    var h := g[k := v];
    assert h.Keys == g.Keys;
    SumOverRemove(h, g.Keys, k);
    SumOverRemove(g, g.Keys, k);
    SumOverSame(g, h, g.Keys - {k});
  }

  /** The lexicographic measure (nodes never scored, sum of g scores) has
      gone down from a to b, or nothing changed. */
  ghost predicate Progress(U: set<int>, a: Frontier, b: Frontier)
  {
    && a.g.Keys <= b.g.Keys <= U
    && (b == a || |U - b.g.Keys| < |U - a.g.Keys| || (b.g.Keys == a.g.Keys && SumG(b.g) < SumG(a.g)))
  }

  lemma ProgressTrans(U: set<int>, a: Frontier, b: Frontier, c: Frontier)
    requires Progress(U, a, b) && Progress(U, b, c)
    ensures Progress(U, a, c)
  {
    assert U - c.g.Keys <= U - b.g.Keys;
    assert |U - c.g.Keys| <= |U - b.g.Keys| by {
      SubsetCard(U - c.g.Keys, U - b.g.Keys);
    }
  }

  lemma SubsetCard(a: set<int>, b: set<int>)
    requires a <= b
    ensures |a| <= |b|
  {
    assert b == a + (b - a);
  }

  lemma RelaxEdgeProgress(env: Env, cur: int, gCur: nat, e: Edge, fr: Frontier, U: set<int>)
    requires fr.g.Keys <= U && e.target in U
    ensures Progress(U, fr, RelaxEdge(env, cur, gCur, e, fr))
  {
    var r := RelaxEdge(env, cur, gCur, e, fr);
    RelaxEdgeEffect(env, cur, gCur, e, fr);
    if Improves(fr.g, e.target, gCur + e.weight) {
      if e.target in fr.g {
        assert r.g == fr.g[e.target := gCur + e.weight];
        SumGDecrease(fr.g, e.target, gCur + e.weight);
      } else {
        assert U - r.g.Keys == (U - fr.g.Keys) - {e.target};
      }
    }
  }

  lemma {:induction false} RelaxRangeProgress(env: Env, cur: int, gCur: nat, edges: seq<Edge>, lo: nat, hi: int, fr: Frontier, U: set<int>)
    requires hi <= |edges| && fr.g.Keys <= U
    requires forall j :: 0 <= j < |edges| ==> edges[j].target in U
    ensures Progress(U, fr, RelaxRange(env, cur, gCur, edges, lo, hi, fr))
    decreases hi - lo
  {
    if lo < hi {
      var fr' := RelaxEdge(env, cur, gCur, edges[lo], fr);
      RelaxEdgeProgress(env, cur, gCur, edges[lo], fr, U);
      RelaxRangeProgress(env, cur, gCur, edges, lo + 1, hi, fr', U);
      ProgressTrans(U, fr, fr', RelaxRange(env, cur, gCur, edges, lo + 1, hi, fr'));
    }
  }

  // ---------------------------------------------------------------------
  // Preservation of the invariants by one expansion

  /** A popable node stays popable when predecessors are only added. */
  lemma PopableGrows(env: Env, start: int, fr: Frontier, r: Frontier, v: int)
    requires fr.cameFrom.Keys <= r.cameFrom.Keys && Popable(env, start, fr, v)
    ensures Popable(env, start, r, v)
  {
  }

  /** Writing g[v] := t and cameFrom[v] := cur, with t below the old g[v]
      and not below g[cur], keeps every predecessor link well ranked. */
  lemma ParentsAfterImprove(env: Env, start: int, fr: Frontier, r: Frontier, time: map<int, nat>, clock: nat,
                            cur: int, v: int, t: nat)
    requires forall x :: x in fr.cameFrom ==> ParentOk(env, start, fr, time, x)
    requires r.g == fr.g[v := t] && r.cameFrom == fr.cameFrom[v := cur]
    requires forall x :: x in time ==> time[x] < clock
    requires cur in fr.g && cur in time && cur != v && fr.g[cur] <= t && (v in fr.g ==> t < fr.g[v])
    requires Popable(env, start, fr, cur) && IsEdge(env.net, cur, v)
    ensures forall x :: x in r.cameFrom ==> ParentOk(env, start, r, time[v := clock], x)
  {
    var time' := time[v := clock];
    forall x | x in r.cameFrom
      ensures ParentOk(env, start, r, time', x)
    {
      if x == v {
        PopableGrows(env, start, fr, r, cur);
        assert r.g[cur] == fr.g[cur] && time'[cur] == time[cur] < clock;
      } else {
        assert ParentOk(env, start, fr, time, x);
        var p := fr.cameFrom[x];
        assert r.cameFrom[x] == p;
        PopableGrows(env, start, fr, r, p);
      }
    }
  }

  /** Pushing only pushable entries for the improved node keeps every open
      entry scored and popable. */
  lemma OpenAfterImprove(env: Env, start: int, fr: Frontier, r: Frontier, cur: int, v: int, t: nat)
    requires forall x :: x in fr.open ==> x.id in fr.g && Popable(env, start, fr, x.id)
    requires r.g == fr.g[v := t] && r.cameFrom == fr.cameFrom[v := cur]
    requires forall x :: r.open[x] > fr.open[x] ==> x.id == v && Pushable(env, x.id)
    ensures forall x :: x in r.open ==> x.id in r.g && Popable(env, start, r, x.id)
  {
    forall x | x in r.open
      ensures x.id in r.g && Popable(env, start, r, x.id)
    {
      if x in fr.open {
        PopableGrows(env, start, fr, r, x.id);
      }
    }
  }

  /** One improving write keeps the search state sound. */
  lemma SoundAfterImprove(env: Env, start: int, fr: Frontier, r: Frontier, time: map<int, nat>, clock: nat,
                          cur: int, v: int, t: nat)
    requires Sound(env, start, fr, time, clock)
    requires r.g == fr.g[v := t] && r.cameFrom == fr.cameFrom[v := cur]
    requires forall x :: r.open[x] > fr.open[x] ==> x.id == v && Pushable(env, x.id)
    requires v != start && v in Universe(env.net, start)
    requires cur in fr.g && cur != v && fr.g[cur] <= t && (v in fr.g ==> t < fr.g[v])
    requires Popable(env, start, fr, cur) && IsEdge(env.net, cur, v)
    ensures Sound(env, start, r, time[v := clock], clock + 1)
  {
    ParentsAfterImprove(env, start, fr, r, time, clock, cur, v, t);
    OpenAfterImprove(env, start, fr, r, cur, v, t);
  }

  lemma RelaxEdgeKeepsSound(env: Env, start: int, cur: int, gCur: nat, j: nat, fr: Frontier, time: map<int, nat>, clock: nat)
    requires Sound(env, start, fr, time, clock) && Expanding(env, start, fr, cur, gCur)
    requires j < |env.net.graph[cur]|
    ensures var e := env.net.graph[cur][j];
      var r := RelaxEdge(env, cur, gCur, e, fr);
      var tc := Retime(fr, e, gCur, time, clock);
      Sound(env, start, r, tc.0, tc.1) && Expanding(env, start, r, cur, gCur)
  {
    var e := env.net.graph[cur][j];
    if Improves(fr.g, e.target, gCur + e.weight) {
      ImprovingEdgeKeepsSound(env, start, cur, gCur, j, fr, time, clock);
      assert Retime(fr, e, gCur, time, clock) == (time[e.target := clock], clock + 1);
    } else {
      assert RelaxEdge(env, cur, gCur, e, fr) == fr;
      assert Retime(fr, e, gCur, time, clock) == (time, clock);
    }
  }

  /** The improving case of RelaxEdgeKeepsSound: the target is stamped with
      the current clock. */
  lemma ImprovingEdgeKeepsSound(env: Env, start: int, cur: int, gCur: nat, j: nat, fr: Frontier,
                                time: map<int, nat>, clock: nat)
    requires Sound(env, start, fr, time, clock) && Expanding(env, start, fr, cur, gCur)
    requires j < |env.net.graph[cur]|
    requires Improves(fr.g, env.net.graph[cur][j].target, gCur + env.net.graph[cur][j].weight)
    ensures var e := env.net.graph[cur][j];
      var r := RelaxEdge(env, cur, gCur, e, fr);
      Sound(env, start, r, time[e.target := clock], clock + 1) && Expanding(env, start, r, cur, gCur)
  {
    var e := env.net.graph[cur][j];
    var v := e.target;
    var t := gCur + e.weight;
    var r := RelaxEdge(env, cur, gCur, e, fr);
    RelaxEdgeEffect(env, cur, gCur, e, fr);
    assert r.g == fr.g[v := t] && r.cameFrom == fr.cameFrom[v := cur];
    assert v in Universe(env.net, start);
    assert IsEdge(env.net, cur, v);
    SoundAfterImprove(env, start, fr, r, time, clock, cur, v, t);
    PopableGrows(env, start, fr, r, cur);
  }

  lemma {:induction false} RelaxRangeKeepsSound(env: Env, start: int, cur: int, gCur: nat, lo: nat, hi: int,
                                                fr: Frontier, time: map<int, nat>, clock: nat)
    requires Sound(env, start, fr, time, clock) && Expanding(env, start, fr, cur, gCur)
    requires hi <= |env.net.graph[cur]|
    ensures var edges := env.net.graph[cur];
      var r := RelaxRange(env, cur, gCur, edges, lo, hi, fr);
      var tc := RetimeRange(env, cur, gCur, edges, lo, hi, fr, time, clock);
      Sound(env, start, r, tc.0, tc.1) && Expanding(env, start, r, cur, gCur)
    decreases hi - lo
  {
    if lo < hi {
      var edges := env.net.graph[cur];
      RelaxEdgeKeepsSound(env, start, cur, gCur, lo, fr, time, clock);
      var tc := Retime(fr, edges[lo], gCur, time, clock);
      RelaxRangeKeepsSound(env, start, cur, gCur, lo + 1, hi, RelaxEdge(env, cur, gCur, edges[lo], fr), tc.0, tc.1);
    }
  }

  lemma RelaxEdgeKeepsComplete(env: Env, start: int, goal: int, cur: int, gCur: nat, e: Edge, fr: Frontier)
    requires start in fr.g && fr.g[start] == 0
    requires CompleteExcept(env, start, goal, fr, Some(cur))
    ensures CompleteExcept(env, start, goal, RelaxEdge(env, cur, gCur, e, fr), Some(cur))
  {
    var r := RelaxEdge(env, cur, gCur, e, fr);
    RelaxEdgeEffect(env, cur, gCur, e, fr);
    forall w | w in r.g && Some(w) != Some(cur) && (w == start || Pushable(env, w))
      ensures w in OpenIds(r.open) || (w != goal && Expanded(env.net, r.g, w))
    {
      if w == e.target && Improves(fr.g, w, gCur + e.weight) {
        var x := OpenEntry(w, Some(gCur + e.weight + Heuristic(env.dist, env.net.nodes[w], env.goalNode).value));
        assert x in r.open;
      } else {
        assert w in fr.g;
        if w in OpenIds(fr.open) {
          var x :| x in fr.open && x.id == w;
          assert x in r.open;
        }
      }
    }
  }

  lemma {:induction false} RelaxRangeKeepsComplete(env: Env, start: int, goal: int, cur: int, gCur: nat, edges: seq<Edge>,
                                                   lo: nat, hi: int, fr: Frontier)
    requires hi <= |edges|
    requires start in fr.g && fr.g[start] == 0
    requires CompleteExcept(env, start, goal, fr, Some(cur))
    ensures CompleteExcept(env, start, goal, RelaxRange(env, cur, gCur, edges, lo, hi, fr), Some(cur))
    decreases hi - lo
  {
    if lo < hi {
      RelaxEdgeKeepsComplete(env, start, goal, cur, gCur, edges[lo], fr);
      RelaxEdgeEffect(env, cur, gCur, edges[lo], fr);
      RelaxRangeKeepsComplete(env, start, goal, cur, gCur, edges, lo + 1, hi, RelaxEdge(env, cur, gCur, edges[lo], fr));
    }
  }

  /** Popping one entry keeps every other node's obligation. */
  lemma PopKeepsComplete(env: Env, start: int, goal: int, fr: Frontier, current: OpenEntry)
    requires current in fr.open && Complete(env, start, goal, fr)
    ensures CompleteExcept(env, start, goal, Frontier(fr.open - multiset{current}, fr.g, fr.cameFrom), Some(current.id))
  {
    var open' := fr.open - multiset{current};
    forall w | w in fr.g && Some(w) != Some(current.id) && (w == start || Pushable(env, w)) && w in OpenIds(fr.open)
      ensures w in OpenIds(open')
    {
      var x :| x in fr.open && x.id == w;
      assert x in open';
    }
  }

  /** Expanding the popped node cur (not the goal) relaxes all its edges
      and re-establishes both invariants, with the measure of the loop not
      increased. */
  lemma ExpandKeepsInvariants(env: Env, start: int, goal: int, cur: int, gCur: nat, fr: Frontier,
                              time: map<int, nat>, clock: nat)
    requires Sound(env, start, fr, time, clock) && Expanding(env, start, fr, cur, gCur) && cur != goal
    requires CompleteExcept(env, start, goal, fr, Some(cur))
    ensures var edges := env.net.graph[cur];
      var r := RelaxRange(env, cur, gCur, edges, 0, |edges|, fr);
      var tc := RetimeRange(env, cur, gCur, edges, 0, |edges|, fr, time, clock);
      && Sound(env, start, r, tc.0, tc.1)
      && Complete(env, start, goal, r)
      && Progress(Universe(env.net, start), fr, r)
  {
    var edges := env.net.graph[cur];
    var r := RelaxRange(env, cur, gCur, edges, 0, |edges|, fr);
    RelaxRangeKeepsSound(env, start, cur, gCur, 0, |edges|, fr, time, clock);
    RelaxRangeKeepsComplete(env, start, goal, cur, gCur, edges, 0, |edges|, fr);
    RelaxRangeEffect(env, cur, gCur, edges, 0, |edges|, fr);
    assert forall j :: 0 <= j < |edges| ==> edges[j].target in r.g;
    forall j | 0 <= j < |edges|
      ensures edges[j].target in Universe(env.net, start)
    {
      assert edges[j] == env.net.graph[cur][j];
    }
    RelaxRangeProgress(env, cur, gCur, edges, 0, |edges|, fr, Universe(env.net, start));
  }

  /** With the open set empty, every node reachable from the start along
      pushable nodes has a g score... */
  lemma {:induction false} PathInScores(env: Env, start: int, goal: int, fr: Frontier, p: seq<int>, i: nat)
    requires start in fr.g && fr.open == multiset{} && Complete(env, start, goal, fr)
    requires StartPath(env, start, p) && i < |p|
    ensures p[i] in fr.g
  {
    if i > 0 {
      PathInScores(env, start, goal, fr, p, i - 1);
      assert IsEdge(env.net, p[i - 1], p[i]);
      assert p[i - 1] !in OpenIds(fr.open);
    }
  }

  /** ...so none of them is the goal: an exhausted search has no path. */
  lemma ExhaustedMeansNoPath(env: Env, start: int, goal: int, fr: Frontier)
    requires start in fr.g && fr.open == multiset{} && Complete(env, start, goal, fr)
    ensures forall p :: !PushablePath(env, start, goal, p)
  {
    forall p | StartPath(env, start, p)
      ensures p[|p| - 1] != goal
    {
      PathInScores(env, start, goal, fr, p, |p| - 1);
      assert p[|p| - 1] !in OpenIds(fr.open);
    }
  }

  // ---------------------------------------------------------------------
  // The search

  /** The edge loop of one popped node, as each driver runs it. */
  method Expand(env: Env, cur: int, gCur: nat, edges: seq<Edge>, driver: Driver, fr: Frontier) returns (r: Frontier)
    requires ValidDriver(driver)
    ensures r == RelaxRange(env, cur, gCur, edges, 0, |edges|, fr)
  {
    match driver
    case Sequential =>
      r := NeighborSearchTask(env, edges, 0, |edges|, gCur, cur, fr);
    case ThreadPool(n) =>
      r := ExpandInChunks(env, cur, gCur, edges, n, true, fr);
    case ThreadVector(n) =>
      r := ExpandInChunks(env, cur, gCur, edges, n, false, fr);
  }

  /** Path reconstruction: follow predecessors from the goal until a node
      without one (the start), append the start, and reverse. */
  method Reconstruct(env: Env, start: int, goal: int, fr: Frontier, ghost time: map<int, nat>, ghost clock: nat)
    returns (path: seq<int>)
    requires Sound(env, start, fr, time, clock) && goal in fr.g && Popable(env, start, fr, goal)
    ensures PushablePath(env, start, goal, path)
    ensures start == goal ==> path == [start]
  {
    var cameFrom := fr.cameFrom;
    var rev: seq<int> := [];
    var temp := goal;
    while temp in cameFrom
      invariant temp in fr.g && temp in time && Popable(env, start, fr, temp)
      invariant |rev| == 0 ==> temp == goal
      invariant |rev| > 0 ==> rev[0] == goal
      invariant forall i :: 0 <= i < |rev| ==> rev[i] in cameFrom && Pushable(env, rev[i])
      invariant forall i :: 0 <= i < |rev| ==> cameFrom[rev[i]] == (rev + [temp])[i + 1]
      decreases fr.g[temp], time[temp]
    {
      assert ParentOk(env, start, fr, time, temp);
      rev := rev + [temp];
      temp := cameFrom[temp];
    }
    var chain := rev + [start];
    forall i | 0 <= i < |chain| - 1
      ensures ChainLink(env, chain, i)
    {
      assert chain[i] == rev[i] && chain[i + 1] == (rev + [temp])[i + 1];
      assert ParentOk(env, start, fr, time, rev[i]);
    }
    ReversedChainIsPath(env, start, goal, chain);
    path := Reverse(chain);
  }

  /** Link i of a predecessor chain: chain[i] is pushable and was reached
      by an edge from chain[i + 1]. */
  ghost predicate ChainLink(env: Env, chain: seq<int>, i: int)
  {
    0 <= i < |chain| - 1 && Pushable(env, chain[i]) && IsEdge(env.net, chain[i + 1], chain[i])
  }

  /** A predecessor chain from the goal back to the start, read backwards,
      is a path the search can follow. */
  lemma {:induction false} ReversedChainIsPath(env: Env, start: int, goal: int, chain: seq<int>)
    requires |chain| > 0 && chain[0] == goal && chain[|chain| - 1] == start
    requires forall i :: 0 <= i < |chain| - 1 ==> ChainLink(env, chain, i)
    ensures PushablePath(env, start, goal, Reverse(chain))
    decreases |chain|
  {
    if |chain| > 1 {
      var rest := chain[1..];
      forall i | 0 <= i < |rest| - 1
        ensures ChainLink(env, rest, i)
      {
        assert ChainLink(env, chain, i + 1);
      }
      ReversedChainIsPath(env, start, chain[1], rest);
      assert ChainLink(env, chain, 0);
      StartPathExtend(env, start, Reverse(rest), goal);
      assert Reverse(chain) == Reverse(rest) + [goal];
    }
  }

  /** A start path extended by an edge to a pushable node is a start path. */
  lemma StartPathExtend(env: Env, start: int, p: seq<int>, v: int)
    requires StartPath(env, start, p) && IsEdge(env.net, p[|p| - 1], v) && Pushable(env, v)
    ensures StartPath(env, start, p + [v])
  {
    var q := p + [v];
    forall i | 0 < i < |q|
      ensures IsEdge(env.net, q[i - 1], q[i]) && Pushable(env, q[i])
    {
      if i < |p| {
        assert q[i - 1] == p[i - 1] && q[i] == p[i];
      }
    }
  }

  /** The measure of the search loop (nodes never scored, sum of g
      scores, open entries) is lexicographically smaller in b than in a. */
  ghost predicate Decreased(U: set<int>, a: Frontier, b: Frontier)
  {
    || |U - b.g.Keys| < |U - a.g.Keys|
    || (|U - b.g.Keys| == |U - a.g.Keys| && SumG(b.g) < SumG(a.g))
    || (|U - b.g.Keys| == |U - a.g.Keys| && SumG(b.g) == SumG(a.g) && |b.open| < |a.open|)
  }

  /** One turn of the search loop after popping `current`, which is not the
      goal: a node without an adjacency list is dropped, any other is
      expanded by the driver. */
  method Step(env: Env, start: int, goal: int, driver: Driver, fr: Frontier, current: OpenEntry,
              ghost time: map<int, nat>, ghost clock: nat)
    returns (next: Frontier, ghost time': map<int, nat>, ghost clock': nat)
    requires ValidDriver(driver)
    requires Sound(env, start, fr, time, clock) && Complete(env, start, goal, fr)
    requires current in fr.open && current.id != goal
    ensures Sound(env, start, next, time', clock') && Complete(env, start, goal, next)
    ensures Decreased(Universe(env.net, start), fr, next)
  {
    var popped := Frontier(fr.open - multiset{current}, fr.g, fr.cameFrom);
    PopKeepsSound(env, start, goal, fr, current, time, clock);
    var gCur := fr.g[current.id];
    if current.id !in env.net.graph {
      return popped, time, clock;
    }
    var edges := env.net.graph[current.id];
    next := Expand(env, current.id, gCur, edges, driver, popped);
    ExpandKeepsInvariants(env, start, goal, current.id, gCur, popped, time, clock);
    ProgressDecreased(Universe(env.net, start), fr, popped, next);
    var tc := RetimeRange(env, current.id, gCur, edges, 0, |edges|, popped, time, clock);
    time', clock' := tc.0, tc.1;
  }

  /** Popping an entry keeps the state sound, leaves the popped node the
      one being expanded, and shrinks the open set. */
  lemma PopKeepsSound(env: Env, start: int, goal: int, fr: Frontier, current: OpenEntry, time: map<int, nat>, clock: nat)
    requires Sound(env, start, fr, time, clock) && Complete(env, start, goal, fr)
    requires current in fr.open && current.id != goal
    ensures var popped := Frontier(fr.open - multiset{current}, fr.g, fr.cameFrom);
      && Sound(env, start, popped, time, clock)
      && CompleteExcept(env, start, goal, popped, Some(current.id))
      && current.id in popped.g && Popable(env, start, popped, current.id)
      && Decreased(Universe(env.net, start), fr, popped)
      && (current.id !in env.net.graph ==> Complete(env, start, goal, popped))
  {
    var popped := Frontier(fr.open - multiset{current}, fr.g, fr.cameFrom);
    assert |popped.open| < |fr.open|;
    PopKeepsComplete(env, start, goal, fr, current);
    if current.id !in env.net.graph {
      DroppedKeepsComplete(env, start, goal, popped, current.id);
    }
  }

  /** A popped node other than the goal that has no adjacency list needs no
      expansion. */
  lemma DroppedKeepsComplete(env: Env, start: int, goal: int, fr: Frontier, cur: int)
    requires CompleteExcept(env, start, goal, fr, Some(cur)) && cur != goal && cur !in env.net.graph
    ensures Complete(env, start, goal, fr)
  {
    assert Expanded(env.net, fr.g, cur);
  }

  lemma ProgressDecreased(U: set<int>, fr: Frontier, popped: Frontier, next: Frontier)
    requires popped.g == fr.g && |popped.open| < |fr.open|
    requires Progress(U, popped, next)
    ensures Decreased(U, fr, next)
  {
  }

  /** The state before the loop: the start alone, open and scored 0. */
  lemma InitialState(env: Env, start: int, goal: int, fr: Frontier, time: map<int, nat>)
    requires |fr.open| == 1 && (forall x :: x in fr.open ==> x.id == start)
    requires fr.g == map[start := 0] && fr.cameFrom == map[] && time == map[start := 0]
    ensures Sound(env, start, fr, time, 1) && Complete(env, start, goal, fr)
  {
    var x :| x in fr.open;
    assert start in OpenIds(fr.open);
  }

  /** The search of every driver. Unknown start or goal ids are errors;
      otherwise the result is a path from start to goal through pushable
      nodes, or empty exactly when no such path exists. */
  method Search(net: Network, dist: (Node, Node) -> nat, start: int, goal: int, driver: Driver)
    returns (r: Result<seq<int>, SearchError>)
    requires ValidDriver(driver)
    ensures start !in net.nodes ==> r == Failure(StartNotFound)
    ensures start in net.nodes && goal !in net.nodes ==> r == Failure(GoalNotFound)
    ensures r.Success? <==> start in net.nodes && goal in net.nodes
    ensures r.Success? && r.value != [] ==> PushablePath(Env(net, dist, net.nodes[goal]), start, goal, r.value)
    ensures r.Success? && r.value == [] ==> forall p :: !PushablePath(Env(net, dist, net.nodes[goal]), start, goal, p)
    ensures r.Success? && start == goal ==> r.value == [start]
    ensures r.Success? ==> forall i :: 0 < i < |r.value| ==> r.value[i] in net.nodes && net.nodes[r.value[i]].id != 0
    ensures r.Success? && start != goal && net.nodes[goal].id == 0 ==> r.value == []
  {
    if start !in net.nodes {
      return Failure(StartNotFound);
    }
    if goal !in net.nodes {
      return Failure(GoalNotFound);
    }
    var path := Run(Env(net, dist, net.nodes[goal]), start, goal, driver);
    if path != [] {
      PushablePathRecords(Env(net, dist, net.nodes[goal]), start, goal, path);
    }
    return Success(path);
  }

  /** The search loop once both ids are known: pop an entry of least f,
      reconstruct on the goal, otherwise expand; an exhausted open set
      yields the empty path. */
  method Run(env: Env, start: int, goal: int, driver: Driver) returns (path: seq<int>)
    requires ValidDriver(driver) && start in env.net.nodes
    ensures path != [] ==> PushablePath(env, start, goal, path)
    ensures path == [] ==> forall p :: !PushablePath(env, start, goal, p)
    ensures start == goal ==> path == [start]
  {
    var fr := Frontier(multiset{OpenEntry(start, Heuristic(env.dist, env.net.nodes[start], env.goalNode))}, map[start := 0], map[]);
    ghost var time: map<int, nat> := map[start := 0];
    ghost var clock: nat := 1;
    InitialState(env, start, goal, fr, time);
    while fr.open != multiset{}
      invariant Sound(env, start, fr, time, clock) && Complete(env, start, goal, fr)
      decreases |Universe(env.net, start) - fr.g.Keys|, SumG(fr.g), |fr.open|
    {
      MinExists(fr.open);
      var current :| IsMinEntry(current, fr.open);
      if current.id == goal {
        path := Reconstruct(env, start, goal, fr, time, clock);
        return;
      }
      fr, time, clock := Step(env, start, goal, driver, fr, current, time, clock);
    }
    ExhaustedMeansNoPath(env, start, goal, fr);
    path := [];
  }
}
