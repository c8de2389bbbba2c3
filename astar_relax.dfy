/** The relax step of A*: for each outgoing edge of the popped node, a
    tentative g score through it; when it beats the recorded one (an absent
    score counts as infinity), the neighbour's g score and predecessor are
    overwritten and, when the neighbour has coordinates and a finite
    heuristic, it is pushed with f = g + h. The sequential search's inner
    loop and the per-chunk tasks of the parallel drivers run this same step;
    the condition `!g_score.count(nb) || tentative < g_score[nb]` of the
    tasks and the sequential `tentative < (present ? g : max())` agree once
    an absent score is infinity. */
module AStarRelax {
  import opened Wrappers
  import opened RoadNetwork

  /** An open-set entry; an f score of None stands for
      numeric_limits<double>::max(). */
  datatype OpenEntry = OpenEntry(id: int, f: Option<nat>)

  /** The three pieces of search state that relaxing writes. */
  datatype Frontier = Frontier(open: multiset<OpenEntry>, g: map<int, nat>, cameFrom: map<int, int>)

  /** What a search fixes once it has started: the network, the distance
      estimate behind the heuristic, and the goal's record. */
  datatype Env = Env(net: Network, dist: (Node, Node) -> nat, goalNode: Node)

  /** The heuristic: the max() sentinel (None) when either record has id 0,
      otherwise the (here abstract) great-circle distance. */
  function Heuristic(dist: (Node, Node) -> nat, a: Node, b: Node): Option<nat>
  {
    if a.id == 0 || b.id == 0 then None else Some(dist(a, b))
  }

  /** A node the search may push: it has a record and a finite heuristic. */
  predicate Pushable(env: Env, v: int)
  {
    v in env.net.nodes && Heuristic(env.dist, env.net.nodes[v], env.goalNode).Some?
  }

  /** The relax condition, with an absent score as infinity. */
  predicate Improves(g: map<int, nat>, v: int, tentative: nat)
  {
    v !in g || tentative < g[v]
  }

  /** One edge e out of cur, whose g score is gCur. */
  function RelaxEdge(env: Env, cur: int, gCur: nat, e: Edge, fr: Frontier): Frontier
  {
    var tentative := gCur + e.weight;
    if Improves(fr.g, e.target, tentative) then
      var g := fr.g[e.target := tentative];
      var cameFrom := fr.cameFrom[e.target := cur];
      if e.target in env.net.nodes then
        var h := Heuristic(env.dist, env.net.nodes[e.target], env.goalNode);
        if h.Some? then
          Frontier(fr.open + multiset{OpenEntry(e.target, Some(tentative + h.value))}, g, cameFrom)
        else
          Frontier(fr.open, g, cameFrom)
      else
        Frontier(fr.open, g, cameFrom)
    else
      fr
  }

  /** After one edge the target has a g score, no g score has grown, and
      the only entry pushed is one for the target when it is pushable. An
      improving edge writes the target's g score and predecessor whether or
      not the target is pushable; any other edge changes nothing. */
  lemma RelaxEdgeEffect(env: Env, cur: int, gCur: nat, e: Edge, fr: Frontier)
    ensures var r := RelaxEdge(env, cur, gCur, e, fr);
      && r.g.Keys == fr.g.Keys + {e.target}
      && (forall v :: v in fr.g ==> r.g[v] <= fr.g[v])
      && fr.open <= r.open
      && (forall x :: r.open[x] > fr.open[x] ==> x.id == e.target && Pushable(env, x.id))
      && (Improves(fr.g, e.target, gCur + e.weight) ==>
            && r.g[e.target] == gCur + e.weight && r.cameFrom == fr.cameFrom[e.target := cur]
            && (forall v :: v in fr.g && v != e.target ==> r.g[v] == fr.g[v])
            && (Pushable(env, e.target) <==> r.open != fr.open))
      && (!Improves(fr.g, e.target, gCur + e.weight) ==> r == fr)
  {
  }

  /** The edges edges[lo..hi] relaxed in index order; an empty or inverted
      range changes nothing, as the task loop `for (i = begin; i < end; ++i)`
      does. */
  function RelaxRange(env: Env, cur: int, gCur: nat, edges: seq<Edge>, lo: nat, hi: int, fr: Frontier): Frontier
    requires hi <= |edges|
    decreases hi - lo
  {
    if lo >= hi then fr
    else RelaxRange(env, cur, gCur, edges, lo + 1, hi, RelaxEdge(env, cur, gCur, edges[lo], fr))
  }

  /** neighbor_search_task_*: the relax loop over the chunk [begin, end) of
      the popped node's edges, writing the shared maps and open set. */
  method NeighborSearchTask(env: Env, edges: seq<Edge>, begin: nat, end: int, gCur: nat, cur: int, fr: Frontier)
    returns (r: Frontier)
    requires end <= |edges|
    ensures r == RelaxRange(env, cur, gCur, edges, begin, end, fr)
  {
    var open: multiset<OpenEntry>, g: map<int, nat>, cameFrom: map<int, int> := fr.open, fr.g, fr.cameFrom;
    var i := begin;
    while i < end
      invariant begin <= i
      invariant RelaxRange(env, cur, gCur, edges, i, end, Frontier(open, g, cameFrom))
             == RelaxRange(env, cur, gCur, edges, begin, end, fr)
      decreases end - i
    {
      ghost var before := Frontier(open, g, cameFrom);
      var edge := edges[i];
      var neighbor := edge.target;
      var tentative := gCur + edge.weight;
      var update := false;
      if neighbor !in g || tentative < g[neighbor] {
        g := g[neighbor := tentative];
        update := true;
      }
      if update {
        cameFrom := cameFrom[neighbor := cur];
        if neighbor in env.net.nodes {
          var h := Heuristic(env.dist, env.net.nodes[neighbor], env.goalNode);
          if h.Some? {
            open := open + multiset{OpenEntry(neighbor, Some(tentative + h.value))};
          }
        }
      }
      assert Frontier(open, g, cameFrom) == RelaxEdge(env, cur, gCur, edge, before);
      i := i + 1;
    }
    r := Frontier(open, g, cameFrom);
  }

  /** Relaxing a range is relaxing its two halves one after the other. */
  lemma {:induction false} RelaxRangeSplit(env: Env, cur: int, gCur: nat, edges: seq<Edge>, lo: nat, mid: nat, hi: int, fr: Frontier)
    requires lo <= mid <= hi <= |edges|
    ensures RelaxRange(env, cur, gCur, edges, lo, hi, fr)
         == RelaxRange(env, cur, gCur, edges, mid, hi, RelaxRange(env, cur, gCur, edges, lo, mid, fr))
    decreases mid - lo
  {
    if lo < mid {
      RelaxRangeSplit(env, cur, gCur, edges, lo + 1, mid, hi, RelaxEdge(env, cur, gCur, edges[lo], fr));
    }
  }

  /** After a range, exactly the range's targets have been added to the g
      scores, no g score has grown, and every entry pushed is pushable: a
      neighbour without coordinates or with an infinite heuristic gets a g
      score and a predecessor but is never pushed. */
  lemma {:induction false} RelaxRangeEffect(env: Env, cur: int, gCur: nat, edges: seq<Edge>, lo: nat, hi: int, fr: Frontier)
    requires hi <= |edges|
    ensures var r := RelaxRange(env, cur, gCur, edges, lo, hi, fr);
      && r.g.Keys == fr.g.Keys + (set j | lo <= j < hi :: edges[j].target)
      && (forall v :: v in fr.g ==> r.g[v] <= fr.g[v])
      && fr.open <= r.open
      && (forall x :: r.open[x] > fr.open[x] ==> Pushable(env, x.id))
    decreases hi - lo
  {
    if lo < hi {
      var fr' := RelaxEdge(env, cur, gCur, edges[lo], fr);
      RelaxEdgeEffect(env, cur, gCur, edges[lo], fr);
      RelaxRangeEffect(env, cur, gCur, edges, lo + 1, hi, fr');
      assert (set j | lo <= j < hi :: edges[j].target)
          == {edges[lo].target} + (set j | lo + 1 <= j < hi :: edges[j].target);
    }
  }
}
