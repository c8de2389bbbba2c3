/** The parallel drivers' split of the popped node's edge list: with
    `total` edges and NUM_THREADS threads, thread t gets the index range
    [t * chunk, min(t * chunk + chunk, total)) where chunk is total divided
    by the thread count, rounded up. The thread-pool drivers do not submit
    a chunk that is empty; the thread-vector drivers start a thread for it,
    whose loop does nothing. Threads are not modelled: the chunks are relaxed
    one after another in thread order, which is one of the interleavings the
    drivers allow. */
module AStarChunks {
  import opened RoadNetwork
  import opened AStarRelax

  function Min(a: int, b: int): int
  {
    if a < b then a else b
  }

  /** chunk_size = (total + NUM_THREADS - 1) / NUM_THREADS: the least chunk
      size with which NUM_THREADS chunks cover all edges. */
  function ChunkSize(total: nat, threads: nat): (c: nat)
    requires threads >= 1
    ensures c * threads >= total
    ensures total > 0 ==> c >= 1 && (c - 1) * threads < total
  {
    var q := (total + threads - 1) / threads;
    var r := (total + threads - 1) % threads;
    assert q * threads + r == total + threads - 1;
    assert (q - 1) * threads == q * threads - threads;
    q
  }

  function ChunkBegin(total: nat, threads: nat, t: nat): nat
    requires threads >= 1
  {
    t * ChunkSize(total, threads)
  }

  function ChunkEnd(total: nat, threads: nat, t: nat): int
    requires threads >= 1
  {
    Min(ChunkBegin(total, threads, t) + ChunkSize(total, threads), total)
  }

  /** Every edge index belongs to exactly one thread's chunk, the one
      numbered index / chunk_size: the chunks are pairwise disjoint and
      together they are [0, total). */
  lemma ChunkMembership(total: nat, threads: nat, t: nat, i: nat)
    requires threads >= 1 && t < threads && i < total
    ensures i / ChunkSize(total, threads) < threads
    ensures ChunkBegin(total, threads, t) <= i < ChunkEnd(total, threads, t)
        <==> t == i / ChunkSize(total, threads)
  {
    var c := ChunkSize(total, threads);
    DivBounds(i, c);
    var q := i / c;
    assert threads * c == c * threads;
    if q >= threads {
      MulMonotone(threads, q, c);
      assert false;
    }
    if t * c <= i < t * c + c {
      DivUnique(i, c, t);
    }
  }

  lemma DivBounds(i: nat, c: nat)
    requires c > 0
    ensures (i / c) * c <= i < (i / c) * c + c
  {
    assert i == (i / c) * c + i % c;
  }

  /** The only t whose chunk [t * c, t * c + c) holds i is i / c. */
  lemma DivUnique(i: nat, c: nat, t: nat)
    requires c > 0 && t * c <= i < t * c + c
    ensures t == i / c
  {
    var q := i / c;
    DivBounds(i, c);
    assert (t + 1) * c == t * c + c;
    assert (q + 1) * c == q * c + c;
    if t < q {
      MulMonotone(t + 1, q, c);
    } else if t > q {
      MulMonotone(q + 1, t, c);
    }
  }

  /** One step of the chunk loop: a chunk that starts before the end runs up
      to the next chunk's start (or the end) and is not empty; a chunk that
      starts at or past the end is empty and so is every later one. */
  lemma ChunkStep(total: nat, threads: nat, t: nat)
    requires threads >= 1
    ensures var c := ChunkSize(total, threads);
      var b := t * c;
      var e := Min(b + c, total);
      && (b < total ==> Min(t * c, total) == b && e == Min((t + 1) * c, total) && b < e)
      && (b >= total ==> Min(t * c, total) == total && Min((t + 1) * c, total) == total && e <= b)
  {
    var c := ChunkSize(total, threads);
    assert (t + 1) * c == t * c + c;
  }

  /** Relaxing chunk t after the chunks before it covers the edges up to
      the next chunk's start; an empty chunk covers nothing new. */
  lemma NextChunk(env: Env, cur: int, gCur: nat, edges: seq<Edge>, threads: nat, t: nat, r: Frontier, fr: Frontier)
    requires threads >= 1
    requires r == RelaxRange(env, cur, gCur, edges, 0, Min(t * ChunkSize(|edges|, threads), |edges|), fr)
    ensures var c := ChunkSize(|edges|, threads);
      var b := t * c;
      var e := Min(b + c, |edges|);
      && RelaxRange(env, cur, gCur, edges, b, e, r) == RelaxRange(env, cur, gCur, edges, 0, Min((t + 1) * c, |edges|), fr)
      && (b >= e ==> r == RelaxRange(env, cur, gCur, edges, 0, Min((t + 1) * c, |edges|), fr))
  {
    var c := ChunkSize(|edges|, threads);
    ChunkStep(|edges|, threads, t);
    if t * c < |edges| {
      RelaxRangeSplit(env, cur, gCur, edges, 0, t * c, Min(t * c + c, |edges|), fr);
    }
  }

  lemma MulMonotone(a: nat, b: nat, c: nat)
    requires a <= b
    ensures a * c <= b * c
  {
  }

  /** The body of the drivers' chunk loop for thread t: compute the chunk
      and relax it, unless it is empty and skipEmpty. */
  method RunChunk(env: Env, cur: int, gCur: nat, edges: seq<Edge>, threads: nat, t: nat, skipEmpty: bool,
                  r: Frontier, ghost fr: Frontier)
    returns (r': Frontier)
    requires threads >= 1
    requires r == RelaxRange(env, cur, gCur, edges, 0, Min(t * ChunkSize(|edges|, threads), |edges|), fr)
    ensures r' == RelaxRange(env, cur, gCur, edges, 0, Min((t + 1) * ChunkSize(|edges|, threads), |edges|), fr)
  {
    var chunk := ChunkSize(|edges|, threads);
    var begin := t * chunk;
    var end := Min(begin + chunk, |edges|);
    NextChunk(env, cur, gCur, edges, threads, t, r, fr);
    r' := r;
    if !(skipEmpty && begin >= end) {
      r' := NeighborSearchTask(env, edges, begin, end, gCur, cur, r);
    }
  }

  /** The parallel expansion of one popped node: each thread's chunk
      relaxed in thread order, empty chunks skipped when skipEmpty (the
      thread pool) and handed to a task that does nothing otherwise (the
      thread vector). It has the same effect as relaxing all edges in order,
      so every edge is relaxed exactly once. */
  method ExpandInChunks(env: Env, cur: int, gCur: nat, edges: seq<Edge>, threads: nat, skipEmpty: bool, fr: Frontier)
    returns (r: Frontier)
    requires threads >= 1
    ensures r == RelaxRange(env, cur, gCur, edges, 0, |edges|, fr)
  {
    var total := |edges|;
    var chunk := ChunkSize(total, threads);
    r := fr;
    for t := 0 to threads
      invariant r == RelaxRange(env, cur, gCur, edges, 0, Min(t * chunk, total), fr)
    {
      r := RunChunk(env, cur, gCur, edges, threads, t, skipEmpty, r, fr);
    }
    assert threads * chunk == chunk * threads;
  }
}
