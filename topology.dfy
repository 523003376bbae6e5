/**
 * The algorithms that graph-tool's topology wrappers run themselves, around the
 * native library calls: rebuilding a shortest path from a predecessor map,
 * marking a mapped subgraph in two boolean masks, and labelling the largest
 * component from the component labels and their histogram.
 */
module Topology {
  import opened Wrappers
  import opened NumPy
  import opened Graphs

  // ---------------------------------------------------------------------------
  // shortest_path: walking the predecessor map back from the target
  // ---------------------------------------------------------------------------

  /** A path: the vertices from source to target and the edge chosen between each pair. */
  datatype Path = Path(vertices: seq<nat>, edges: seq<Option<nat>>)

  /**
   * The ValueErrors `shortest_path` lets through: `max()` of an empty weight array,
   * and `g.vertex` of a predecessor value that is not a vertex index.
   */
  datatype PathError = Reduction(cause: Error) | InvalidVertex(index: int)

  /**
   * The value reached from `v` by following the predecessor map `k` times. The walk
   * stays put at a value that is not a vertex, where `g.vertex` would raise.
   */
  ghost function PredPow(pred: seq<int>, v: int, k: nat): int
    decreases k
  {
    if k == 0 || !(0 <= v < |pred|) then v else PredPow(pred, pred[v], k - 1)
  }

  /** Following the predecessor map from `target` eventually arrives at `source`. */
  ghost predicate Reaches(pred: seq<int>, target: int, source: int)
  {
    exists k: nat :: PredPow(pred, target, k) == source
  }

  /**
   * Following the predecessor map from `target` eventually arrives at `source` or at
   * a value that is not a vertex: the walk of `shortest_path` then returns or raises.
   */
  ghost predicate WalkEnds(pred: seq<int>, target: int, source: int)
  {
    exists k: nat :: PredPow(pred, target, k) == source || !(0 <= PredPow(pred, target, k) < |pred|)
  }

  /** One more step of the walk is one more look-up, unless the walk already left the vertices. */
  lemma {:induction false} PredPowStep(pred: seq<int>, v: int, m: nat)
    decreases m
    ensures PredPow(pred, v, m + 1) ==
      var u := PredPow(pred, v, m); if 0 <= u < |pred| then pred[u] else u
  {
    if m > 0 && 0 <= v < |pred| {
      PredPowStep(pred, pred[v], m - 1);
    }
  }

  /** Walking `a + b` steps is walking `a` steps and then `b` more. */
  lemma {:induction false} PredPowAdd(pred: seq<int>, v: int, a: nat, b: nat)
    decreases a
    ensures PredPow(pred, v, a + b) == PredPow(pred, PredPow(pred, v, a), b)
  {
    if a > 0 && 0 <= v < |pred| {
      PredPowAdd(pred, pred[v], a - 1, b);
    }
  }

  /**
   * `vs` runs from `source` to `target`, each vertex is the predecessor of the next,
   * and `source` occurs only at the front: the walk stops the first time it gets there.
   */
  ghost predicate IsPredChain(pred: seq<int>, source: nat, target: nat, vs: seq<nat>)
  {
    |vs| > 0 && vs[0] == source && vs[|vs| - 1] == target &&
    (forall i :: 0 <= i < |vs| ==> vs[i] < |pred|) &&
    (forall i :: 0 <= i < |vs| - 1 ==> vs[i] == pred[vs[i + 1]]) &&
    (forall i :: 0 < i < |vs| ==> vs[i] != source)
  }

  /** The arcs `shortest_path` scans at `v`: in-edges when directed, out-edges otherwise. */
  function Scanned(g: Graph, v: nat): seq<Arc>
    requires v < g.NumVertices() && |g.inArcs| == |g.outArcs|
  {
    if g.directed then g.inArcs[v] else g.outArcs[v]
  }

  /** Every scanned edge has a weight. */
  ghost predicate Weighted(arcs: seq<Arc>, weights: Option<seq<int>>)
  {
    weights.Some? ==> forall i :: 0 <= i < |arcs| ==> arcs[i].edge < |weights.value|
  }

  /** No scanned arc comes from `p`. */
  ghost predicate NoArcFrom(arcs: seq<Arc>, p: nat)
  {
    forall i :: 0 <= i < |arcs| ==> arcs[i].other != p
  }

  /**
   * Arc `j` of `arcs` is the one the edge search settles on when looking for `p`
   * with its running minimum started at `bound`: without weights the first arc from
   * `p`; with weights an arc from `p` lighter than `bound` and of least weight among
   * the arcs from `p`, the first among arcs of that weight.
   */
  ghost predicate SelectsArc(arcs: seq<Arc>, p: nat, weights: Option<seq<int>>, bound: int, j: int)
    requires Weighted(arcs, weights)
  {
    0 <= j < |arcs| && arcs[j].other == p &&
    if weights.None? then
      forall i :: 0 <= i < j ==> arcs[i].other != p
    else
      weights.value[arcs[j].edge] < bound &&
      forall i :: 0 <= i < |arcs| && arcs[i].other == p ==>
        weights.value[arcs[j].edge] <= weights.value[arcs[i].edge] &&
        (i < j ==> weights.value[arcs[j].edge] < weights.value[arcs[i].edge])
  }

  /**
   * `pe` is the edge search's answer. It is `None` exactly when no arc from `p` gets
   * below the starting minimum: without weights when there is no arc from `p`, with
   * weights when every arc from `p` weighs at least `bound`.
   */
  ghost predicate Selected(arcs: seq<Arc>, p: nat, weights: Option<seq<int>>, bound: int, pe: Option<nat>)
    requires Weighted(arcs, weights)
  {
    if pe.None? then
      forall i :: 0 <= i < |arcs| && arcs[i].other == p ==> weights.Some? && weights.value[arcs[i].edge] >= bound
    else exists j :: SelectsArc(arcs, p, weights, bound, j) && arcs[j].edge == pe.value
  }

  /** `pe` is what the edge search at `v` finds for the predecessor `p`. */
  ghost predicate StepFollows(g: Graph, weights: Option<seq<int>>, bound: int, p: nat, v: nat, pe: Option<nat>)
    requires g.Valid()
  {
    v < g.NumVertices() && Weighted(Scanned(g, v), weights) && Selected(Scanned(g, v), p, weights, bound, pe)
  }

  /** The edges of `path` follow its vertices: one edge search per step, at each vertex for its predecessor. */
  ghost predicate EdgesFollow(g: Graph, weights: Option<seq<int>>, bound: int, path: Path)
    requires g.Valid()
  {
    |path.edges| == |path.vertices| - 1 &&
    forall i :: 0 <= i < |path.edges| ==>
      StepFollows(g, weights, bound, path.vertices[i], path.vertices[i + 1], path.edges[i])
  }

  /** The weight values, when weights are given. */
  function Values(weights: Option<IntEdgeMap>): Option<seq<int>>
  {
    if weights.None? then None else Some(weights.value.values)
  }

  /**
   * `max_w = weights.a.max() + 1`: numpy 1.x adds the Python `int` 1 to the scalar
   * `max()` in its 64-bit default integer type, whatever the map's integer value type.
   */
  function Sentinel(weights: Option<IntEdgeMap>): int
    requires weights.Some? ==> weights.value.Valid() && |weights.value.values| > 0
  {
    if weights.None? then 0
    else ScalarIncrement(Max(weights.value.values), IntMin, IntMax)
  }

  /** The largest weight is the largest 64-bit integer, so `max_w` wraps around. */
  ghost predicate SentinelWraps(weights: Option<IntEdgeMap>)
  {
    weights.Some? && |weights.value.values| > 0 && Max(weights.value.values) == IntMax
  }

  /**
   * The inner loop of `shortest_path`: scan `arcs` for an edge whose other end is `p`.
   * With weights it keeps the arc whose weight is strictly below the best so far,
   * starting from `bound`; without weights it stops at the first match.
   */
  method SelectEdge(arcs: seq<Arc>, p: nat, weights: Option<seq<int>>, bound: int) returns (pe: Option<nat>)
    requires Weighted(arcs, weights)
    ensures Selected(arcs, p, weights, bound, pe)
  {
    var minW := bound;
    pe := None;
    ghost var best := 0;
    var i := 0;
    while i < |arcs|
      invariant 0 <= i <= |arcs|
      invariant pe.None? ==> minW == bound
      invariant pe.None? ==>
        forall i' :: 0 <= i' < i && arcs[i'].other == p ==> weights.Some? && weights.value[arcs[i'].edge] >= bound
      invariant pe.Some? ==> best < i && arcs[best].other == p && pe.value == arcs[best].edge
      invariant weights.None? ==> pe.None?
      invariant weights.Some? && pe.Some? ==>
        minW == weights.value[arcs[best].edge] && minW < bound &&
        forall i' :: 0 <= i' < i && arcs[i'].other == p ==>
          minW <= weights.value[arcs[i'].edge] && (i' < best ==> minW < weights.value[arcs[i'].edge])
    {
      var s := arcs[i].other;
      if s == p {
        if weights.Some? {
          if weights.value[arcs[i].edge] < minW {
            minW := weights.value[arcs[i].edge];
            pe := Some(arcs[i].edge);
            best := i;
          }
        } else {
          pe := Some(arcs[i].edge);
          best := i;
          break;
        }
      }
      i := i + 1;
    }
    if pe.Some? {
      assert SelectsArc(arcs, p, weights, bound, best);
    }
  }

  /**
   * What the starting minimum does to the edge search. When every scanned weight is
   * below it, the search finds an edge exactly when some arc comes from `p`; when it
   * is at most every scanned weight, the search finds nothing.
   */
  lemma BoundEffect(arcs: seq<Arc>, p: nat, weights: Option<seq<int>>, bound: int, pe: Option<nat>)
    requires Weighted(arcs, weights) && Selected(arcs, p, weights, bound, pe)
    ensures (weights.None? || forall i :: 0 <= i < |arcs| ==> weights.value[arcs[i].edge] < bound) ==>
      (pe.None? <==> NoArcFrom(arcs, p))
    ensures weights.Some? && (forall i :: 0 <= i < |arcs| ==> bound <= weights.value[arcs[i].edge]) ==> pe.None?
  {
    if pe.Some? {
      var j :| SelectsArc(arcs, p, weights, bound, j) && arcs[j].edge == pe.value;
      assert arcs[j].other == p;
    }
  }

  /**
   * `vs` is the walk so far, read back to front: `vs[i]` is `target` after
   * `|vs| - 1 - i` look-ups, every vertex on it is a vertex, and only its newest
   * vertex `vs[0]` may be `source`.
   */
  ghost predicate WalkSoFar(pred: seq<int>, source: nat, target: nat, vs: seq<nat>)
  {
    |vs| > 0 && vs[|vs| - 1] == target &&
    (forall i :: 0 <= i < |vs| ==> vs[i] == PredPow(pred, target, |vs| - 1 - i)) &&
    (forall i :: 0 <= i < |vs| ==> vs[i] < |pred|) &&
    (forall i :: 0 <= i < |vs| - 1 ==> vs[i] == pred[vs[i + 1]]) &&
    (forall i :: 0 < i < |vs| ==> vs[i] != source)
  }

  /** One more look-up from a newest vertex other than `source` extends the walk. */
  lemma WalkStep(pred: seq<int>, source: nat, target: nat, vs: seq<nat>)
    requires WalkSoFar(pred, source, target, vs) && vs[0] != source && 0 <= pred[vs[0]] < |pred|
    ensures WalkSoFar(pred, source, target, [pred[vs[0]] as nat] + vs)
  {
    PredPowStep(pred, target, |vs| - 1);
  }

  /** When the newest vertex's predecessor is not a vertex, the walk never meets `source`. */
  lemma WalkMissesSource(pred: seq<int>, source: nat, target: nat, vs: seq<nat>)
    requires source < |pred| && WalkSoFar(pred, source, target, vs) && vs[0] != source
    requires !(0 <= pred[vs[0]] < |pred|)
    ensures PredPow(pred, target, |vs|) == pred[vs[0]]
    ensures !Reaches(pred, target, source)
  {
    PredPowStep(pred, target, |vs| - 1);
    forall j: nat ensures PredPow(pred, target, j) != source {
      if j < |vs| {
        assert vs[|vs| - 1 - j] == PredPow(pred, target, j);
      } else {
        PredPowAdd(pred, target, |vs|, j - |vs|);
      }
    }
  }

  /** An edge search at the newest vertex of a followed path extends it by one step. */
  lemma FollowStep(g: Graph, weights: Option<seq<int>>, bound: int, path: Path, p: nat, pe: Option<nat>)
    requires g.Valid() && |path.vertices| > 0 && EdgesFollow(g, weights, bound, path)
    requires StepFollows(g, weights, bound, p, path.vertices[0], pe)
    ensures EdgesFollow(g, weights, bound, Path([p] + path.vertices, [pe] + path.edges))
  {
  }

  /**
   * The `while v != source` loop of `shortest_path`, with the starting minimum
   * `bound` already computed: it ends at `source`, or raises at the first
   * predecessor value that is not a vertex.
   */
  method WalkBack(g: Graph, source: nat, target: nat, weights: Option<seq<int>>, bound: int, pred: seq<int>)
    returns (r: Result<Path, PathError>)
    requires g.Valid() && source < g.NumVertices() && target < g.NumVertices()
    requires |pred| == g.NumVertices()
    requires weights.Some? ==> g.EdgesBelow(|weights.value|)
    requires WalkEnds(pred, target, source)
    ensures Reaches(pred, target, source) ==>
      r.Ok? && IsPredChain(pred, source, target, r.value.vertices) && EdgesFollow(g, weights, bound, r.value)
    ensures !Reaches(pred, target, source) ==>
      r.Err? && r.error.InvalidVertex? && !(0 <= r.error.index < |pred|) &&
      exists j: nat :: PredPow(pred, target, j) == r.error.index
  {
    var vlist: seq<nat> := [target];
    var elist: seq<Option<nat>> := [];
    var v: nat := target;
    ghost var k: nat :| PredPow(pred, target, k) == source || !(0 <= PredPow(pred, target, k) < |pred|);
    while v != source
      invariant WalkSoFar(pred, source, target, vlist)
      invariant v < g.NumVertices() && vlist[0] == v
      invariant PredPow(pred, v, k) == source || !(0 <= PredPow(pred, v, k) < |pred|)
      invariant EdgesFollow(g, weights, bound, Path(vlist, elist))
      decreases k
    {
      assert k > 0 && PredPow(pred, v, k) == PredPow(pred, pred[v], k - 1);
      if !(0 <= pred[v] < |pred|) {
        WalkMissesSource(pred, source, target, vlist);
        return Err(InvalidVertex(pred[v]));
      }
      var p: nat := pred[v];
      assert Weighted(Scanned(g, v), weights);
      var pe := SelectEdge(Scanned(g, v), p, weights, bound);
      WalkStep(pred, source, target, vlist);
      FollowStep(g, weights, bound, Path(vlist, elist), p, pe);
      elist := [pe] + elist;
      vlist := [p] + vlist;
      v := p;
      k := k - 1;
    }
    assert PredPow(pred, target, |vlist| - 1) == source;
    return Ok(Path(vlist, elist));
  }

  /**
   * `shortest_path(g, source, target, weights, pred_map)` with the predecessor map
   * given. A target that is its own predecessor has no path; otherwise the loop walks
   * from `target` back to `source`, putting each predecessor and the edge to it at the
   * front of the lists, and `g.vertex` raises at the first predecessor that is not a
   * vertex. The starting minimum is `max(weights) + 1` in numpy's 64-bit integer type:
   * numpy refuses to compute it for an empty weight array, and it wraps around to the
   * smallest 64-bit value when some weight is the largest one, after which no edge is
   * ever chosen.
   */
  method ShortestPath(g: Graph, source: nat, target: nat, weights: Option<IntEdgeMap>, pred: seq<int>)
    returns (r: Result<Path, PathError>)
    requires g.Valid() && source < g.NumVertices() && target < g.NumVertices()
    requires |pred| == g.NumVertices()
    requires weights.Some? ==> weights.value.Valid() && g.EdgesBelow(|weights.value.values|)
    requires pred[target] != target ==> WalkEnds(pred, target, source)
    ensures pred[target] == target ==> r == Ok(Path([], []))
    ensures pred[target] != target && weights.Some? && |weights.value.values| == 0 ==>
      r == Err(Reduction(ZeroSizeReduction))
    ensures pred[target] != target && (weights.None? || |weights.value.values| > 0) && Reaches(pred, target, source) ==>
      r.Ok? && IsPredChain(pred, source, target, r.value.vertices) &&
      EdgesFollow(g, Values(weights), Sentinel(weights), r.value)
    ensures pred[target] != target && (weights.None? || |weights.value.values| > 0) && !Reaches(pred, target, source) ==>
      r.Err? && r.error.InvalidVertex? && !(0 <= r.error.index < |pred|) &&
      exists j: nat :: PredPow(pred, target, j) == r.error.index
    ensures r.Ok? && !SentinelWraps(weights) ==>
      forall i :: 0 <= i < |r.value.edges| ==>
        (r.value.edges[i].None? <==> NoArcFrom(Scanned(g, r.value.vertices[i + 1]), r.value.vertices[i]))
    ensures r.Ok? && SentinelWraps(weights) ==>
      forall i :: 0 <= i < |r.value.edges| ==> r.value.edges[i].None?
  {
    if pred[target] == target {
      return Ok(Path([], []));
    }
    var maxW := 0;
    if weights.Some? {
      if |weights.value.values| == 0 {
        return Err(Reduction(ZeroSizeReduction));
      }
      maxW := ScalarIncrement(Max(weights.value.values), IntMin, IntMax);
    }
    assert maxW == Sentinel(weights);
    r := WalkBack(g, source, target, Values(weights), maxW, pred);
    if r.Ok? {
      NoneEdges(g, weights, r.value);
    }
  }

  /**
   * Which edges of a followed path are `None`: those joining no scanned arc when
   * `max_w` does not wrap, and all of them when it does.
   */
  lemma NoneEdges(g: Graph, weights: Option<IntEdgeMap>, path: Path)
    requires g.Valid()
    requires weights.Some? ==> weights.value.Valid() && |weights.value.values| > 0 && g.EdgesBelow(|weights.value.values|)
    requires forall i :: 0 <= i < |path.vertices| ==> path.vertices[i] < g.NumVertices()
    requires EdgesFollow(g, Values(weights), Sentinel(weights), path)
    ensures !SentinelWraps(weights) ==>
      forall i :: 0 <= i < |path.edges| ==>
        (path.edges[i].None? <==> NoArcFrom(Scanned(g, path.vertices[i + 1]), path.vertices[i]))
    ensures SentinelWraps(weights) ==>
      forall i :: 0 <= i < |path.edges| ==> path.edges[i].None?
  {
    var vlist, elist, maxW := path.vertices, path.edges, Sentinel(weights);
    forall i | 0 <= i < |elist|
      ensures !SentinelWraps(weights) ==> (elist[i].None? <==> NoArcFrom(Scanned(g, vlist[i + 1]), vlist[i]))
      ensures SentinelWraps(weights) ==> elist[i].None?
    {
      var arcs := Scanned(g, vlist[i + 1]);
      assert StepFollows(g, Values(weights), maxW, vlist[i], vlist[i + 1], elist[i]);
      if weights.Some? {
        var w := weights.value;
        forall j | 0 <= j < |arcs|
          ensures IntMin <= w.values[arcs[j].edge] <= Max(w.values)
        {
          assert arcs[j].edge < |w.values|;
        }
      }
      BoundEffect(arcs, vlist[i], Values(weights), maxW, elist[i]);
    }
  }

  /** A chain ending at `target` agrees with any other one on its last `n` vertices. */
  lemma {:induction false} ChainSuffixesAgree(pred: seq<int>, source: nat, target: nat, a: seq<nat>, b: seq<nat>, n: nat)
    requires IsPredChain(pred, source, target, a) && IsPredChain(pred, source, target, b)
    requires n <= |a| && n <= |b|
    ensures forall i :: |a| - n <= i < |a| ==> a[i] == b[i + |b| - |a|]
  {
    if n > 1 {
      ChainSuffixesAgree(pred, source, target, a, b, n - 1);
      assert a[|a| - (n - 1)] == b[|b| - (n - 1)];
      assert a[|a| - n] == pred[a[|a| - n + 1]];
    }
  }

  /** The chain `shortest_path` returns is the only one its postcondition allows. */
  lemma PredChainUnique(pred: seq<int>, source: nat, target: nat, a: seq<nat>, b: seq<nat>)
    requires IsPredChain(pred, source, target, a) && IsPredChain(pred, source, target, b)
    ensures a == b
  {
    var n := if |a| < |b| then |a| else |b|;
    ChainSuffixesAgree(pred, source, target, a, b, n);
    assert a[|a| - n] == b[|b| - n];
    assert |a| == |b|;
  }

  /** The edge search is deterministic: its postcondition fixes the edge it returns. */
  lemma SelectionUnique(arcs: seq<Arc>, p: nat, weights: Option<seq<int>>, bound: int, x: Option<nat>, y: Option<nat>)
    requires Weighted(arcs, weights)
    requires Selected(arcs, p, weights, bound, x) && Selected(arcs, p, weights, bound, y)
    ensures x == y
  {
    if x.Some? && y.Some? {
      var a :| SelectsArc(arcs, p, weights, bound, a) && arcs[a].edge == x.value;
      var b :| SelectsArc(arcs, p, weights, bound, b) && arcs[b].edge == y.value;
      assert a == b;
    }
  }

  // ---------------------------------------------------------------------------
  // mark_subgraph: the image of a subgraph under a vertex and an edge map
  // ---------------------------------------------------------------------------

  /** Some vertex of the subgraph maps to `w` under `vmap`, among the first `k`. */
  ghost predicate VertexImageUpTo(vmap: seq<nat>, k: int, w: nat)
  {
    exists v :: 0 <= v < k && v < |vmap| && vmap[v] == w
  }

  /** `x` is the index of one of the arcs `arcs[..j]`. */
  ghost predicate ArcIndexAmong(arcs: seq<Arc>, j: int, x: nat)
  {
    exists i :: 0 <= i < j && i < |arcs| && arcs[i].edge == x
  }

  /** `x` is the index of an out-edge of `w` in `g`. */
  ghost predicate OutEdgeOf(g: Graph, w: nat, x: nat)
  {
    w < |g.outArcs| && ArcIndexAmong(g.outArcs[w], |g.outArcs[w]|, x)
  }

  /** Some out-edge of subgraph vertex `v` maps to edge index `x` under `emap`. */
  ghost predicate MatchedBy(sub: Graph, emap: seq<int>, v: nat, x: nat)
  {
    v < |sub.outArcs| &&
    exists i :: 0 <= i < |sub.outArcs[v]| && sub.outArcs[v][i].edge < |emap| && emap[sub.outArcs[v][i].edge] == x
  }

  /** Among the first `k` subgraph vertices, one maps to a vertex of which `x` is an out-edge matched by `emap`. */
  ghost predicate EdgeImageUpTo(g: Graph, sub: Graph, vmap: seq<nat>, emap: seq<int>, k: int, x: nat)
  {
    exists v :: 0 <= v < k && v < |vmap| && OutEdgeOf(g, vmap[v], x) && MatchedBy(sub, emap, v, x)
  }

  /** The arguments `mark_subgraph` can use without raising: maps into `g` and masks sized for `g`. */
  ghost predicate MarkArgs(g: Graph, sub: Graph, vmap: seq<nat>, emap: seq<int>, nv: nat, ne: nat)
  {
    g.Valid() && sub.Valid() &&
    |vmap| == sub.NumVertices() && (forall v :: 0 <= v < |vmap| ==> vmap[v] < g.NumVertices()) &&
    sub.EdgesBelow(|emap|) &&
    nv == g.NumVertices() && g.EdgesBelow(ne)
  }

  /**
   * `mark_subgraph(g, sub, vmap, emap, vmask, emask)`: clear both masks, then mark every
   * image vertex `vmap[v]` and every out-edge of it whose index `emap` assigns to some
   * out-edge of `v`. What the masks held before does not matter.
   */
  method MarkSubgraph(g: Graph, sub: Graph, vmap: seq<nat>, emap: seq<int>, vmask: array<bool>, emask: array<bool>)
    requires MarkArgs(g, sub, vmap, emap, vmask.Length, emask.Length)
    requires vmask != emask
    modifies vmask, emask
    ensures forall w :: 0 <= w < vmask.Length ==> (vmask[w] <==> VertexImageUpTo(vmap, |vmap|, w))
    ensures forall x :: 0 <= x < emask.Length ==> (emask[x] <==> EdgeImageUpTo(g, sub, vmap, emap, |vmap|, x))
  {
    forall w | 0 <= w < vmask.Length {
      vmask[w] := false;
    }
    forall x | 0 <= x < emask.Length {
      emask[x] := false;
    }
    var v := 0;
    while v < |vmap|
      invariant 0 <= v <= |vmap|
      invariant forall w :: 0 <= w < vmask.Length ==> (vmask[w] <==> VertexImageUpTo(vmap, v, w))
      invariant forall x :: 0 <= x < emask.Length ==> (emask[x] <==> EdgeImageUpTo(g, sub, vmap, emap, v, x))
    {
      var w := vmap[v];
      vmask[w] := true;
      MarkOutEdges(g, sub, vmap, emap, v, emask);
      forall w' | 0 <= w' < vmask.Length
        ensures vmask[w'] <==> VertexImageUpTo(vmap, v + 1, w')
      {
        if vmask[w'] && w' != w {
          var u :| 0 <= u < v && u < |vmap| && vmap[u] == w';
        }
      }
      v := v + 1;
    }
  }

  /**
   * The two inner loops of `mark_subgraph` for subgraph vertex `v` and its image
   * `w = vmap[v]`: each out-edge `ew` of `w` is marked as soon as one out-edge `ev`
   * of `v` has `emap[ev] == edge_index[ew]`, and the search for `ev` then stops.
   */
  method MarkOutEdges(g: Graph, sub: Graph, vmap: seq<nat>, emap: seq<int>, v: nat, emask: array<bool>)
    requires MarkArgs(g, sub, vmap, emap, g.NumVertices(), emask.Length)
    requires v < |vmap|
    modifies emask
    ensures forall x :: 0 <= x < emask.Length ==>
      (emask[x] <==> old(emask[x]) || (OutEdgeOf(g, vmap[v], x) && MatchedBy(sub, emap, v, x)))
    ensures forall x :: 0 <= x < emask.Length ==>
      (old(emask[x] <==> EdgeImageUpTo(g, sub, vmap, emap, v, x)) ==>
       (emask[x] <==> EdgeImageUpTo(g, sub, vmap, emap, v + 1, x)))
  {
    var w := vmap[v];
    var outW := g.outArcs[w];
    var outV := sub.outArcs[v];
    var j := 0;
    while j < |outW|
      invariant 0 <= j <= |outW|
      invariant forall x :: 0 <= x < emask.Length ==>
        (emask[x] <==> old(emask[x]) || (ArcIndexAmong(outW, j, x) && MatchedBy(sub, emap, v, x)))
    {
      var x := outW[j].edge;
      assert x < emask.Length;
      var i := 0;
      while i < |outV|
        invariant 0 <= i <= |outV|
        invariant forall i' :: 0 <= i' < i ==> emap[outV[i'].edge] != x
        invariant forall y :: 0 <= y < emask.Length ==>
          (emask[y] <==> old(emask[y]) || (ArcIndexAmong(outW, j, y) && MatchedBy(sub, emap, v, y)))
      {
        if emap[outV[i].edge] == x {
          emask[x] := true;
          break;
        }
        i := i + 1;
      }
      assert outW[j].edge == x;
      forall y | 0 <= y < emask.Length
        ensures emask[y] <==> old(emask[y]) || (ArcIndexAmong(outW, j + 1, y) && MatchedBy(sub, emap, v, y))
      {
        if ArcIndexAmong(outW, j + 1, y) && !ArcIndexAmong(outW, j, y) {
          assert y == x;
        }
      }
      j := j + 1;
    }
    forall x | 0 <= x < emask.Length
      ensures old(emask[x] <==> EdgeImageUpTo(g, sub, vmap, emap, v, x)) ==>
        (emask[x] <==> EdgeImageUpTo(g, sub, vmap, emap, v + 1, x))
    {
      if EdgeImageUpTo(g, sub, vmap, emap, v + 1, x) && !(OutEdgeOf(g, vmap[v], x) && MatchedBy(sub, emap, v, x)) {
        var u :| 0 <= u < v + 1 && u < |vmap| && OutEdgeOf(g, vmap[u], x) && MatchedBy(sub, emap, u, x);
        assert u < v;
      }
    }
  }

  /** `mark_subgraph(g, sub, vmap, emap)` with no masks given: two new property maps are marked. */
  method MarkSubgraphNew(g: Graph, sub: Graph, vmap: seq<nat>, emap: seq<int>, ne: nat)
    returns (vmask: array<bool>, emask: array<bool>)
    requires MarkArgs(g, sub, vmap, emap, g.NumVertices(), ne)
    ensures fresh(vmask) && fresh(emask) && vmask.Length == g.NumVertices() && emask.Length == ne
    ensures forall w :: 0 <= w < vmask.Length ==> (vmask[w] <==> VertexImageUpTo(vmap, |vmap|, w))
    ensures forall x :: 0 <= x < emask.Length ==> (emask[x] <==> EdgeImageUpTo(g, sub, vmap, emap, |vmap|, x))
  {
    vmask := new bool[g.NumVertices()];
    emask := new bool[ne];
    MarkSubgraph(g, sub, vmap, emap, vmask, emask);
  }

  // ---------------------------------------------------------------------------
  // label_largest_component: the vertices whose component label is argmax(h)
  // ---------------------------------------------------------------------------

  /** The graph's vertex filter, as `g.get_vertex_filter()` reports it. */
  datatype VertexFilter = Unfiltered | Filtered(mask: seq<bool>, inverted: bool)

  /** A vertex passes the filter when its mask entry differs from the inversion flag. */
  predicate Passes(f: VertexFilter, v: nat)
    requires f.Filtered? ==> v < |f.mask|
  {
    f.Unfiltered? || f.mask[v] != f.inverted
  }

  /**
   * `label_largest_component(g)` given the component labels `c` and their histogram `h`
   * from `label_components`: a vertex is labelled when its component is the first
   * largest one and, when the graph is filtered, it passes the filter.
   */
  function LabelLargestComponent(c: seq<int>, h: seq<int>, f: VertexFilter): (r: Result<seq<bool>, Error>)
    requires f.Filtered? ==> |f.mask| == |c|
    ensures r.Err? <==> |h| == 0
    ensures r.Err? ==> r.error == ZeroSizeReduction
    ensures r.Ok? ==> |r.value| == |c|
    ensures r.Ok? ==> forall v :: 0 <= v < |c| ==> (r.value[v] <==> IsFirstMax(h, c[v]) && Passes(f, v))
  {
    if |h| == 0 then Err(ZeroSizeReduction)
    else
      var a := ArgMax(h);
      if f.Unfiltered? then Ok(seq(|c|, v requires 0 <= v < |c| => c[v] == a))
      else Ok(seq(|c|, v requires 0 <= v < |c| => c[v] == a && f.mask[v] != f.inverted))
  }

  /** Number of `true` entries. */
  function CountTrue(s: seq<bool>): nat
  {
    if s == [] then 0 else (if s[0] then 1 else 0) + CountTrue(s[1..])
  }

  /** Number of vertices whose label is `k`. */
  function Occurrences(c: seq<int>, k: int): nat
  {
    if c == [] then 0 else (if c[0] == k then 1 else 0) + Occurrences(c[1..], k)
  }

  /** `h` is the histogram of the component labels `c`, as `label_components` returns it. */
  ghost predicate IsHistogram(c: seq<int>, h: seq<int>)
  {
    (forall v :: 0 <= v < |c| ==> 0 <= c[v] < |h|) &&
    (forall k :: 0 <= k < |h| ==> h[k] == Occurrences(c, k))
  }

  /** A mask that selects the vertices with label `k` has as many entries as `k` has occurrences. */
  lemma {:induction false} CountSelected(s: seq<bool>, c: seq<int>, k: int)
    requires |s| == |c| && forall v :: 0 <= v < |c| ==> (s[v] <==> c[v] == k)
    ensures CountTrue(s) == Occurrences(c, k)
  {
    if s != [] {
      CountSelected(s[1..], c[1..], k);
    }
  }

  /** On an unfiltered graph the number of labelled vertices is the size of the largest component. */
  lemma LargestComponentSize(c: seq<int>, h: seq<int>)
    requires IsHistogram(c, h) && |h| > 0
    ensures LabelLargestComponent(c, h, Unfiltered).Ok?
    ensures CountTrue(LabelLargestComponent(c, h, Unfiltered).value) == Max(h)
  {
    var a := ArgMax(h);
    var labels := LabelLargestComponent(c, h, Unfiltered).value;
    forall v | 0 <= v < |c| ensures labels[v] <==> c[v] == a {
      if labels[v] {
        FirstMaxUnique(h, c[v], a);
      }
    }
    CountSelected(labels, c, a);
    ArgMaxIsMax(h);
  }

  /** Number of vertices with label `k` that pass the filter `mask`/`inv`. */
  function FilteredOccurrences(c: seq<int>, mask: seq<bool>, inv: bool, k: int): nat
    requires |mask| == |c|
  {
    if c == [] then 0
    else (if c[0] == k && mask[0] != inv then 1 else 0) + FilteredOccurrences(c[1..], mask[1..], inv, k)
  }

  /**
   * On a filtered graph `label_components` runs on the filtered view: `h` counts only the
   * vertices that pass the filter, and only their labels are component labels. The labels
   * of filtered-out vertices are whatever the new property map holds.
   */
  ghost predicate IsFilteredHistogram(c: seq<int>, h: seq<int>, mask: seq<bool>, inv: bool)
    requires |mask| == |c|
  {
    (forall v :: 0 <= v < |c| && mask[v] != inv ==> 0 <= c[v] < |h|) &&
    (forall k :: 0 <= k < |h| ==> h[k] == FilteredOccurrences(c, mask, inv, k))
  }

  /** A mask that selects the passing vertices with label `k` has as many entries as there are such vertices. */
  lemma {:induction false} CountSelectedFiltered(s: seq<bool>, c: seq<int>, mask: seq<bool>, inv: bool, k: int)
    requires |s| == |c| == |mask|
    requires forall v :: 0 <= v < |c| ==> (s[v] <==> c[v] == k && mask[v] != inv)
    ensures CountTrue(s) == FilteredOccurrences(c, mask, inv, k)
  {
    if s != [] {
      CountSelectedFiltered(s[1..], c[1..], mask[1..], inv, k);
    }
  }

  /**
   * On a filtered graph the number of labelled vertices is the size of the largest
   * component of the filtered view: the filter test drops exactly the vertices the
   * histogram does not count.
   */
  lemma FilteredLargestComponentSize(c: seq<int>, h: seq<int>, mask: seq<bool>, inv: bool)
    requires |mask| == |c| && IsFilteredHistogram(c, h, mask, inv) && |h| > 0
    ensures LabelLargestComponent(c, h, Filtered(mask, inv)).Ok?
    ensures CountTrue(LabelLargestComponent(c, h, Filtered(mask, inv)).value) == Max(h)
  {
    var a := ArgMax(h);
    var labels := LabelLargestComponent(c, h, Filtered(mask, inv)).value;
    forall v | 0 <= v < |c| ensures labels[v] <==> c[v] == a && mask[v] != inv {
      if labels[v] {
        FirstMaxUnique(h, c[v], a);
      }
    }
    CountSelectedFiltered(labels, c, mask, inv, a);
    ArgMaxIsMax(h);
  }
}
