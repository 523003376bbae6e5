/**
 * The part of the graph container the modelled algorithms read: vertices are the
 * indices 0 .. NumVertices() - 1, every vertex has a list of out-edges and a list of
 * in-edges in the container's iteration order, and every edge has an index
 * (`g.edge_index`) that keys edge property maps.
 */
module Graphs {
  import opened NumPy


  /** One entry of an adjacency list: the edge's index and the vertex at its other end. */
  datatype Arc = Arc(edge: nat, other: nat)

  /**
   * `outArcs[v]` lists `v.out_edges()` with `other` the edge's target; `inArcs[v]`
   * lists `v.in_edges()` with `other` the edge's source. For an undirected graph
   * `out_edges()` lists every edge incident to `v`, with `other` the far end.
   */
  datatype Graph = Graph(directed: bool, outArcs: seq<seq<Arc>>, inArcs: seq<seq<Arc>>)
  {
    function NumVertices(): nat { |outArcs| }

    /** Both adjacency tables cover the same vertices and every arc ends at a vertex. */
    ghost predicate Valid()
    {
      |inArcs| == |outArcs| &&
      (forall v, j :: 0 <= v < |outArcs| && 0 <= j < |outArcs[v]| ==> outArcs[v][j].other < |outArcs|) &&
      (forall v, j :: 0 <= v < |inArcs| && 0 <= j < |inArcs[v]| ==> inArcs[v][j].other < |outArcs|)
    }

    /** Every edge index is below `m`, so an edge property array of length `m` covers them. */
    ghost predicate EdgesBelow(m: nat)
    {
      (forall v, j :: 0 <= v < |outArcs| && 0 <= j < |outArcs[v]| ==> outArcs[v][j].edge < m) &&
      (forall v, j :: 0 <= v < |inArcs| && 0 <= j < |inArcs[v]| ==> inArcs[v][j].edge < m)
    }
  }

  /**
   * An edge property map of an integer value type (`bool`, `int16_t`, `int32_t` or
   * `int64_t`): `values[e]` is the value at edge index `e`, and every value lies in
   * the type's range `lo .. hi` (for `int32_t`, -2^31 .. 2^31 - 1), which fits in
   * numpy's 64-bit default integer.
   */
  datatype IntEdgeMap = IntEdgeMap(values: seq<int>, lo: int, hi: int)
  {
    ghost predicate Valid()
    {
      IntMin <= lo <= hi <= IntMax &&
      forall e :: 0 <= e < |values| ==> lo <= values[e] <= hi
    }
  }
}
