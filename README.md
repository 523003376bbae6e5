# graph-tool: the algorithms written in the Python and binding layers

graph-tool is a Python graph library. Nearly all of its algorithms run in
compiled C++ modules: the Potts-model community detection, modularity and the
condensation graph in `libgraph_tool_community`, and the traversals, searches and
labellings in `libgraph_tool_topology`. The Python functions that call them mostly
pass arguments along. This project models the small algorithms that the Python and
binding layers carry out themselves, and proves what they compute:

- `shortest_path` (topology): starting from the target, follow the predecessor map
  back to the source. At each step, put the predecessor and the edge that links it
  to the current vertex at the front of the lists. With weights, the chosen edge is
  the lightest one, first among ties, found against a `max(weights) + 1` sentinel.
  For a map of an integer value type (`bool`, `int16_t`, `int32_t` or `int64_t`),
  numpy 1.x computes that sentinel in its 64-bit default integer type, whatever the
  map's own width, so it wraps around only when a weight is 2^63 - 1, and then no
  edge is chosen at all. Float maps are not modelled. A predecessor value that is not a vertex makes
  `g.vertex` raise.
  Without weights it is the first matching edge.
- `mark_subgraph` (topology): clear a vertex mask and an edge mask. Then mark the
  image of each subgraph vertex under `vmap`, and each out-edge of that image whose
  index `emap` assigns to some out-edge of the subgraph vertex.
- `label_largest_component` (topology): a vertex is labelled when its component
  label equals `argmax` of the component histogram. On a filtered graph it must
  also pass the vertex filter.
- `vector_equal_compare` / `vector_nequal_compare` (graph_bind.cc): the `__eq__`
  and `__ne__` of the exported vector types.
- `vector_from_list::convertible` / `construct` (graph_bind.cc): the Boost.Python
  converter from a Python list to a `std::vector`.

Files:

- `wrappers.dfy`: `Option` (Python's `None`) and `Result` (a raised exception).
- `numpy.dfy`: the two numpy reductions used, `max()` and `argmax()`. Both raise
  ValueError on a zero-size array; that is `ZeroSizeReduction` here.
- `graphs.dfy`: the graph container as the algorithms read it. Vertices are
  `0 .. n-1`. Each vertex has out-arc and in-arc lists in iteration order. An arc
  holds the edge index and the vertex at the far end. An integer edge property map
  carries the value range of its type.
- `topology.dfy`: `shortest_path`, `mark_subgraph`, `label_largest_component`.
- `graph_bind.dfy`: the comparators and the list-to-vector converter.

`shortest_path` and `mark_subgraph` are modelled as imperative methods with the
source's loops. `mark_subgraph` writes its masks as arrays in place.
`label_largest_component` is a function, since the source applies one elementwise
numpy expression. Python lists and C++ vectors are `seq`. Edge weights are integers
within the range `lo .. hi` of the weight map's value type (`bool`, `int16_t`,
`int32_t` or `int64_t`). The code compares them with `<` and adds the Python `int` 1
to their numpy `max()`. numpy 1.x computes that sum in `np.int_`, which is 64 bits
wide on LP64 platforms, so it wraps from 2^63 - 1 to -2^63 and from nowhere else.
The predecessor map is a sequence of integers with one entry per vertex. Only the
entries along the walk from the target are read.

## Model

| member | source | states |
|---|---|---|
| `NumPy.Max` | src/graph_tool/topology/__init__.py:903 | `weights.a.max()` is an upper bound of every weight and is one of them |
| `NumPy.ScalarIncrement` | src/graph_tool/topology/__init__.py:903 | the `+ 1` of `weights.a.max() + 1` in a fixed-width type holding `lo .. hi` (for numpy 1.x, `np.int_`'s -2^63 .. 2^63 - 1): the result stays in the range and is congruent to `x + 1` modulo the range's size |
| `NumPy.ArgMax` | src/graph_tool/topology/__init__.py:587 | `h.argmax()` is the index of a maximum of `h`, and every earlier entry is strictly smaller (first maximum) |
| `NumPy.FirstMaxUnique` | src/graph_tool/topology/__init__.py:587 | only one index is a first maximum, so `argmax` is fixed by that property |
| `NumPy.ArgMaxIsMax` | src/graph_tool/topology/__init__.py:587 | the entry at `argmax` equals `max` |
| `Topology.SelectEdge` | src/graph_tool/topology/__init__.py:910-922 | the edge search at `v` for predecessor `p`, with its running minimum started at `min_w`. Unweighted, it returns the first arc from `p`, or `None` when there is none. Weighted, it returns `None` exactly when every arc from `p` weighs at least `min_w`. Otherwise it returns an arc from `p` below `min_w` of least weight, with every earlier arc from `p` strictly heavier |
| `Topology.BoundEffect` | src/graph_tool/topology/__init__.py:902-922 | when every scanned weight is below the starting minimum, the search returns `None` exactly when no arc comes from `p`. When the starting minimum is at most every scanned weight, it always returns `None` |
| `Topology.ShortestPath` | src/graph_tool/topology/__init__.py:896-926 | `pred[target] == target` gives `([], [])`. With weights given but an empty weight array, `max()` raises. Otherwise, when the walk from `target` meets `source`, the vertex list runs from `source` to `target`, each vertex is the predecessor of the next, and `source` appears only at the front. There is one edge fewer than vertices. Edge `i` is the edge search's answer at vertex `i+1` for vertex `i`, started at `max_w = max(weights) + 1` computed in 64 bits: in-edges when directed, out-edges otherwise. When the walk does not meet `source`, `g.vertex` raises `InvalidVertex` with a value on the walk that is not a vertex. When `max_w` does not wrap, an edge is `None` exactly when no scanned arc joins the two vertices. When the largest weight is 2^63 - 1, `max_w` wraps and every edge is `None` |
| `Topology.WalkBack` | src/graph_tool/topology/__init__.py:907-926 | the `while v != source` loop: if the walk from `target` meets `source`, the result is the predecessor chain with one edge search per step. Otherwise the result is `InvalidVertex` with a non-vertex value the walk reaches, raised by `g.vertex` at line 909 |
| `Topology.WalkMissesSource` | src/graph_tool/topology/__init__.py:908-909 | once the walk reaches a predecessor value that is not a vertex before meeting `source`, it never meets `source`, so raising there loses no path |
| `Topology.NoneEdges` | src/graph_tool/topology/__init__.py:903-923 | along a path whose edges follow the edge search, an edge is `None` exactly when no scanned arc joins its two vertices if `max_w` does not wrap, and every edge is `None` if it does |
| `Topology.PredChainUnique` | src/graph_tool/topology/__init__.py:907-925 | two vertex lists that both satisfy `shortest_path`'s chain property are equal: the postcondition fixes the path |
| `Topology.ChainSuffixesAgree` | src/graph_tool/topology/__init__.py:907-925 | two predecessor chains that end at `target` agree on their last `n` vertices |
| `Topology.SelectionUnique` | src/graph_tool/topology/__init__.py:913-922 | two answers that both satisfy the edge-search property for the same starting minimum are equal: the ties rule (strict `<`, first kept) makes the choice deterministic |
| `Topology.MarkSubgraph` | src/graph_tool/topology/__init__.py:255-265 | afterwards `vmask[w]` holds iff `w == vmap[v]` for some subgraph vertex `v`. `emask[x]` holds iff `x` is an out-edge index of some `vmap[v]` that `emap` assigns to an out-edge of `v`. Earlier mask contents do not matter, and only the two masks change |
| `Topology.MarkOutEdges` | src/graph_tool/topology/__init__.py:261-265 | for one subgraph vertex `v`, the two inner loops with their `break` OR into `emask` exactly the out-edges of `vmap[v]` that some out-edge of `v` maps to. No other entry changes |
| `Topology.MarkSubgraphNew` | src/graph_tool/topology/__init__.py:250-266 | with no masks given, two new masks sized for `g` are allocated and marked as above |
| `Topology.LabelLargestComponent` | src/graph_tool/topology/__init__.py:583-589 | an empty histogram makes `argmax` raise. Otherwise there is one label per vertex, and `label[v]` holds iff `c[v]` is the first maximum of `h` and, on a filtered graph, `vfilt[v] != inv` |
| `Topology.LargestComponentSize` | src/graph_tool/topology/__init__.py:584-587 | on an unfiltered graph, when `h` is the histogram of `c`, the number of labelled vertices equals `max(h)` |
| `Topology.FilteredLargestComponentSize` | src/graph_tool/topology/__init__.py:584-589 | on a filtered graph, `h` is the histogram of the labels of the passing vertices only, and the labels of filtered-out vertices are arbitrary. The number of labelled vertices is then exactly `max(h)`, because the `vfilt[v] ^ inv` test drops the vertices the histogram does not count |
| `Topology.CountSelectedFiltered` | src/graph_tool/topology/__init__.py:589 | a mask that selects the passing vertices with label `k` has as many true entries as there are such vertices |
| `Topology.CountSelected` | src/graph_tool/topology/__init__.py:587 | a mask that selects the vertices with label `k` has as many true entries as `k` has occurrences in `c` |
| `GraphBind.VectorEqualCompare` | src/graph/graph_bind.cc:101-113 | false whenever the sizes differ. True iff the sizes agree and `v1[i] == v2[i]` at every index |
| `GraphBind.VectorNotEqualCompare` | src/graph/graph_bind.cc:115-120 | true iff the vectors are not elementwise equal: the exact negation of `vector_equal_compare` |
| `GraphBind.ElementwiseEqualIsEquality` | src/graph/graph_bind.cc:101-113 | what `vector_equal_compare` tests is equality of the vectors as values |
| `GraphBind.ElementwiseEqualIsEquivalence` | src/graph/graph_bind.cc:101-113 | that comparison is reflexive, symmetric and transitive |
| `GraphBind.Convertible` | src/graph/graph_bind.cc:70-82 | accepts the list iff every item passes the extraction check |
| `GraphBind.Construct` | src/graph/graph_bind.cc:84-92 | given a list `convertible` accepted, the vector has the list's length and holds each item's extraction, in list order |
| `GraphBind.ConversionOfWrapped` | src/graph/graph_bind.cc:70-92 | a list made by wrapping the elements of `xs`, where extraction undoes the wrapping, is accepted and converts back to exactly `xs` |

## Left out

- Community detection (`community_structure`, `modularity`, `condensation_graph`): the spin annealing, null models, modularity sum and condensation run in `libgraph_tool_community`, which is not part of this model. The Python functions only forward arguments and set defaults, and the native code is stochastic, float-valued and parallel.
- Every `libgraph_tool_topology` call (isomorphism, subgraph isomorphism, spanning trees, dominator trees, topological sort, transitive closure, component and biconnected labelling, distances, planarity): native code, not part of this model. `label_components` is one of them, so `label_largest_component` takes its labels `c` and histogram `h` as inputs.
- `shortest_path` with `pred_map=None`: the predecessor map then comes from the native `shortest_distance`, so the model takes `pred` as an input.
- `Topology.ShortestPath`: requires the walk from `target` to meet `source` or a value that is not a vertex whenever `pred[target] != target`. Otherwise the source's `while` loop never ends.
- `Topology.ShortestPath`: `Graph.vertex` (core.py, which is not part of this model) is taken to raise ValueError for every index outside `0 .. n-1`, negative ones included. That is `InvalidVertex` here.
- `Topology.ShortestPath`: only integer weight maps are modelled, with numpy 1.x promotion on an LP64 platform, where `max() + 1` is computed in 64 bits. Where `np.int_` is 32 bits wide (Windows), an `int32_t` map would wrap at 2^31 - 1, while an `int64_t` map still wraps only at 2^63 - 1. Float weights are not modelled, including `inf` and NaN as the largest weight, since NaN never compares below anything.
- `Topology.ShortestPath`: the lists hold vertex and edge indices rather than descriptor objects. An edge the search does not find is `None`, as in the source.
- `Topology.MarkSubgraph`: requires `vmap` to map into `g` (`g.vertex` raises otherwise) and the masks to be sized for `g`.
- Graph views: `GraphView(g, directed=...)`, the filter push/pop around native calls, and `.a` of a filtered view belong to the graph container. The model sees the graph as the algorithm would iterate it.
- `GraphBind.VectorEqualCompare`: compares elements with the value type's equality. C++ `!=` on `double` makes NaN unequal to itself, which breaks reflexivity; that case is not modelled.
- `GraphBind.Convertible`: the converter is registered for every `vector<T>` parameter, so it can receive an object with no `len` or no integer indexing. `len(o)` and `o[i]` then raise a Python error. The model's input is always a sequence, so that error path is not modelled. The loop's early return at the first failing item cannot be observed in the model, because `extract` has no side effects.
- `GraphBind.Convertible` / `GraphBind.Construct`: Boost.Python's `extract<T>` is a parameter, a total function from list items to `Option<T>`. The converter registration, the handle and borrowing machinery, and the placement-new into Boost's storage are binding plumbing and are not modelled.
- Module registration, exception translation, `LibInfo` getters, pickling globals, the OpenMP switch, numpy wrapping and `pair_to_tuple` in graph_bind.cc are binding plumbing with no algorithm.
