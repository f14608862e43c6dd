# Campus routing: matrix preparation and graph clean-up

This project models, in Dafny, the part of the campus routing script
`src/main.py` that the script itself implements: preparing the per-mode
weight matrices (walking, shuttle, shuttle connection) before they become
graphs, and cleaning up the composed graph before it is handed to a
k-shortest-paths library. The searches themselves (Dijkstra, Yen's
algorithm) and graph construction and composition are calls into networkx
and the YenKSP library and are not part of this model.

Weights are exact `real`s. "No edge" is the plain number 999999
(`Globals.Infinite`), compared by equality exactly as the script does, so a
measured weight of 999999 is treated as a missing edge.

Files and modules:

- `globals.dfy` (`Globals`): the sentinel and the predicate `Eligible`
  ("neither 0 nor 999999"), which selects the cells a penalty adjusts.
- `matrices.dfy` (`Matrices`): `delete_first_row_and_column` as a function on
  a NumPy array value (`Grid`, with NumPy's `np.delete` and its IndexError on
  an empty axis), and `replace_nan_to_infinite` as an in-place method on an
  `array2<Option<real>>`, where `None` is NaN.
- `penalties.dfy` (`Penalties`): `apply_penalty` and `apply_outdoor_penalty`
  as in-place methods on `array2<real>` that visit cells in row-major order,
  specified cell by cell through the functions `Penalized` and
  `OutdoorPenalized`.
- `labels.dfy` (`Labels`): `convert_list_to_dict`, written as
  `dict(zip(range(n), xs))` and proved equal to the index-to-element map,
  and `display_path_labels` as a loop with Python list indexing (negative
  indices count from the end; out of range raises IndexError, modelled as
  `None`).
- `yen_graph.dfy` (`YenGraph`): `convert_nx_digraph_into_yenksp_digraph`,
  which copies all nodes and every edge whose weight is not 999999 into a
  YenKSP graph object built by `add_node` and `add_edge` calls.

Behaviour as the code has it, where one might expect otherwise:

- The penalty transformers and `replace_nan_to_infinite` change the array
  they are given and return that same array; they do not build a new one.
- An unknown penalty mode is not rejected up front. The script raises only
  when the loop reaches the first cell that is neither 0 nor 999999. Since
  an unknown mode writes nothing, no cell has changed when it raises, and a
  matrix with no such cell comes back unchanged without an error.
- An outdoor flag is compared with 1. Any other flag value, including values
  other than 0 and 1, counts as "indoor"; nothing rejects it.
- Nothing keeps weights nonnegative. A multiplicative penalty below -1 makes
  a positive weight negative (`Penalties.MultiplyKeepsNonnegative`). An
  additive penalty can turn a measured weight into 0 or into 999999
  (`Penalties.AddKeepsEligible`); a cell that lands on 999999 is exempt from
  later penalties and dropped from the YenKSP graph.

## Model

| member | source | states |
|---|---|---|
| `Matrices.DeleteRow` | src/main.py:60 | `np.delete(array, k, axis=0)` succeeds iff row k exists; the result keeps the width, has one row less, and row i is the old row i (before k) or i+1 (from k on) |
| `Matrices.DeleteColumn` | src/main.py:61 | `np.delete(array, k, axis=1)` succeeds iff column k exists; the result keeps the height, has one column less, and cell (i, j) is the old (i, j) before k or (i, j+1) from k on |
| `Matrices.DeleteFirstRowAndColumn` | src/main.py:55-62 | succeeds iff the array has at least one row and one column; an r-by-c array becomes (r-1)-by-(c-1) with out[i][j] = in[i+1][j+1] |
| `Matrices.FillNaN` | src/main.py:69 | the cell afterwards is never NaN; a NaN becomes 999999; a number is kept |
| `Matrices.ReplaceNanToInfinite` | src/main.py:64-70 | in place: no cell is NaN afterwards, every former NaN cell holds 999999, every other cell keeps its value |
| `Penalties.Penalized` | src/main.py:108-111 | cells equal to 0 or 999999 are never changed; an unknown mode changes nothing; penalty 0 is the identity in both modes; "add" adds the penalty and "multiply" multiplies by penalty + 1; a nonnegative weight stays nonnegative under a nonnegative penalty |
| `Penalties.MultiplyKeepsNonnegative` | src/main.py:111 | for a positive adjustable weight, the multiplicative penalty leaves it nonnegative iff the penalty is at least -1 |
| `Penalties.AddKeepsEligible` | src/main.py:109-110 | after an additive penalty a cell is still adjustable iff the sum is neither 0 nor 999999 |
| `Penalties.ApplyPenalty` | src/main.py:102-113 | in place: every cell becomes `Penalized` of its old value; the call fails iff the mode is neither "add" nor "multiply" and some cell is neither 0 nor 999999, and then no cell has changed |
| `Penalties.OutdoorPenalized` | src/main.py:120-121 | a cell changes only if it is neither 0 nor 999999 and its flag is 1, and then it is multiplied by 1 + penalty; penalty 0 is the identity; a nonnegative weight stays nonnegative for a penalty of at least -1 |
| `Penalties.OutdoorIsMultiplyWhereFlagged` | src/main.py:111-121 | where the flag is 1 the outdoor penalty equals the "multiply" mode of apply_penalty; elsewhere it is the identity |
| `Penalties.ApplyOutdoorPenalty` | src/main.py:115-122 | in place: every cell that is neither 0 nor 999999 becomes `OutdoorPenalized` of its old value and its old flag, every other cell keeps its value, also when the flag array is the weight array; a distinct flag array is unchanged; the flag array need only reach the cells that are neither 0 nor 999999 |
| `Labels.Range` | src/main.py:51 | `range(n)` has length n and element i is i |
| `Labels.Zip` | src/main.py:52 | `zip(a, b)` pairs up to the shorter of the two lists, and element i is (a[i], b[i]) |
| `Labels.DictOf` | src/main.py:52 | `dict(pairs)` has a key for every pair's key and no other key |
| `Labels.DictOfDistinctKeys` | src/main.py:51-52 | with pairwise distinct keys every key maps to the value it was paired with |
| `Labels.ConvertListToDict` | src/main.py:46-53 | the keys are exactly 0 .. len-1 and key i maps to `my_list[i]`; the result equals the map comprehension over the list's indices |
| `Labels.PyIndex` | src/main.py:200 | Python list indexing succeeds iff -len <= k < len; a nonnegative index gives that element, a negative one counts from the end |
| `Labels.DisplayPathLabels` | src/main.py:194-201 | succeeds iff every node of the path is a valid list index into the labels; then the result has the path's length and element k is `node_labels[path[k]]` |
| `Labels.LabelTablesAgree` | src/main.py:46-53 | for node indices 0 .. len-1 the dictionary from convert_list_to_dict and the list lookup give the same label |
| `YenGraph.YenDigraph.constructor` | src/main.py:128 | a new YenKSP graph has no nodes and no edges |
| `YenGraph.YenDigraph.AddNode` | src/main.py:130 | the node is added to the node set; edges are unchanged |
| `YenGraph.YenDigraph.AddEdge` | src/main.py:136 | the ordered pair gets the weight, replacing an earlier one; nodes are unchanged |
| `YenGraph.ConvertToYenDigraph` | src/main.py:124-137 | the result has exactly the input's nodes; it has edge (u, v) with weight w iff the input has that edge with weight w and w is not 999999; every edge's ends are nodes |

## Left out

- Shortest paths, single-source shortest paths, graph composition and Yen's k-shortest paths (src/main.py:96-98, 171-188): these are calls into networkx and into the YenKSP library, whose code is not part of this model.
- Building graphs from matrices and relabelling their nodes (`nx.DiGraph(data=...)`, `nx.relabel_nodes`, src/main.py:157-167): library behaviour not visible here. The model covers the label table passed to `relabel_nodes` (`Labels.ConvertListToDict`).
- File input: `read_node_labels`, `read_weights_from_file` and `np.genfromtxt` (src/main.py:36-44, 73-79). A parsed cell is modelled as `Option<real>` with `None` for NaN; the trimming and NaN replacement that `read_weights_from_file` chains are modelled separately.
- Printing: `display_path_weights`, `compute_shortest_path` and the message printed before the exception in `apply_penalty` (src/main.py:81-100, 112).
- The `main` function, including the Python 2 integer division `shuttle_penalty/2` and the fixed queries (src/main.py:139-191).
- The code inside the string literal at the end of the file (src/main.py:208-237), and the `flags` parameter of `apply_penalty`, which only that code uses.
- Floating point: weights are exact reals, so rounding and NaN comparisons are not modelled beyond "a NaN cell is `None`".
- Python's exception object: every raise is a `None` result or an `InvalidMode` status, without the exception's type or message.
- The YenKSP `DiGraph` class is not part of this model. `YenGraph.YenDigraph` assumes only that `add_node` adds a node and that `add_edge` records the weight of an ordered pair, a later call replacing an earlier one.
- `Matrices.DeleteFirstRowAndColumn` works on an array value (`Grid`) and the in-place methods on Dafny arrays; the hand-over between the two inside `read_weights_from_file` is file input and left out with it.
- Penalties.ApplyOutdoorPenalty: requires every cell that is neither 0 nor 999999 to lie inside the flag array. The script reads a flag only for such cells, so a smaller flag array that still reaches them works normally and is modelled; when one such cell lies outside it, the script raises IndexError after changing the cells visited before it, and that error case is not modelled.
