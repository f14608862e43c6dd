/** Label indexing: the index-to-label table handed to `nx.relabel_nodes`,
    and the translation of a path of node indices into readable labels. */
module Labels {
  import opened Wrappers

  /** Python's `range(n)`. */
  function Range(n: nat): (r: seq<int>)
    ensures |r| == n
    ensures forall i | 0 <= i < n :: r[i] == i
  {
    seq(n, i => i)
  }

  /** Python's `zip(a, b)`: pairs up to the shorter of the two lists. */
  function Zip<A, B>(a: seq<A>, b: seq<B>): (r: seq<(A, B)>)
    ensures |r| == if |a| <= |b| then |a| else |b|
    ensures forall i | 0 <= i < |r| :: r[i] == (a[i], b[i])
  {
    if |a| == 0 || |b| == 0 then [] else [(a[0], b[0])] + Zip(a[1..], b[1..])
  }

  /** Python's `dict(pairs)`: the pairs are inserted in order, so a later
      pair overwrites an earlier one with the same key. */
  function DictOf<K, V>(pairs: seq<(K, V)>): (r: map<K, V>)
    ensures forall k | k in r :: exists i | 0 <= i < |pairs| :: pairs[i].0 == k
    ensures forall i | 0 <= i < |pairs| :: pairs[i].0 in r
  {
    if pairs == [] then map[]
    else
      var last := pairs[|pairs| - 1];
      DictOf(pairs[..|pairs| - 1])[last.0 := last.1]
  }

  /** With pairwise distinct keys no pair is overwritten: each key maps to
      the value it came with. */
  lemma {:induction false} DictOfDistinctKeys<K, V>(pairs: seq<(K, V)>, i: nat)
    requires forall p, q | 0 <= p < q < |pairs| :: pairs[p].0 != pairs[q].0
    requires i < |pairs|
    ensures pairs[i].0 in DictOf(pairs) && DictOf(pairs)[pairs[i].0] == pairs[i].1
  {
    if i < |pairs| - 1 {
      DictOfDistinctKeys(pairs[..|pairs| - 1], i);
    }
  }

  /** `convert_list_to_dict`: `dict(zip(range(len(xs)), xs))`. Its keys are
      exactly the positions 0 .. len-1 and position i maps to `xs[i]`, i.e. it
      is the map comprehension over the list's indices. */
  function ConvertListToDict<T>(xs: seq<T>): (r: map<int, T>)
    ensures forall k | k in r :: 0 <= k < |xs|
    ensures forall i | 0 <= i < |xs| :: i in r && r[i] == xs[i]
    ensures r == map i | 0 <= i < |xs| :: xs[i]
  {
    var pairs := Zip(Range(|xs|), xs);
    assert forall i | 0 <= i < |xs| :: pairs[i] == (i, xs[i]);
    var r := DictOf(pairs);
    forall i | 0 <= i < |xs|
      ensures i in r && r[i] == xs[i]
    {
      DictOfDistinctKeys(pairs, i);
    }
    r
  }

  /** Python list indexing `xs[k]`: a negative index counts from the end, and
      an index outside `-len .. len-1` raises IndexError (`None`). */
  function PyIndex<T>(xs: seq<T>, k: int): (r: Option<T>)
    ensures r.Some? <==> -|xs| <= k < |xs|
    ensures 0 <= k < |xs| ==> r == Some(xs[k])
    ensures -|xs| <= k < 0 ==> r == Some(xs[|xs| + k])
  {
    if 0 <= k < |xs| then Some(xs[k])
    else if -|xs| <= k < 0 then Some(xs[|xs| + k])
    else None
  }

  /** `display_path_labels`: appends `node_labels[node]` for each node of the
      path in turn. It succeeds exactly when every node is a valid index into
      the labels, and then gives one label per node, in order; otherwise the
      first bad node raises IndexError (`None`). */
  method DisplayPathLabels<T>(labels: seq<T>, path: seq<int>) returns (r: Option<seq<T>>)
    ensures r.Some? <==> forall k | 0 <= k < |path| :: -|labels| <= path[k] < |labels|
    ensures r.Some? ==> |r.value| == |path|
    ensures r.Some? ==> forall k | 0 <= k < |path| :: PyIndex(labels, path[k]) == Some(r.value[k])
  {
    var readable: seq<T> := [];
    var i := 0;
    while i < |path|
      invariant 0 <= i <= |path|
      invariant |readable| == i
      invariant forall k | 0 <= k < i :: PyIndex(labels, path[k]) == Some(readable[k])
    {
      match PyIndex(labels, path[i]) {
        case None =>
          return None;
        case Some(name) =>
          readable := readable + [name];
      }
      i := i + 1;
    }
    r := Some(readable);
  }

  /** For the node indices `nx.relabel_nodes` sees (0 .. len-1), the table
      from ConvertListToDict and the list lookup of DisplayPathLabels give
      the same label. */
  lemma LabelTablesAgree<T>(labels: seq<T>, node: int)
    requires 0 <= node < |labels|
    ensures PyIndex(labels, node) == Some(ConvertListToDict(labels)[node])
  {
  }
}
