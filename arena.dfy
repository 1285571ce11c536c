/** The node arena shared by every label's tree, and descent to a leaf.
    A node is addressed only by its index in the arena. */
module Arena {
  import opened Stats

  /** qpred_t: the value statistics of a node, its sample count, and the
      per-dimension data of a live leaf (None stands for a null buffer). */
  datatype Predictor = Predictor(q: QVar, cnt: nat, data: Option<seq<DimStats>>)

  /** The split part of node_t: not yet split, or split on dimension `dim`
      at `boundary` with children at arena indices `low` and `high`. */
  datatype Split = Unsplit | Split(dim: nat, boundary: real, low: nat, high: nat)

  /** node_t: a predictor, the split, and the correction set at split time. */
  datatype Node = Node(pred: Predictor, split: Split, correction: Option<seq<real>>)

  /** A default-constructed node, as appended by `emplace_back()`. */
  const FreshNode: Node := Node(Predictor(NoValues, 0, None), Unsplit, None)

  /** Children lie after their parent and inside the arena. */
  predicate NodeLinked(nodes: seq<Node>, i: nat)
    requires i < |nodes|
  {
    match nodes[i].split
    case Unsplit => true
    case Split(_, _, lo, hi) => i < lo < |nodes| && i < hi < |nodes|
  }

  predicate Linked(nodes: seq<Node>) {
    forall i :: 0 <= i < |nodes| ==> NodeLinked(nodes, i)
  }

  /** A split node splits on one of the `dimen` coordinates. */
  predicate NodeRouted(node: Node, dimen: nat) {
    node.split.Split? ==> node.split.dim < dimen
  }

  predicate Routed(nodes: seq<Node>, dimen: nat) {
    forall i :: 0 <= i < |nodes| ==> NodeRouted(nodes[i], dimen)
  }

  /** Only a live leaf holds per-dimension data, one record per coordinate. */
  predicate NodeShaped(node: Node, dimen: nat) {
    match node.split
    case Unsplit => node.pred.data.Some? ==> |node.pred.data.value| == dimen
    case Split(_, _, _, _) => node.pred.data.None?
  }

  predicate Shaped(nodes: seq<Node>, dimen: nat) {
    forall i :: 0 <= i < |nodes| ==> NodeShaped(nodes[i], dimen)
  }

  /** node_t::get_leaf: from `current`, go low when the point's coordinate is
      at most the boundary and high otherwise, until an unsplit node. */
  function GetLeaf(nodes: seq<Node>, current: nat, point: seq<real>): (r: nat)
    requires current < |nodes| && Linked(nodes) && Routed(nodes, |point|)
    ensures current <= r < |nodes|
    ensures nodes[r].split.Unsplit?
    decreases |nodes| - current
  {
    assert NodeLinked(nodes, current) && NodeRouted(nodes[current], |point|);
    match nodes[current].split
    case Unsplit => current
    case Split(d, b, lo, hi) =>
      if point[d] <= b then GetLeaf(nodes, lo, point) else GetLeaf(nodes, hi, point)
  }

  /** A point on the boundary of a split node descends into its low child. */
  lemma {:induction false} BoundaryGoesLow(nodes: seq<Node>, current: nat, point: seq<real>)
    requires current < |nodes| && Linked(nodes) && Routed(nodes, |point|)
    requires nodes[current].split.Split?
    requires point[nodes[current].split.dim] == nodes[current].split.boundary
    ensures nodes[current].split.low < |nodes|
    ensures GetLeaf(nodes, current, point) == GetLeaf(nodes, nodes[current].split.low, point)
  {
    assert NodeLinked(nodes, current);
  }

  /** Appending nodes leaves every descent from an existing node unchanged. */
  lemma {:induction false} GetLeafAppend(nodes: seq<Node>, extra: seq<Node>, current: nat, point: seq<real>)
    requires current < |nodes| && Linked(nodes) && Routed(nodes, |point|)
    requires Linked(nodes + extra) && Routed(nodes + extra, |point|)
    ensures GetLeaf(nodes + extra, current, point) == GetLeaf(nodes, current, point)
    decreases |nodes| - current
  {
    var all := nodes + extra;
    assert all[current] == nodes[current];
    assert NodeLinked(nodes, current);
    match nodes[current].split
    case Unsplit =>
    case Split(d, b, lo, hi) =>
      if point[d] <= b {
        GetLeafAppend(nodes, extra, lo, point);
      } else {
        GetLeafAppend(nodes, extra, hi, point);
      }
  }

  /** A default node can be appended to a well-formed arena. */
  lemma AppendFresh(nodes: seq<Node>, dimen: nat)
    requires Linked(nodes) && Routed(nodes, dimen) && Shaped(nodes, dimen)
    ensures Linked(nodes + [FreshNode]) && Routed(nodes + [FreshNode], dimen)
    ensures Shaped(nodes + [FreshNode], dimen)
  {
    var all := nodes + [FreshNode];
    forall i | 0 <= i < |all|
      ensures NodeLinked(all, i) && NodeRouted(all[i], dimen) && NodeShaped(all[i], dimen)
    {
      if i < |nodes| {
        assert all[i] == nodes[i] && NodeLinked(nodes, i) && NodeRouted(nodes[i], dimen) && NodeShaped(nodes[i], dimen);
      }
    }
  }
}
