/** RefinementTree: the forest of per-label partition trees in one arena,
    with the sorted label index, lookup, best-value aggregation and update. */
module Tree {
  import opened Stats
  import opened Arena
  import opened Leaf
  import opened Index

  /** The index and the arena after making sure `key` has a tree: an unseen
      label gets a fresh root appended to the arena and an entry inserted in
      label order; a known label changes nothing. */
  function Register(m: seq<Entry>, nodes: seq<Node>, key: nat): (r: (seq<Entry>, seq<Node>))
    requires SortedLabels(m) && RootsBelow(m, |nodes|)
    ensures SortedLabels(r.0) && RootsBelow(r.0, |r.1|)
    ensures Labels(r.0) == Labels(m) + {key}
    ensures key in Labels(m) ==> r == (m, nodes)
    ensures key !in Labels(m) ==>
      && r.1 == nodes + [FreshNode]
      && multiset(r.0) == multiset(m) + multiset{Entry(key, |nodes|)}
      && RootOf(r.0, key) == Some(|nodes|)
    ensures forall l :: l != key ==> RootOf(r.0, l) == RootOf(m, l)
  {
    if key in Labels(m) then (m, nodes)
    else
      var e := Entry(key, |nodes|);
      InsertSortedSpec(m, e);
      var m' := InsertSorted(m, e);
      assert RootsBelow(m', |nodes| + 1) by {
        forall x | x in m' ensures x.nid < |nodes| + 1 {
          assert x in multiset(m');
        }
      }
      (m', nodes + [FreshNode])
  }

  /** RefinementTree::update on the index and the arena: register the label,
      descend from its root to a leaf, and update that leaf. */
  function TreeUpdated(m: seq<Entry>, nodes: seq<Node>, key: nat, point: seq<real>, nval: real, delta: real,
                       opts: Options, ops: StatOps, rand: nat -> nat): (seq<Entry>, seq<Node>)
    requires SortedLabels(m) && RootsBelow(m, |nodes|)
    requires Linked(nodes) && Routed(nodes, |point|) && Shaped(nodes, |point|)
  {
    var (m', base) := Register(m, nodes, key);
    AppendFresh(nodes, |point|);
    var root := RootOf(m', key).value;
    var leaf := GetLeaf(base, root, point);
    assert NodeShaped(base[leaf], |point|);
    (m', LeafUpdated(base, leaf, point, nval, delta, opts, ops, rand))
  }

  /** An update keeps the forest well formed: the index stays sorted with one
      entry per label, gains exactly the updated label, never moves the root
      of a label it already had, and roots an unseen label at the old arena
      size; the arena keeps children after parents and only grows. */
  lemma TreeUpdateInvariant(m: seq<Entry>, nodes: seq<Node>, key: nat, point: seq<real>, nval: real, delta: real,
                            opts: Options, ops: StatOps, rand: nat -> nat)
    requires SortedLabels(m) && RootsBelow(m, |nodes|)
    requires Linked(nodes) && Routed(nodes, |point|) && Shaped(nodes, |point|)
    ensures
      var (m', nodes') := TreeUpdated(m, nodes, key, point, nval, delta, opts, ops, rand);
      && SortedLabels(m') && RootsBelow(m', |nodes'|)
      && Linked(nodes') && Routed(nodes', |point|) && Shaped(nodes', |point|)
      && Labels(m') == Labels(m) + {key}
      && (forall l :: l in Labels(m) ==> RootOf(m', l) == RootOf(m, l))
      && (key !in Labels(m) ==> RootOf(m', key) == Some(|nodes|))
      && |nodes| <= |nodes'|
  {
    var (m', base) := Register(m, nodes, key);
    AppendFresh(nodes, |point|);
    var root := RootOf(m', key).value;
    var leaf := GetLeaf(base, root, point);
    LeafUpdateKeepsArena(base, leaf, point, nval, delta, opts, ops, rand);
    assert NodeShaped(base[leaf], |point|);
    var data := Sampled(base[leaf].pred, point, nval, delta, opts, ops).data.value;
    if Choice(data, ops, opts.filterVal, rand).0 > 0 {
      SplitOutcome(base, leaf, point, nval, delta, opts, ops, rand);
    } else {
      NoSplitOutcome(base, leaf, point, nval, delta, opts, ops, rand);
    }
  }

  /** Reading back an update: when the leaf the point reached did not split,
      the same point still reaches it from the label's root, and it holds the
      sample counted once more and the value statistics after the capped
      count took the new value; when it split, the point reaches the new
      child on its side of the boundary. */
  lemma LookupAfterUpdate(m: seq<Entry>, nodes: seq<Node>, key: nat, point: seq<real>, nval: real, delta: real,
                          opts: Options, ops: StatOps, rand: nat -> nat)
    requires SortedLabels(m) && RootsBelow(m, |nodes|)
    requires Linked(nodes) && Routed(nodes, |point|) && Shaped(nodes, |point|)
    ensures
      var (m1, base) := Register(m, nodes, key);
      var (m', nodes') := TreeUpdated(m, nodes, key, point, nval, delta, opts, ops, rand);
      && m' == m1 && RootOf(m', key).Some? && RootOf(m', key).value < |base| <= |nodes'|
      && Linked(base) && Routed(base, |point|) && Linked(nodes') && Routed(nodes', |point|)
    ensures
      var (m1, base) := Register(m, nodes, key);
      var (m', nodes') := TreeUpdated(m, nodes, key, point, nval, delta, opts, ops, rand);
      var root := RootOf(m', key).value;
      var leaf := GetLeaf(base, root, point);
      if nodes'[leaf].split.Unsplit? then
        && |nodes'| == |base|
        && GetLeaf(nodes', root, point) == leaf
        && nodes'[leaf].pred.cnt == base[leaf].pred.cnt + 1
        && nodes'[leaf].pred.q == Observe(base[leaf].pred.q.(cnt := MinNat(base[leaf].pred.q.cnt, opts.qLearnRate)), nval, ops)
      else
        && |nodes'| == |base| + 2
        && GetLeaf(nodes', root, point) == if point[nodes'[leaf].split.dim] <= nodes'[leaf].split.boundary then |base| else |base| + 1
  {
    var (m1, base) := Register(m, nodes, key);
    AppendFresh(nodes, |point|);
    var root := RootOf(m1, key).value;
    var leaf := GetLeaf(base, root, point);
    assert NodeShaped(base[leaf], |point|);
    TreeUpdateInvariant(m, nodes, key, point, nval, delta, opts, ops, rand);
    DescentAfterLeafUpdate(base, leaf, point, nval, delta, opts, ops, rand, root, point);
    var data := Sampled(base[leaf].pred, point, nval, delta, opts, ops).data.value;
    if Choice(data, ops, opts.filterVal, rand).0 > 0 {
      SplitOutcome(base, leaf, point, nval, delta, opts, ops, rand);
    } else {
      NoSplitOutcome(base, leaf, point, nval, delta, opts, ops, rand);
    }
  }

  /** The value a label's tree predicts at a point: the mean of the leaf reached. */
  function LeafValue(nodes: seq<Node>, root: nat, point: seq<real>): Double
    requires root < |nodes| && Linked(nodes) && Routed(nodes, |point|)
  {
    nodes[GetLeaf(nodes, root, point)].pred.q.avg
  }

  /** The leaf values of the labels in `chosen` among the first `upto` index entries. */
  ghost function Considered(m: seq<Entry>, nodes: seq<Node>, point: seq<real>, chosen: set<nat>, upto: nat): set<Double>
    requires upto <= |m| && RootsBelow(m, |nodes|) && Linked(nodes) && Routed(nodes, |point|)
  {
    set k | 0 <= k < upto && m[k].key in chosen :: LeafValue(nodes, m[k].nid, point)
  }

  function Sentinel(minimize: bool): Double {
    if minimize then PosInf else NegInf
  }

  /** r is the best finite value of `vals` (least when minimising, greatest
      otherwise), or the infinite sentinel when `vals` has no finite value. */
  ghost predicate IsBest(minimize: bool, r: Double, vals: set<Double>) {
    if exists v :: v in vals && v.Finite? then
      && r.Finite? && r in vals
      && forall v :: v in vals && v.Finite? ==> (if minimize then r.v <= v.v else v.v <= r.v)
    else r == Sentinel(minimize)
  }

  /** One step of getBestQ's fold: a finite value replaces the accumulator
      through std::min or std::max; infinite and NaN values are skipped. */
  function Step(minimize: bool, acc: Double, v: Double): Double {
    if !v.Finite? then acc
    else if minimize then StdMin(v, acc) else StdMax(v, acc)
  }

  /** Folding one more value keeps the accumulator the best of the values seen. */
  lemma StepBest(minimize: bool, acc: Double, vals: set<Double>, v: Double)
    requires IsBest(minimize, acc, vals)
    ensures IsBest(minimize, Step(minimize, acc, v), vals + {v})
  {
    if v.Finite? && !exists w :: w in vals && w.Finite? {
      assert Step(minimize, acc, v) == v;
    }
  }

  /** The best value is determined by the values. */
  lemma BestUnique(minimize: bool, r1: Double, r2: Double, vals: set<Double>)
    requires IsBest(minimize, r1, vals) && IsBest(minimize, r2, vals)
    ensures r1 == r2
  {
  }

  function Elems(s: seq<nat>): set<nat> {
    set x | x in s
  }

  /** Choosing an extra label that the index holds at position j adds exactly that label's value. */
  lemma ConsideredAddPresent(m: seq<Entry>, nodes: seq<Node>, point: seq<real>, chosen: set<nat>, j: nat)
    requires j < |m| && SortedLabels(m) && RootsBelow(m, |nodes|) && Linked(nodes) && Routed(nodes, |point|)
    ensures Considered(m, nodes, point, chosen + {m[j].key}, |m|) ==
      Considered(m, nodes, point, chosen, |m|) + {LeafValue(nodes, m[j].nid, point)}
  {
    assert m[j] in m;
  }

  /** Choosing extra labels that the index does not hold changes nothing. */
  lemma ConsideredAddAbsent(m: seq<Entry>, nodes: seq<Node>, point: seq<real>, chosen: set<nat>, extra: set<nat>)
    requires RootsBelow(m, |nodes|) && Linked(nodes) && Routed(nodes, |point|)
    requires forall k :: 0 <= k < |m| ==> m[k].key !in extra
    ensures Considered(m, nodes, point, chosen + extra, |m|) == Considered(m, nodes, point, chosen, |m|)
  {
  }

  /** One entry of the full scan keeps the accumulator the best of the values seen. */
  lemma AllStep(minimize: bool, m: seq<Entry>, nodes: seq<Node>, point: seq<real>, i: nat, acc: Double)
    requires i < |m| && SortedLabels(m) && RootsBelow(m, |nodes|) && Linked(nodes) && Routed(nodes, |point|)
    requires IsBest(minimize, acc, Considered(m, nodes, point, Labels(m[..i]), |m|))
    ensures m[i].nid < |nodes|
    ensures IsBest(minimize, Step(minimize, acc, LeafValue(nodes, m[i].nid, point)),
                   Considered(m, nodes, point, Labels(m[..i + 1]), |m|))
  {
    assert m[i] in m;
    assert Labels(m[..i + 1]) == Labels(m[..i]) + {m[i].key} by {
      assert m[..i + 1] == m[..i] + [m[i]];
    }
    ConsideredAddPresent(m, nodes, point, Labels(m[..i]), i);
    StepBest(minimize, acc, Considered(m, nodes, point, Labels(m[..i]), |m|), LeafValue(nodes, m[i].nid, point));
  }

  /** A candidate the index holds at position j is folded in. */
  lemma CandidatePresent(minimize: bool, m: seq<Entry>, nodes: seq<Node>, point: seq<real>,
                         labels: seq<nat>, i: nat, j: nat, acc: Double)
    requires i < |labels| && j < |m| && m[j].key == labels[i]
    requires SortedLabels(m) && RootsBelow(m, |nodes|) && Linked(nodes) && Routed(nodes, |point|)
    requires IsBest(minimize, acc, Considered(m, nodes, point, Elems(labels[..i]), |m|))
    ensures m[j].nid < |nodes|
    ensures IsBest(minimize, Step(minimize, acc, LeafValue(nodes, m[j].nid, point)),
                   Considered(m, nodes, point, Elems(labels[..i + 1]), |m|))
  {
    assert m[j] in m;
    assert Elems(labels[..i + 1]) == Elems(labels[..i]) + {labels[i]} by {
      assert labels[..i + 1] == labels[..i] + [labels[i]];
    }
    ConsideredAddPresent(m, nodes, point, Elems(labels[..i]), j);
    StepBest(minimize, acc, Considered(m, nodes, point, Elems(labels[..i]), |m|), LeafValue(nodes, m[j].nid, point));
  }

  /** A candidate that falls strictly between two index entries is skipped. */
  lemma CandidateAbsent(minimize: bool, m: seq<Entry>, nodes: seq<Node>, point: seq<real>,
                        labels: seq<nat>, i: nat, j: nat, acc: Double)
    requires i < |labels| && j < |m| && labels[i] < m[j].key
    requires forall k :: 0 <= k < j ==> m[k].key < labels[i]
    requires SortedLabels(m) && RootsBelow(m, |nodes|) && Linked(nodes) && Routed(nodes, |point|)
    requires IsBest(minimize, acc, Considered(m, nodes, point, Elems(labels[..i]), |m|))
    ensures IsBest(minimize, acc, Considered(m, nodes, point, Elems(labels[..i + 1]), |m|))
  {
    assert Elems(labels[..i + 1]) == Elems(labels[..i]) + {labels[i]} by {
      assert labels[..i + 1] == labels[..i] + [labels[i]];
    }
    forall k | 0 <= k < |m| ensures m[k].key !in {labels[i]} {
      if j < k {
        assert m[j].key < m[k].key;
      }
    }
    ConsideredAddAbsent(m, nodes, point, Elems(labels[..i]), {labels[i]});
  }

  /** Once the index is exhausted, no remaining candidate adds a value. */
  lemma CandidatesExhausted(minimize: bool, m: seq<Entry>, nodes: seq<Node>, point: seq<real>,
                            labels: seq<nat>, i: nat, acc: Double)
    requires i < |labels|
    requires forall k :: 0 <= k < |m| ==> m[k].key < labels[i]
    requires forall a, b :: 0 <= a < b < |labels| ==> labels[a] <= labels[b]
    requires RootsBelow(m, |nodes|) && Linked(nodes) && Routed(nodes, |point|)
    requires IsBest(minimize, acc, Considered(m, nodes, point, Elems(labels[..i]), |m|))
    ensures IsBest(minimize, acc, Considered(m, nodes, point, Elems(labels), |m|))
  {
    var rest := labels[i..];
    assert Elems(labels) == Elems(labels[..i]) + Elems(rest) by {
      assert labels == labels[..i] + rest;
    }
    forall k | 0 <= k < |m| ensures m[k].key !in Elems(rest) {
      forall p | 0 <= p < |rest| ensures m[k].key < rest[p] {
        assert rest[p] == labels[i + p];
      }
    }
    ConsideredAddAbsent(m, nodes, point, Elems(labels[..i]), Elems(rest));
  }

  /** Descends a root's tree to the point's leaf and folds a finite leaf value
      into the accumulator with std::min or std::max. */
  method FoldLeaf(minimize: bool, nodes: seq<Node>, root: nat, point: seq<real>, acc: Double) returns (r: Double)
    requires root < |nodes| && Linked(nodes) && Routed(nodes, |point|)
    ensures r == Step(minimize, acc, LeafValue(nodes, root, point))
  {
    var n := GetLeaf(nodes, root, point);
    var v := nodes[n].pred.q.avg;
    r := acc;
    if v.Finite? {
      r := if minimize then StdMin(v, acc) else StdMax(v, acc);
    }
  }

  /** Advances a position in the index past every label below the key. */
  method SkipBelow(m: seq<Entry>, key: nat, j0: nat) returns (j: nat)
    requires j0 <= |m|
    ensures j0 <= j <= |m|
    ensures forall k :: j0 <= k < j ==> m[k].key < key
    ensures j < |m| ==> key <= m[j].key
  {
    j := j0;
    while j < |m| && m[j].key < key
      invariant j0 <= j <= |m|
      invariant forall k :: j0 <= k < j ==> m[k].key < key
    {
      j := j + 1;
    }
  }

  /** The merge scan of getBestQ over a sorted candidate list: skip the index
      entries below each candidate, stop once the index is exhausted, and fold
      in the leaf value of every candidate the index holds. */
  method ScanCandidates(m: seq<Entry>, ns: seq<Node>, point: seq<real>, minimize: bool, labels: seq<nat>)
    returns (val: Double)
    requires SortedLabels(m) && RootsBelow(m, |ns|) && Linked(ns) && Routed(ns, |point|)
    requires forall i, j :: 0 <= i < j < |labels| ==> labels[i] <= labels[j]
    ensures IsBest(minimize, val, Considered(m, ns, point, Elems(labels), |m|))
  {
    val := Sentinel(minimize);
    var j := 0;
    for i := 0 to |labels|
      invariant j <= |m|
      invariant forall k :: 0 <= k < j ==> 0 < i && m[k].key < labels[i - 1]
      invariant IsBest(minimize, val, Considered(m, ns, point, Elems(labels[..i]), |m|))
    {
      j := SkipBelow(m, labels[i], j);
      if j == |m| {
        CandidatesExhausted(minimize, m, ns, point, labels, i, val);
        return;
      }
      if m[j].key != labels[i] {
        CandidateAbsent(minimize, m, ns, point, labels, i, j, val);
        continue;
      }
      CandidatePresent(minimize, m, ns, point, labels, i, j, val);
      val := FoldLeaf(minimize, ns, m[j].nid, point, val);
    }
    assert labels[..|labels|] == labels;
  }

  class RefinementTree {
    var dimen: nat
    var nodes: seq<Node>
    var mapping: seq<Entry>

    ghost predicate Valid()
      reads this
    {
      && SortedLabels(mapping) && RootsBelow(mapping, |nodes|)
      && Linked(nodes) && Routed(nodes, dimen) && Shaped(nodes, dimen)
    }

    constructor ()
      ensures Valid() && nodes == [] && mapping == []
    {
      dimen := 0;
      nodes := [];
      mapping := [];
    }

    /** The statistics of the leaf a label's tree routes the point to: its
        mean, sample count and variance; NaN with zero count and variance for
        an unknown label. */
    method Lookup(key: nat, point: seq<real>) returns (r: QVar)
      requires Valid() && Routed(nodes, |point|)
      ensures key !in Labels(mapping) ==> r == QVar(0, NaN, 0.0)
      ensures forall e :: e in mapping && e.key == key ==>
        e.nid < |nodes| &&
        var leaf := nodes[GetLeaf(nodes, e.nid, point)];
        r == QVar(leaf.pred.cnt, leaf.pred.q.avg, leaf.pred.q.variance)
    {
      var k := LowerBound(mapping, key);
      if k == |mapping| || mapping[k].key != key {
        assert forall e :: e in mapping ==> e.key != key;
        return QVar(0, NaN, 0.0);
      }
      assert mapping[k] in mapping;
      var n := GetLeaf(nodes, mapping[k].nid, point);
      var node := nodes[n];
      r := QVar(node.pred.cnt, node.pred.q.avg, node.pred.q.variance);
    }

    /** The best finite leaf value at the point over all labels, or over the
        labels both in the sorted candidate list and in the index; the
        infinite sentinel when there is none. */
    method GetBestQ(point: seq<real>, minimize: bool, candidates: Option<seq<nat>>) returns (val: Double)
      requires Valid() && Routed(nodes, |point|)
      requires candidates.Some? ==> forall i, j :: 0 <= i < j < |candidates.value| ==> candidates.value[i] <= candidates.value[j]
      ensures IsBest(minimize, val, Considered(mapping, nodes, point,
                if candidates.None? then Labels(mapping) else Elems(candidates.value), |mapping|))
    {
      if candidates.None? {
        val := BestOverAll(point, minimize);
      } else {
        val := BestOverCandidates(point, minimize, candidates.value);
      }
    }

    /** getBestQ without a candidate list: a fold over every index entry. */
    method BestOverAll(point: seq<real>, minimize: bool) returns (val: Double)
      requires Valid() && Routed(nodes, |point|)
      ensures IsBest(minimize, val, Considered(mapping, nodes, point, Labels(mapping), |mapping|))
    {
      val := Sentinel(minimize);
      var m := mapping;
      for i := 0 to |m|
        invariant IsBest(minimize, val, Considered(m, nodes, point, Labels(m[..i]), |m|))
      {
        AllStep(minimize, m, nodes, point, i, val);
        val := FoldLeaf(minimize, nodes, m[i].nid, point, val);
      }
      assert m[..|m|] == m;
    }

    /** getBestQ with a sorted candidate list: a merge scan against the index
        that stops as soon as the index is exhausted. */
    method BestOverCandidates(point: seq<real>, minimize: bool, labels: seq<nat>) returns (val: Double)
      requires Valid() && Routed(nodes, |point|)
      requires forall i, j :: 0 <= i < j < |labels| ==> labels[i] <= labels[j]
      ensures IsBest(minimize, val, Considered(mapping, nodes, point, Elems(labels), |mapping|))
    {
      val := ScanCandidates(mapping, nodes, point, minimize, labels);
    }

    /** The split half of node_t::update on leaf n: record the split on the
        leaf, append two default nodes, give each child its partition's value
        statistics (seeded from the parent when empty) and the midpoints
        derived from the parent's partitions, then set the leaf's correction
        and drop its per-dimension data. */
    method SplitLeaf(n: nat, s: nat, p: Predictor, ops: StatOps)
      requires n < |nodes| && p.data.Some? && s < |p.data.value|
      modifies this
      ensures nodes == SplitAt(old(nodes), n, s, p, ops)
      ensures mapping == old(mapping) && dimen == old(dimen)
    {
      var data := p.data.value;
      var slow, shigh := |nodes|, |nodes| + 1;
      ghost var before := nodes;
      nodes := nodes[n := nodes[n].(pred := p, split := Split(s, data[s].midpoint.avg, slow, shigh))];
      nodes := nodes + [FreshNode, FreshNode];
      var lowData := seq(|data|, _ => EmptyDim);
      var highData := seq(|data|, _ => EmptyDim);
      for i := 0 to |data|
        invariant |lowData| == |highData| == |data|
        invariant forall k :: 0 <= k < i ==> lowData[k] == ChildData(data, s, true)[k]
        invariant forall k :: 0 <= k < i ==> highData[k] == ChildData(data, s, false)[k]
        invariant forall k :: i <= k < |data| ==> lowData[k] == EmptyDim && highData[k] == EmptyDim
      {
        if i == s {
          lowData := lowData[i := lowData[i].(midpoint := data[i].lmid)];
          highData := highData[i := highData[i].(midpoint := data[i].hmid)];
        } else {
          var tmid := Merge(data[i].lmid, data[i].hmid);
          lowData := lowData[i := lowData[i].(midpoint := tmid)];
          highData := highData[i := highData[i].(midpoint := tmid)];
        }
      }
      var lq, hq := data[s].lowq, data[s].highq;
      if p.q.cnt > 0 {
        if lq.cnt == 0 {
          lq := QVar(1, p.q.avg, 0.0);
        }
        if hq.cnt == 0 {
          hq := QVar(1, p.q.avg, 0.0);
        }
      }
      nodes := nodes[slow := Node(Predictor(lq, lq.cnt, Some(lowData)), Unsplit, None)];
      nodes := nodes[shigh := Node(Predictor(hq, hq.cnt, Some(highData)), Unsplit, None)];
      var correction := nodes[n].correction;
      if p.q.variance != 0.0 {
        correction := ops.correction(data, p.q);
      }
      nodes := nodes[n := nodes[n].(pred := p.(data := None), correction := correction)];
      assert lowData == ChildData(data, s, true) && highData == ChildData(data, s, false);
      assert nodes == SplitAt(before, n, s, p, ops);
    }

    /** node_t::update on leaf n: sample, then split or rebalance. */
    method UpdateLeaf(n: nat, point: seq<real>, nval: real, delta: real, opts: Options, ops: StatOps, rand: nat -> nat)
      requires n < |nodes| && nodes[n].split.Unsplit? && NodeShaped(nodes[n], |point|)
      modifies this
      ensures nodes == LeafUpdated(old(nodes), n, point, nval, delta, opts, ops, rand)
      ensures mapping == old(mapping) && dimen == old(dimen)
    {
      var p, cnt, svar := SampleLeaf(nodes[n].pred, point, nval, delta, opts, ops, rand);
      if cnt > 0 {
        SplitLeaf(n, svar, p, ops);
      } else {
        var data := Rebalance(p.data.value, ops);
        nodes := nodes[n := nodes[n].(pred := p.(data := Some(data)))];
      }
    }

    /** RefinementTree::update: record the dimension, find the label with a
        lower-bound search, give an unseen label a fresh root inserted at that
        position, then update the leaf its tree routes the point to. */
    method Update(key: nat, point: seq<real>, nval: real, delta: real, opts: Options, ops: StatOps, rand: nat -> nat)
      requires Valid() && Routed(nodes, |point|) && Shaped(nodes, |point|)
      modifies this
      ensures Valid() && dimen == |point|
      ensures (mapping, nodes) == TreeUpdated(old(mapping), old(nodes), key, point, nval, delta, opts, ops, rand)
    {
      dimen := |point|;
      var k := LowerBound(mapping, key);
      var root: nat;
      if k == |mapping| || mapping[k].key != key {
        assert key !in Labels(mapping) by {
          forall e | e in mapping ensures e.key != key {
            var j :| 0 <= j < |mapping| && mapping[j] == e;
          }
        }
        root := |nodes|;
        AppendFresh(nodes, |point|);
        nodes := nodes + [FreshNode];
        InsertAtLowerBound(mapping, k, Entry(key, root));
        mapping := mapping[..k] + [Entry(key, root)] + mapping[k..];
      } else {
        RootAt(mapping, k);
        assert mapping[k] in mapping;
        root := mapping[k].nid;
      }
      var n := GetLeaf(nodes, root, point);
      assert NodeShaped(nodes[n], |point|);
      UpdateLeaf(n, point, nval, delta, opts, ops, rand);
      TreeUpdateInvariant(old(mapping), old(nodes), key, point, nval, delta, opts, ops, rand);
    }
  }
}
