/** What node_t::update does to the arena, as functions of the arena before
    the call: the learning-rate cap, the per-dimension partition statistics,
    the randomised choice of the split dimension, the split itself, and the
    midpoint rebalancing that runs when no split happens. */
module Leaf {
  import opened Stats
  import opened Arena

  /** The arguments the leaf hands to each split filter. */
  function Args(opts: Options, delta: real): FilterArgs {
    FilterArgs(delta * opts.indefference, opts.lowerT, opts.upperT, opts.ksLimit, opts.filterRate)
  }

  /** Allocates the per-dimension data if absent, caps the value count at the
      learning rate, adds the sample and counts it. */
  function Prepared(p: Predictor, dimen: nat, nval: real, rate: nat, ops: StatOps): (r: Predictor)
    ensures r.data.Some?
    ensures p.data.Some? ==> r.data == p.data
    ensures p.data.None? ==> r.data.value == seq(dimen, _ => EmptyDim)
    ensures r.q.cnt == MinNat(p.q.cnt, rate) + 1 && r.q.cnt <= rate + 1
    ensures r.cnt == p.cnt + 1
  {
    var data := if p.data.None? then Some(seq(dimen, _ => EmptyDim)) else p.data;
    var capped := p.q.(cnt := MinNat(p.q.cnt, rate));
    Predictor(Observe(capped, nval, ops), p.cnt + 1, data)
  }

  /** Attributes one sample to the low or the high partition of a dimension,
      depending on its coordinate against the current midpoint. */
  function Partition(d: DimStats, x: real, nval: real, ops: StatOps): (r: DimStats)
    ensures r.midpoint == d.midpoint && r.filter == d.filter
    ensures r.lmid.cnt + r.hmid.cnt == d.lmid.cnt + d.hmid.cnt + 1
    ensures r.lowq.cnt + r.highq.cnt == d.lowq.cnt + d.highq.cnt + 1
    ensures x <= d.midpoint.avg <==> r.lowq.cnt == d.lowq.cnt + 1
    ensures x <= d.midpoint.avg <==> r.lmid.cnt == d.lmid.cnt + 1
    ensures x <= d.midpoint.avg ==> r.hmid == d.hmid && r.highq == d.highq && r.lmid == AddPoint(d.lmid, x)
    ensures x <= d.midpoint.avg ==> r.lowq == Observe(d.lowq, nval, ops)
    ensures d.midpoint.avg < x ==> r.highq == Observe(d.highq, nval, ops)
    ensures d.midpoint.avg < x ==> r.lmid == d.lmid && r.lowq == d.lowq && r.hmid == AddPoint(d.hmid, x)
  {
    if x <= d.midpoint.avg then
      d.(lowq := Observe(d.lowq, nval, ops), lmid := AddPoint(d.lmid, x))
    else
      d.(highq := Observe(d.highq, nval, ops), hmid := AddPoint(d.hmid, x))
  }

  /** Partitions the sample, then feeds the new partition statistics to the filter. */
  function Refresh(d: DimStats, x: real, nval: real, args: FilterArgs, ops: StatOps): DimStats {
    var p := Partition(d, x, nval, ops);
    p.(filter := ops.filterAdd(p.filter, p.lowq, p.highq, args))
  }

  function RefreshAll(data: seq<DimStats>, point: seq<real>, nval: real, args: FilterArgs, ops: StatOps): seq<DimStats>
    requires |point| == |data|
  {
    seq(|data|, i requires 0 <= i < |data| => Refresh(data[i], point[i], nval, args, ops))
  }

  /** Which dimensions' split filters report a max() of at least the critical value. */
  function Qualifying(data: seq<DimStats>, ops: StatOps, filterVal: real): seq<bool> {
    seq(|data|, i requires 0 <= i < |data| => ops.filterMax(data[i].filter) >= filterVal)
  }

  function CountTrue(q: seq<bool>): nat {
    if q == [] then 0 else CountTrue(q[..|q| - 1]) + (if q[|q| - 1] then 1 else 0)
  }

  /** Reservoir sampling over the qualifying dimensions in index order: the
      c-th candidate replaces the choice when the c-th draw is divisible by c.
      Yields the number of candidates and the chosen dimension. */
  function Reservoir(q: seq<bool>, rand: nat -> nat): (nat, nat) {
    if q == [] then (0, 0)
    else
      var (c, s) := Reservoir(q[..|q| - 1], rand);
      if q[|q| - 1] then
        (c + 1, if rand(c + 1) % (c + 1) == 0 then |q| - 1 else s)
      else (c, s)
  }

  /** The reservoir counts every candidate, and chooses a candidate whenever there is one. */
  lemma {:induction false} ReservoirCount(q: seq<bool>, rand: nat -> nat)
    ensures Reservoir(q, rand).0 == CountTrue(q)
    ensures Reservoir(q, rand).0 > 0 ==> Reservoir(q, rand).1 < |q| && q[Reservoir(q, rand).1]
    ensures Reservoir(q, rand).0 == 0 ==> Reservoir(q, rand).1 == 0
  {
    if q != [] {
      ReservoirCount(q[..|q| - 1], rand);
    }
  }

  /** No candidate exactly when the count is zero. */
  lemma {:induction false} CountZero(q: seq<bool>)
    ensures CountTrue(q) == 0 <==> forall i :: 0 <= i < |q| ==> !q[i]
  {
    if q != [] {
      CountZero(q[..|q| - 1]);
      assert forall i :: 0 <= i < |q| - 1 ==> q[..|q| - 1][i] == q[i];
    }
  }

  /** Candidate k takes the choice over: it qualifies and its draw is divisible by its rank. */
  predicate Hit(q: seq<bool>, rand: nat -> nat, k: nat)
    requires k < |q|
  {
    var rank := CountTrue(q[..k + 1]);
    q[k] && rank > 0 && rand(rank) % rank == 0
  }

  /** The chosen dimension is the last candidate whose draw took over. */
  lemma {:induction false} ReservoirLastHit(q: seq<bool>, rand: nat -> nat)
    requires Reservoir(q, rand).0 > 0
    ensures Reservoir(q, rand).1 < |q|
    ensures Hit(q, rand, Reservoir(q, rand).1)
    ensures forall k :: Reservoir(q, rand).1 < k < |q| ==> !Hit(q, rand, k)
  {
    ReservoirCount(q, rand);
    var p := q[..|q| - 1];
    ReservoirCount(p, rand);
    var (c, s) := Reservoir(p, rand);
    var last := |q| - 1;
    assert q[..last + 1] == q;
    if q[last] && rand(c + 1) % (c + 1) == 0 {
    } else {
      assert c > 0;
      ReservoirLastHit(p, rand);
      forall k | 0 <= k < |p|
        ensures Hit(q, rand, k) == Hit(p, rand, k)
      {
        assert q[..k + 1] == p[..k + 1];
      }
    }
  }

  /** The first candidate always takes the choice: with a single candidate the
      split dimension is that candidate, whatever the draws. */
  lemma ReservoirSingle(q: seq<bool>, rand: nat -> nat, k: nat)
    requires k < |q| && q[k] && CountTrue(q) == 1
    ensures Reservoir(q, rand) == (1, k)
  {
    ReservoirCount(q, rand);
    ReservoirLastHit(q, rand);
    var s := Reservoir(q, rand).1;
    if s != k {
      OnlyCandidate(q, s, k);
    }
  }

  /** Two distinct candidates make the count at least two. */
  lemma {:induction false} OnlyCandidate(q: seq<bool>, i: nat, j: nat)
    requires i < |q| && j < |q| && i != j && q[i] && q[j]
    ensures CountTrue(q) >= 2
  {
    var p := q[..|q| - 1];
    if i == |q| - 1 {
      CountAtLeastOne(p, j);
    } else if j == |q| - 1 {
      CountAtLeastOne(p, i);
    } else {
      OnlyCandidate(p, i, j);
    }
  }

  lemma {:induction false} CountAtLeastOne(q: seq<bool>, i: nat)
    requires i < |q| && q[i]
    ensures CountTrue(q) >= 1
  {
    if i < |q| - 1 {
      CountAtLeastOne(q[..|q| - 1], i);
    }
  }

  /** The split choice over freshly refreshed data: the number of dimensions
      whose filter reached the critical value, which is zero exactly when none
      did, and one of them as the split dimension. */
  function Choice(data: seq<DimStats>, ops: StatOps, filterVal: real, rand: nat -> nat): (r: (nat, nat))
    ensures r.0 == CountTrue(Qualifying(data, ops, filterVal))
    ensures r.0 == 0 <==> forall i :: 0 <= i < |data| ==> ops.filterMax(data[i].filter) < filterVal
    ensures r.0 > 0 ==> r.1 < |data| && ops.filterMax(data[r.1].filter) >= filterVal
    ensures r.0 == 0 ==> r.1 == 0
  {
    var q := Qualifying(data, ops, filterVal);
    ReservoirCount(q, rand);
    CountZero(q);
    assert forall i :: 0 <= i < |data| ==> q[i] == (ops.filterMax(data[i].filter) >= filterVal);
    Reservoir(q, rand)
  }

  /** The per-dimension data of a new child: midpoint from the parent's low or
      high partition in the split dimension, from both partitions elsewhere. */
  function ChildData(data: seq<DimStats>, s: nat, low: bool): seq<DimStats> {
    seq(|data|, i requires 0 <= i < |data| =>
      EmptyDim.(midpoint :=
        if i == s then (if low then data[i].lmid else data[i].hmid)
        else Merge(data[i].lmid, data[i].hmid)))
  }

  /** A child's value statistics: its partition's, or the parent's mean with
      count one and no variance when that partition saw no sample. */
  function Seed(q: QVar, parent: QVar): (r: QVar)
    ensures parent.cnt > 0 ==> r.cnt > 0
    ensures q.cnt > 0 || parent.cnt == 0 ==> r == q
    ensures q.cnt == 0 && parent.cnt > 0 ==> r.avg == parent.avg && r.cnt == 1 && r.variance == 0.0
  {
    if parent.cnt > 0 && q.cnt == 0 then QVar(1, parent.avg, 0.0) else q
  }

  function Child(q: QVar, data: seq<DimStats>): Node {
    Node(Predictor(q, q.cnt, Some(data)), Unsplit, None)
  }

  /** set_correction: nothing to do without variance, else the solver's answer. */
  function Corrected(old_: Option<seq<real>>, p: Predictor, data: seq<DimStats>, ops: StatOps): Option<seq<real>> {
    if p.q.variance == 0.0 then old_ else ops.correction(data, p.q)
  }

  /** Splits leaf n on dimension s: two children appended at the end of the
      arena, the leaf turned into a split node that keeps its value statistics
      and drops its per-dimension data. */
  function SplitAt(nodes: seq<Node>, n: nat, s: nat, p: Predictor, ops: StatOps): seq<Node>
    requires n < |nodes| && p.data.Some? && s < |p.data.value|
  {
    var data := p.data.value;
    var lo := |nodes|;
    var parent := Node(p.(data := None), Split(s, data[s].midpoint.avg, lo, lo + 1),
                       Corrected(nodes[n].correction, p, data, ops));
    nodes[n := parent]
      + [Child(Seed(data[s].lowq, p.q), ChildData(data, s, true)),
         Child(Seed(data[s].highq, p.q), ChildData(data, s, false))]
  }

  function Pow5(k: nat): nat {
    if k == 0 then 1 else 5 * Pow5(k - 1)
  }

  /** The partition counts are lopsided enough to move the midpoint. */
  predicate Skewed(d: DimStats) {
    var mx := MaxNat(d.hmid.cnt, d.lmid.cnt);
    var mn := MinNat(d.hmid.cnt, d.lmid.cnt);
    mx >= 2 && Pow5(mn) < mx && mx > d.midpoint.cnt
  }

  /** The dimension is recentred: skewed, and the combined average moves the midpoint. */
  predicate Recentres(d: DimStats) {
    Skewed(d) && Merge(d.lmid, d.hmid).avg != d.midpoint.avg
  }

  /** Moves the midpoint towards the combined partition average, halves the
      partition counts and merges the partition value statistics. */
  function Recentre(d: DimStats, ops: StatOps): DimStats {
    var nm := Merge(d.lmid, d.hmid);
    var half := nm.(cnt := nm.cnt / 2);
    var a := ops.approximate(d.lowq, d.highq);
    var q := a.(cnt := a.cnt / 2);
    d.(lmid := half, hmid := half, midpoint := Merge(d.midpoint, nm), lowq := q, highq := q)
  }

  /** A dimension after the recentring pass. */
  function Moved(d: DimStats, ops: StatOps): DimStats {
    if Recentres(d) then Recentre(d, ops) else d
  }

  predicate AnyRecentres(data: seq<DimStats>) {
    exists i :: 0 <= i < |data| && Recentres(data[i])
  }

  function ResetFilters(data: seq<DimStats>): seq<DimStats> {
    seq(|data|, i requires 0 <= i < |data| => data[i].(filter := FreshFilter))
  }

  /** Rebalancing after an update that did not split: every recentring
      dimension is recentred, and if any was, every split filter is reset. */
  function Rebalanced(data: seq<DimStats>, ops: StatOps): (r: seq<DimStats>)
    ensures |r| == |data|
    ensures forall i :: 0 <= i < |data| ==>
      r[i].filter == if AnyRecentres(data) then FreshFilter else data[i].filter
    ensures forall i :: 0 <= i < |data| && Recentres(data[i]) ==>
      && r[i].lmid == r[i].hmid
      && r[i].lowq == r[i].highq
      && r[i].lowq.cnt == ops.approximate(data[i].lowq, data[i].highq).cnt / 2
      && r[i].lowq == (var a := ops.approximate(data[i].lowq, data[i].highq); a.(cnt := a.cnt / 2))
      && r[i].lmid.cnt == (data[i].lmid.cnt + data[i].hmid.cnt) / 2
      && r[i].lmid.avg == Merge(data[i].lmid, data[i].hmid).avg
      && r[i].midpoint.cnt == data[i].midpoint.cnt + data[i].lmid.cnt + data[i].hmid.cnt
      && r[i].midpoint == Merge(data[i].midpoint, Merge(data[i].lmid, data[i].hmid))
    ensures forall i :: 0 <= i < |data| && !Recentres(data[i]) ==>
      r[i] == data[i].(filter := r[i].filter)
  {
    var moved := seq(|data|, i requires 0 <= i < |data| => Moved(data[i], ops));
    if AnyRecentres(data) then ResetFilters(moved) else moved
  }

  /** The value counts of a dimension's partitions match its coordinate counts:
      every sample is attributed to one side of both. */
  predicate PairedCounts(d: DimStats) {
    d.lowq.cnt == d.lmid.cnt && d.highq.cnt == d.hmid.cnt
  }

  /** A partition step attributes the sample to the same side of both counts. */
  lemma RefreshPairs(d: DimStats, x: real, nval: real, args: FilterArgs, ops: StatOps)
    requires PairedCounts(d)
    ensures PairedCounts(Refresh(d, x, nval, args, ops))
  {
    var p := Partition(d, x, nval, ops);
    if x <= d.midpoint.avg {
      assert p.lowq.cnt == d.lowq.cnt + 1 && p.lmid.cnt == d.lmid.cnt + 1;
    }
  }

  /** When `approximate` pools the counts, a recentred dimension splits its
      merged value count evenly into both partitions. A dimension whose value
      and coordinate counts were paired stays paired, and a recentred one keeps
      at least one value on each side. */
  lemma RebalancedCounts(data: seq<DimStats>, ops: StatOps)
    requires MergesCounts(ops)
    ensures forall i :: 0 <= i < |data| && Recentres(data[i]) ==>
      var r := Rebalanced(data, ops);
      r[i].lowq.cnt == r[i].highq.cnt == (data[i].lowq.cnt + data[i].highq.cnt) / 2
    ensures forall i :: 0 <= i < |data| && PairedCounts(data[i]) ==>
      var r := Rebalanced(data, ops);
      PairedCounts(r[i]) && (Recentres(data[i]) ==> r[i].lowq.cnt >= 1)
  {
    var r := Rebalanced(data, ops);
    forall i | 0 <= i < |data| && Recentres(data[i])
      ensures r[i].lowq.cnt == r[i].highq.cnt == (data[i].lowq.cnt + data[i].highq.cnt) / 2
    {
      assert ops.approximate(data[i].lowq, data[i].highq).cnt == data[i].lowq.cnt + data[i].highq.cnt;
    }
  }

  /** The predictor after the sample has been counted and partitioned in every dimension. */
  function Sampled(p: Predictor, point: seq<real>, nval: real, delta: real, opts: Options, ops: StatOps): (r: Predictor)
    requires p.data.Some? ==> |p.data.value| == |point|
    ensures r.data.Some? && |r.data.value| == |point|
  {
    var prep := Prepared(p, |point|, nval, opts.qLearnRate, ops);
    prep.(data := Some(RefreshAll(prep.data.value, point, nval, Args(opts, delta), ops)))
  }

  /** node_t::update on leaf n: the arena after the call. */
  function LeafUpdated(nodes: seq<Node>, n: nat, point: seq<real>, nval: real, delta: real,
                       opts: Options, ops: StatOps, rand: nat -> nat): seq<Node>
    requires n < |nodes| && nodes[n].split.Unsplit? && NodeShaped(nodes[n], |point|)
  {
    var p := Sampled(nodes[n].pred, point, nval, delta, opts, ops);
    var (c, s) := Choice(p.data.value, ops, opts.filterVal, rand);
    if c > 0 then SplitAt(nodes, n, s, p, ops)
    else nodes[n := nodes[n].(pred := p.(data := Some(Rebalanced(p.data.value, ops))))]
  }

  /** A split appends exactly two leaves, each with at least one sample and
      with its sample count equal to its value count; the split node records
      a qualifying dimension, the midpoint boundary and the two new indices,
      and loses its per-dimension data; every other node is unchanged. */
  lemma SplitOutcome(nodes: seq<Node>, n: nat, point: seq<real>, nval: real, delta: real,
                     opts: Options, ops: StatOps, rand: nat -> nat)
    requires n < |nodes| && nodes[n].split.Unsplit? && NodeShaped(nodes[n], |point|)
    requires Choice(Sampled(nodes[n].pred, point, nval, delta, opts, ops).data.value, ops, opts.filterVal, rand).0 > 0
    ensures
      var p := Sampled(nodes[n].pred, point, nval, delta, opts, ops);
      var data := p.data.value;
      var s := Choice(data, ops, opts.filterVal, rand).1;
      var r := LeafUpdated(nodes, n, point, nval, delta, opts, ops, rand);
      var lo := |nodes|;
      && |r| == lo + 2
      && s < |point| && ops.filterMax(data[s].filter) >= opts.filterVal
      && r[n].split == Split(s, data[s].midpoint.avg, lo, lo + 1)
      && r[n].pred.data.None?
      && r[n].pred.cnt == nodes[n].pred.cnt + 1
      && r[n].pred.q.cnt == MinNat(nodes[n].pred.q.cnt, opts.qLearnRate) + 1
      && (forall k :: 0 <= k < lo && k != n ==> r[k] == nodes[k])
      && r[lo].pred.q == Seed(data[s].lowq, p.q)
      && r[lo + 1].pred.q == Seed(data[s].highq, p.q)
      && r[lo].pred.data == Some(ChildData(data, s, true))
      && r[lo + 1].pred.data == Some(ChildData(data, s, false))
      && (forall k :: lo <= k < lo + 2 ==>
            && r[k].split.Unsplit? && r[k].correction.None?
            && r[k].pred.q.cnt > 0 && r[k].pred.cnt == r[k].pred.q.cnt)
  {
  }

  /** Without a split the arena keeps its size, no dimension had reached the
      critical value, the leaf stays a leaf with its sample counted, and its
      per-dimension data is the rebalanced partition data. */
  lemma NoSplitOutcome(nodes: seq<Node>, n: nat, point: seq<real>, nval: real, delta: real,
                       opts: Options, ops: StatOps, rand: nat -> nat)
    requires n < |nodes| && nodes[n].split.Unsplit? && NodeShaped(nodes[n], |point|)
    requires Choice(Sampled(nodes[n].pred, point, nval, delta, opts, ops).data.value, ops, opts.filterVal, rand).0 == 0
    ensures
      var p := Sampled(nodes[n].pred, point, nval, delta, opts, ops);
      var data := p.data.value;
      var r := LeafUpdated(nodes, n, point, nval, delta, opts, ops, rand);
      && |r| == |nodes|
      && (forall i :: 0 <= i < |data| ==> ops.filterMax(data[i].filter) < opts.filterVal)
      && (forall k :: 0 <= k < |nodes| && k != n ==> r[k] == nodes[k])
      && r[n].split.Unsplit? && r[n].correction == nodes[n].correction
      && r[n].pred.cnt == nodes[n].pred.cnt + 1
      && r[n].pred.q.cnt == MinNat(nodes[n].pred.q.cnt, opts.qLearnRate) + 1
      && r[n].pred.data == Some(Rebalanced(data, ops))
  {
  }

  /** A leaf update keeps the arena well formed: children after their parent
      and inside the arena, splits on an existing dimension, data only on live leaves. */
  lemma LeafUpdateKeepsArena(nodes: seq<Node>, n: nat, point: seq<real>, nval: real, delta: real,
                             opts: Options, ops: StatOps, rand: nat -> nat)
    requires n < |nodes| && nodes[n].split.Unsplit?
    requires Linked(nodes) && Routed(nodes, |point|) && Shaped(nodes, |point|)
    ensures
      var r := LeafUpdated(nodes, n, point, nval, delta, opts, ops, rand);
      Linked(r) && Routed(r, |point|) && Shaped(r, |point|)
  {
    assert NodeShaped(nodes[n], |point|);
    var r := LeafUpdated(nodes, n, point, nval, delta, opts, ops, rand);
    var data := Sampled(nodes[n].pred, point, nval, delta, opts, ops).data.value;
    if Choice(data, ops, opts.filterVal, rand).0 > 0 {
      SplitOutcome(nodes, n, point, nval, delta, opts, ops, rand);
    } else {
      NoSplitOutcome(nodes, n, point, nval, delta, opts, ops, rand);
    }
    forall k | 0 <= k < |r|
      ensures NodeLinked(r, k) && NodeRouted(r[k], |point|) && NodeShaped(r[k], |point|)
    {
      if k < |nodes| && k != n {
        assert NodeLinked(nodes, k) && NodeRouted(nodes[k], |point|) && NodeShaped(nodes[k], |point|);
      }
    }
  }

  /** Descent after a leaf update: a point that reached leaf n now reaches the
      child on its side of the new boundary if n split, and every other
      descent, from any existing node, ends where it ended before. */
  lemma {:induction false} DescentAfterLeafUpdate(nodes: seq<Node>, n: nat, point: seq<real>, nval: real, delta: real,
                                                  opts: Options, ops: StatOps, rand: nat -> nat,
                                                  c: nat, x: seq<real>)
    requires n < |nodes| && nodes[n].split.Unsplit?
    requires Linked(nodes) && Routed(nodes, |point|) && Shaped(nodes, |point|)
    requires c < |nodes| && |x| == |point|
    ensures
      var r := LeafUpdated(nodes, n, point, nval, delta, opts, ops, rand);
      Linked(r) && Routed(r, |x|)
    ensures
      var r := LeafUpdated(nodes, n, point, nval, delta, opts, ops, rand);
      GetLeaf(r, c, x) ==
        if GetLeaf(nodes, c, x) == n && r[n].split.Split? then
          (if x[r[n].split.dim] <= r[n].split.boundary then |nodes| else |nodes| + 1)
        else GetLeaf(nodes, c, x)
    decreases |nodes| - c
  {
    assert NodeShaped(nodes[n], |point|);
    var r := LeafUpdated(nodes, n, point, nval, delta, opts, ops, rand);
    LeafUpdateKeepsArena(nodes, n, point, nval, delta, opts, ops, rand);
    var data := Sampled(nodes[n].pred, point, nval, delta, opts, ops).data.value;
    if Choice(data, ops, opts.filterVal, rand).0 > 0 {
      SplitOutcome(nodes, n, point, nval, delta, opts, ops, rand);
    } else {
      NoSplitOutcome(nodes, n, point, nval, delta, opts, ops, rand);
    }
    assert NodeLinked(nodes, c) && NodeLinked(r, c);
    if c != n {
      assert r[c] == nodes[c];
      match nodes[c].split
      case Unsplit =>
      case Split(d, b, lo, hi) =>
        if x[d] <= b {
          DescentAfterLeafUpdate(nodes, n, point, nval, delta, opts, ops, rand, lo, x);
        } else {
          DescentAfterLeafUpdate(nodes, n, point, nval, delta, opts, ops, rand, hi, x);
        }
    }
  }

  /** Looking at one more dimension is one more step of the reservoir. */
  lemma ReservoirSnoc(q: seq<bool>, b: bool, rand: nat -> nat)
    ensures
      var before := Reservoir(q, rand);
      var after := Reservoir(q + [b], rand);
      && after.0 == before.0 + (if b then 1 else 0)
      && after.1 == if b && rand(before.0 + 1) % (before.0 + 1) == 0 then |q| else before.1
  {
    assert (q + [b])[..|q|] == q;
  }

  /** The first half of node_t::update on a leaf's predictor: allocate the
      data, cap the value count at the learning rate, add the value, count
      the sample, then scan the dimensions. */
  method SampleLeaf(p: Predictor, point: seq<real>, nval: real, delta: real, opts: Options,
                    ops: StatOps, rand: nat -> nat) returns (r: Predictor, cnt: nat, svar: nat)
    requires p.data.Some? ==> |p.data.value| == |point|
    ensures r == Sampled(p, point, nval, delta, opts, ops)
    ensures (cnt, svar) == Choice(r.data.value, ops, opts.filterVal, rand)
  {
    var data := if p.data.None? then seq(|point|, _ => EmptyDim) else p.data.value;
    var q := p.q.(cnt := MinNat(p.q.cnt, opts.qLearnRate));
    q := Observe(q, nval, ops);
    data, cnt, svar := ScanDimensions(data, point, nval, Args(opts, delta), opts.filterVal, ops, rand);
    r := Predictor(q, p.cnt + 1, Some(data));
  }

  /** Storing the refreshed record i keeps records before i refreshed and records after i untouched. */
  lemma ScanStep(data0: seq<DimStats>, data: seq<DimStats>, qs: seq<bool>, point: seq<real>, nval: real,
                 args: FilterArgs, filterVal: real, ops: StatOps, i: nat, d: DimStats)
    requires |data| == |data0| == |point| && i < |point| && |qs| == i
    requires forall k :: 0 <= k < i ==> qs[k] == (ops.filterMax(data[k].filter) >= filterVal)
    requires forall k :: 0 <= k < i ==> data[k] == Refresh(data0[k], point[k], nval, args, ops)
    requires forall k :: i <= k < |point| ==> data[k] == data0[k]
    requires d == Refresh(data[i], point[i], nval, args, ops)
    ensures forall k :: 0 <= k < i + 1 ==> data[i := d][k] == Refresh(data0[k], point[k], nval, args, ops)
    ensures forall k :: i + 1 <= k < |point| ==> data[i := d][k] == data0[k]
    ensures forall k :: 0 <= k < i ==> qs[k] == (ops.filterMax(data[i := d][k].filter) >= filterVal)
  {
  }

  /** The loop over the dimensions: partition the sample, feed the split
      filter and, when the filter reached the critical value, count the
      candidate and let the draw decide whether it becomes the split dimension. */
  method ScanDimensions(data0: seq<DimStats>, point: seq<real>, nval: real, args: FilterArgs, filterVal: real,
                        ops: StatOps, rand: nat -> nat) returns (data: seq<DimStats>, cnt: nat, svar: nat)
    requires |data0| == |point|
    ensures data == RefreshAll(data0, point, nval, args, ops)
    ensures (cnt, svar) == Reservoir(Qualifying(data, ops, filterVal), rand)
  {
    data := data0;
    cnt, svar := 0, 0;
    ghost var qs: seq<bool> := [];
    var i := 0;
    while i < |point|
      invariant 0 <= i <= |point| && |data| == |point| && |qs| == i
      invariant forall k :: 0 <= k < i ==> data[k] == Refresh(data0[k], point[k], nval, args, ops)
      invariant forall k :: i <= k < |point| ==> data[k] == data0[k]
      invariant forall k :: 0 <= k < i ==> qs[k] == (ops.filterMax(data[k].filter) >= filterVal)
      invariant cnt == Reservoir(qs, rand).0 && svar == Reservoir(qs, rand).1
    {
      var d := data[i];
      if point[i] <= d.midpoint.avg {
        d := d.(lowq := Observe(d.lowq, nval, ops), lmid := AddPoint(d.lmid, point[i]));
      } else {
        d := d.(highq := Observe(d.highq, nval, ops), hmid := AddPoint(d.hmid, point[i]));
      }
      d := d.(filter := ops.filterAdd(d.filter, d.lowq, d.highq, args));
      assert d == Refresh(data[i], point[i], nval, args, ops);
      ScanStep(data0, data, qs, point, nval, args, filterVal, ops, i, d);
      data := data[i := d];
      ReservoirSnoc(qs, ops.filterMax(d.filter) >= filterVal, rand);
      qs := qs + [ops.filterMax(d.filter) >= filterVal];
      if ops.filterMax(d.filter) >= filterVal {
        cnt := cnt + 1;
        if rand(cnt) % cnt == 0 {
          svar := i;
        }
      }
      i := i + 1;
    }
    assert data == RefreshAll(data0, point, nval, args, ops);
    assert qs == Qualifying(data, ops, filterVal);
  }

  /** The rebalancing half of node_t::update: recentre every dimension whose
      partition counts are lopsided and whose combined average moved, then, if
      any was recentred, reset every split filter. */
  method Rebalance(data: seq<DimStats>, ops: StatOps) returns (r: seq<DimStats>)
    ensures r == Rebalanced(data, ops)
  {
    r := data;
    var rezero := false;
    for i := 0 to |data|
      invariant |r| == |data|
      invariant forall k :: 0 <= k < i ==> r[k] == Moved(data[k], ops)
      invariant forall k :: i <= k < |data| ==> r[k] == data[k]
      invariant rezero <==> exists k :: 0 <= k < i && Recentres(data[k])
    {
      var dp := r[i];
      var mx := MaxNat(dp.hmid.cnt, dp.lmid.cnt);
      var mn := MinNat(dp.hmid.cnt, dp.lmid.cnt);
      if mx >= 2 && Pow5(mn) < mx && mx > dp.midpoint.cnt {
        var nm := Merge(dp.lmid, dp.hmid);
        if nm.avg == dp.midpoint.avg {
          assert Moved(data[i], ops) == data[i];
          continue;
        }
        rezero := true;
        var half := nm.(cnt := nm.cnt / 2);
        var a := ops.approximate(dp.lowq, dp.highq);
        var lq := a.(cnt := a.cnt / 2);
        r := r[i := dp.(hmid := half, lmid := half, midpoint := Merge(dp.midpoint, nm), lowq := lq, highq := lq)];
        assert r[i] == Moved(data[i], ops);
      } else {
        assert Moved(data[i], ops) == data[i];
      }
    }
    if rezero {
      for i := 0 to |r|
        invariant |r| == |data|
        invariant forall k :: 0 <= k < i ==> r[k] == Moved(data[k], ops).(filter := FreshFilter)
        invariant forall k :: i <= k < |data| ==> r[k] == Moved(data[k], ops)
      {
        r := r[i := r[i].(filter := FreshFilter)];
      }
    }
  }
}
