/** Running statistics kept by the refinement tree: averages (avg_t), value
    accumulators (qvar_t), split filters and the per-dimension records built
    from them (qdata_t).  The floating-point internals of these types live in
    headers outside this model; they are supplied through StatOps. Sample
    counts are unbounded naturals, and halving one is floor division. */
module Stats {

  datatype Option<T> = None | Some(value: T)

  /** A double as the tree observes it: finite, one of the two infinities, or NaN. */
  datatype Double = Finite(v: real) | PosInf | NegInf | NaN

  /** The `<` comparison of doubles; false as soon as NaN is involved. */
  predicate Lt(a: Double, b: Double) {
    match (a, b)
    case (Finite(x), Finite(y)) => x < y
    case (NegInf, Finite(_)) => true
    case (NegInf, PosInf) => true
    case (Finite(_), PosInf) => true
    case _ => false
  }

  /** std::min and std::max on doubles: the first argument unless the second compares better. */
  function StdMin(a: Double, b: Double): Double { if Lt(b, a) then b else a }
  function StdMax(a: Double, b: Double): Double { if Lt(a, b) then b else a }

  function MinNat(a: nat, b: nat): nat { if a <= b then a else b }
  function MaxNat(a: nat, b: nat): nat { if a <= b then b else a }
  function MinReal(a: real, b: real): real { if a <= b then a else b }
  function MaxReal(a: real, b: real): real { if a <= b then b else a }

  /** avg_t: a number of samples and their mean. */
  datatype Avg = Avg(cnt: nat, avg: real)

  const NoSamples: Avg := Avg(0, 0.0)

  /** The count-weighted mean of two independently collected streams
      (`avg_t += avg_t`); a stream without samples contributes nothing. */
  function Merge(a: Avg, b: Avg): (r: Avg)
    ensures r.cnt == a.cnt + b.cnt
    ensures b.cnt == 0 ==> r == a
    ensures a.cnt == 0 && b.cnt > 0 ==> r == b
    ensures a.cnt > 0 && b.cnt > 0 ==> MinReal(a.avg, b.avg) <= r.avg <= MaxReal(a.avg, b.avg)
  {
    if b.cnt == 0 then a
    else if a.cnt == 0 then b
    else
      Avg(a.cnt + b.cnt, WeightedMean(a.avg, b.avg, a.cnt as real, b.cnt as real))
  }

  /** The mean of two means weighted by their (positive) sample counts. */
  function WeightedMean(x: real, y: real, n: real, m: real): (r: real)
    requires n > 0.0 && m > 0.0
    ensures MinReal(x, y) <= r <= MaxReal(x, y)
  {
    WeightedMeanBetween(x, y, n, m);
    (x * n + y * m) / (n + m)
  }

  lemma WeightedMeanBetween(x: real, y: real, n: real, m: real)
    requires n > 0.0 && m > 0.0
    ensures MinReal(x, y) <= (x * n + y * m) / (n + m) <= MaxReal(x, y)
  {
    var lo, hi := MinReal(x, y), MaxReal(x, y);
    assert lo * n <= x * n <= hi * n;
    assert lo * m <= y * m <= hi * m;
    var s, t := x * n + y * m, n + m;
    assert lo * t <= s <= hi * t;
    var q := s / t;
    assert q * t == s;
  }

  /** Adds one sample to an average (`avg_t += double`). */
  function AddPoint(a: Avg, x: real): (r: Avg)
    ensures r.cnt == a.cnt + 1
    ensures a.cnt == 0 ==> r.avg == x
  {
    Merge(a, Avg(1, x))
  }

  /** qvar_t: a sample count, the running mean (possibly non-finite) and the variance. */
  datatype QVar = QVar(cnt: nat, avg: Double, variance: real)

  const NoValues: QVar := QVar(0, Finite(0.0), 0.0)

  /** The internal statistics of a split filter. Their layout lives in a
      header outside this model: only `add` and `max` (from StatOps) and
      `reset` act on them. */
  datatype SplitFilter = SplitFilter(state: seq<real>)

  /** The state of a filter after reset() or default construction. */
  const FreshFilter: SplitFilter := SplitFilter([])

  /** The arguments handed to the split filter's add: the indifference margin
      (already scaled by the step size), the two critical thresholds, the
      statistic's bound and the forgetting rate. */
  datatype FilterArgs = FilterArgs(indifference: real, lowerT: real, upperT: real, limit: real, rate: real)

  /** qdata_t: the per-dimension bookkeeping of a live leaf. */
  datatype DimStats = DimStats(
    midpoint: Avg,
    lowq: QVar, highq: QVar,
    lmid: Avg, hmid: Avg,
    filter: SplitFilter)

  const EmptyDim: DimStats := DimStats(NoSamples, NoValues, NoValues, NoSamples, NoSamples, FreshFilter)

  /** propts_t: the learning options read by a leaf update. */
  datatype Options = Options(
    qLearnRate: nat,
    indefference: real,
    lowerT: real, upperT: real,
    ksLimit: real,
    filterRate: real,
    filterVal: real)

  /** The numeric kernels this model does not define: the mean/variance step
      of `qvar_t += double`, `qvar_t::approximate`, the split filter's add and max,
      and the linear program of set_correction (None when it finds no optimum). */
  datatype StatOps = StatOps(
    observe: (QVar, real) -> (Double, real),
    approximate: (QVar, QVar) -> QVar,
    filterAdd: (SplitFilter, QVar, QVar, FilterArgs) -> SplitFilter,
    filterMax: SplitFilter -> real,
    correction: (seq<DimStats>, QVar) -> Option<seq<real>>)

  /** `qvar_t::approximate` pools the samples of both streams: the merged
      count is the sum of the two counts. */
  ghost predicate MergesCounts(ops: StatOps) {
    forall a: QVar, b: QVar :: ops.approximate(a, b).cnt == a.cnt + b.cnt
  }

  /** `qvar_t += double`: one more sample, mean and variance from the kernel. */
  function Observe(q: QVar, x: real, ops: StatOps): (r: QVar)
    ensures r.cnt == q.cnt + 1
  {
    var (m, v) := ops.observe(q, x);
    QVar(q.cnt + 1, m, v)
  }
}
