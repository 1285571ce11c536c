/** Why the random choice of the split dimension has no bias.  With c
    qualifying dimensions, the choice depends only on the c draws, and only
    on the k-th draw modulo k (k from 1 to c).  Of the c! possible residue
    vectors, every candidate is chosen under exactly (c-1)! of them, so
    uniform draws choose each qualifying dimension with probability 1/c. */
module Fairness {
  import opened Leaf

  function Fact(n: nat): nat {
    if n == 0 then 1 else n * Fact(n - 1)
  }

  /** A vector of residues: the k-th entry (counting from 0) is a draw modulo k + 1. */
  predicate IsResidues(rs: seq<nat>) {
    forall k :: 0 <= k < |rs| ==> rs[k] < k + 1
  }

  /** The residues of the first c draws the reservoir makes. */
  function Residues(rand: nat -> nat, c: nat): (rs: seq<nat>)
    ensures |rs| == c && IsResidues(rs)
  {
    seq(c, k requires 0 <= k => rand(k + 1) % (k + 1))
  }

  /** The rank (counting from 1) of the candidate that holds the choice after
      all draws: the last one whose residue is zero; 0 for no draws. */
  function Winner(rs: seq<nat>): nat {
    if rs == [] then 0
    else if rs[|rs| - 1] == 0 then |rs|
    else Winner(rs[..|rs| - 1])
  }

  /** The rank of the candidate at position k: how many candidates are at or before it. */
  function Rank(q: seq<bool>, k: nat): nat
    requires k < |q|
  {
    CountTrue(q[..k + 1])
  }

  lemma {:induction false} WinnerRange(rs: seq<nat>)
    requires IsResidues(rs) && rs != []
    ensures 1 <= Winner(rs) <= |rs|
  {
    var p := rs[..|rs| - 1];
    if rs[|rs| - 1] != 0 {
      assert p != [] by { assert rs[0] < 1; }
      assert IsResidues(p) by {
        forall k | 0 <= k < |p| ensures p[k] < k + 1 {
          assert p[k] == rs[k];
        }
      }
      WinnerRange(p);
    }
  }

  /** The reservoir chooses the candidate whose rank is the winner of its draws. */
  lemma {:induction false} ReservoirWinner(q: seq<bool>, rand: nat -> nat)
    requires CountTrue(q) > 0
    ensures Reservoir(q, rand).1 < |q|
    ensures Rank(q, Reservoir(q, rand).1) == Winner(Residues(rand, CountTrue(q)))
  {
    ReservoirCount(q, rand);
    var last := |q| - 1;
    var p := q[..last];
    ReservoirCount(p, rand);
    var (c, s) := Reservoir(p, rand);
    assert q[..last + 1] == q;
    var rs := Residues(rand, CountTrue(q));
    if q[last] {
      assert rs[..c] == Residues(rand, c);
      if rand(c + 1) % (c + 1) != 0 {
        assert c > 0;
        ReservoirWinner(p, rand);
        assert q[..s + 1] == p[..s + 1];
      }
    } else {
      ReservoirWinner(p, rand);
      assert q[..s + 1] == p[..s + 1];
    }
  }

  lemma {:induction false} PrefixCount(q: seq<bool>, a: nat, b: nat)
    requires a <= b <= |q|
    ensures CountTrue(q[..a]) <= CountTrue(q[..b])
    decreases b
  {
    if a < b {
      assert q[..b][..b - 1] == q[..b - 1];
      PrefixCount(q, a, b - 1);
    }
  }

  /** Ranks lie between 1 and the number of candidates, and grow strictly along the candidates. */
  lemma RankBounds(q: seq<bool>, k: nat)
    requires k < |q| && q[k]
    ensures 1 <= Rank(q, k) <= CountTrue(q)
    ensures forall s :: 0 <= s < k ==> Rank(q, s) < Rank(q, k)
  {
    assert q[..k + 1][..k] == q[..k];
    PrefixCount(q, k + 1, |q|);
    assert q[..|q|] == q;
    forall s | 0 <= s < k ensures Rank(q, s) < Rank(q, k) {
      PrefixCount(q, s + 1, k);
    }
  }

  /** The reservoir chooses candidate k exactly when the winner of its draws is k's rank. */
  lemma ReservoirPicks(q: seq<bool>, rand: nat -> nat, k: nat)
    requires k < |q| && q[k]
    ensures CountTrue(q) > 0
    ensures Reservoir(q, rand).1 == k <==> Winner(Residues(rand, CountTrue(q))) == Rank(q, k)
  {
    RankBounds(q, k);
    ReservoirWinner(q, rand);
    ReservoirCount(q, rand);
    var s := Reservoir(q, rand).1;
    if s != k {
      RankBounds(q, s);
    }
  }

  /** Every residue vector of c draws: those of c - 1 draws, each followed by
      every residue below c. */
  function Vectors(c: nat): seq<seq<nat>> {
    if c == 0 then [[]] else Extend(Vectors(c - 1), c)
  }

  /** Each vector followed by each residue below c, in that order. */
  function Extend(vs: seq<seq<nat>>, c: nat): seq<seq<nat>> {
    if vs == [] then []
    else Extend(vs[..|vs| - 1], c) + Extensions(vs[|vs| - 1], c)
  }

  function Extensions(v: seq<nat>, k: nat): seq<seq<nat>> {
    seq(k, x requires 0 <= x => v + [x])
  }

  predicate Distinct(vs: seq<seq<nat>>) {
    forall i, j :: 0 <= i < j < |vs| ==> vs[i] != vs[j]
  }

  /** A vector is an extension exactly when it is a listed vector followed by a residue below c. */
  lemma {:induction false} ExtendMembers(vs: seq<seq<nat>>, c: nat, v: seq<nat>)
    ensures v in Extend(vs, c) <==> v != [] && v[..|v| - 1] in vs && v[|v| - 1] < c
  {
    if vs != [] {
      var n := |vs| - 1;
      ExtendMembers(vs[..n], c, v);
      assert vs == vs[..n] + [vs[n]];
      if v != [] && v[..|v| - 1] == vs[n] && v[|v| - 1] < c {
        assert v == vs[n] + [v[|v| - 1]];
        assert Extensions(vs[n], c)[v[|v| - 1]] == v;
      }
    }
  }

  lemma {:induction false} ExtendSize(vs: seq<seq<nat>>, c: nat)
    ensures |Extend(vs, c)| == |vs| * c
  {
    if vs != [] {
      ExtendSize(vs[..|vs| - 1], c);
      assert (|vs| - 1) * c + c == |vs| * c;
    }
  }

  lemma {:induction false} ExtendDistinct(vs: seq<seq<nat>>, c: nat)
    requires Distinct(vs)
    ensures Distinct(Extend(vs, c))
  {
    if vs != [] {
      var n := |vs| - 1;
      var a: seq<seq<nat>> := Extend(vs[..n], c);
      var b: seq<seq<nat>> := Extensions(vs[n], c);
      var e: seq<seq<nat>> := a + b;
      ExtendDistinct(vs[..n], c);
      forall i: int, j: int | 0 <= i < j < |e| ensures e[i] != e[j] {
        if i < |a| && |a| <= j {
          ExtendMembers(vs[..n], c, a[i]);
          var u := a[i];
          assert u[..|u| - 1] != vs[n];
          assert b[j - |a|][..|vs[n]|] == vs[n];
        } else if |a| <= i {
          assert b[i - |a|][|vs[n]|] != b[j - |a|][|vs[n]|];
        }
      }
    }
  }

  /** The enumeration holds c! vectors. */
  lemma {:induction false} VectorsSize(c: nat)
    ensures |Vectors(c)| == Fact(c)
  {
    if c > 0 {
      var prev := Vectors(c - 1);
      VectorsSize(c - 1);
      ExtendSize(prev, c);
      assert Fact(c) == c * Fact(c - 1);
      assert |prev| * c == c * |prev|;
      assert |Vectors(c)| == |prev| * c;
    }
  }

  /** The enumeration lists no vector twice. */
  lemma {:induction false} VectorsDistinct(c: nat)
    ensures Distinct(Vectors(c))
  {
    if c > 0 {
      VectorsDistinct(c - 1);
      ExtendDistinct(Vectors(c - 1), c);
    }
  }

  /** The enumeration holds only residue vectors of c draws. */
  lemma {:induction false} VectorsResidues(c: nat)
    ensures forall i :: 0 <= i < |Vectors(c)| ==> |Vectors(c)[i]| == c && IsResidues(Vectors(c)[i])
  {
    if c > 0 {
      var prev := Vectors(c - 1);
      VectorsResidues(c - 1);
      forall i | 0 <= i < |Vectors(c)| ensures |Vectors(c)[i]| == c && IsResidues(Vectors(c)[i]) {
        ExtendResidues(prev, c, Vectors(c)[i]);
      }
    }
  }

  lemma ExtendResidues(vs: seq<seq<nat>>, c: nat, v: seq<nat>)
    requires c > 0 && v in Extend(vs, c)
    requires forall i :: 0 <= i < |vs| ==> |vs[i]| == c - 1 && IsResidues(vs[i])
    ensures |v| == c && IsResidues(v)
  {
    ExtendMembers(vs, c, v);
    var p := v[..|v| - 1];
    assert v == p + [v[|v| - 1]];
    forall k | 0 <= k < |v| ensures v[k] < k + 1 {
      if k < |p| {
        assert v[k] == p[k];
      }
    }
  }

  /** The enumeration holds every residue vector of c draws. */
  lemma {:induction false} VectorsComplete(rs: seq<nat>)
    requires IsResidues(rs)
    ensures rs in Vectors(|rs|)
  {
    if rs != [] {
      var c := |rs|;
      var p := rs[..c - 1];
      assert IsResidues(p) by {
        forall k | 0 <= k < |p| ensures p[k] < k + 1 {
          assert p[k] == rs[k];
        }
      }
      VectorsComplete(p);
      ExtendMembers(Vectors(c - 1), c, rs);
    }
  }

  /** How many of the vectors make rank w the winner. */
  function CountWins(vs: seq<seq<nat>>, w: nat): nat {
    if vs == [] then 0
    else CountWins(vs[..|vs| - 1], w) + (if Winner(vs[|vs| - 1]) == w then 1 else 0)
  }

  lemma {:induction false} CountWinsAppend(a: seq<seq<nat>>, b: seq<seq<nat>>, w: nat)
    ensures CountWins(a + b, w) == CountWins(a, w) + CountWins(b, w)
    decreases |b|
  {
    if b == [] {
      assert a + b == a;
    } else {
      assert (a + b)[..|a + b| - 1] == a + b[..|b| - 1];
      CountWinsAppend(a, b[..|b| - 1], w);
    }
  }

  /** The k extensions of one vector by the residues below k: the one by 0
      makes the new rank the winner, the others keep the vector's winner. */
  lemma {:induction false} CountExtensions(v: seq<nat>, k: nat, w: nat)
    requires Winner(v) <= |v|
    ensures CountWins(Extensions(v, k), w) ==
      (if k > 0 && w == |v| + 1 then 1 else 0) + (if k > 0 && Winner(v) == w then k - 1 else 0)
  {
    if k > 0 {
      assert Extensions(v, k)[..k - 1] == Extensions(v, k - 1);
      CountExtensions(v, k - 1, w);
      assert (v + [k - 1])[..|v|] == v;
    }
  }

  /** Below rank c, each vector's wins are multiplied by the c - 1 nonzero residues. */
  lemma {:induction false} CountExtendEarlier(vs: seq<seq<nat>>, c: nat, w: nat)
    requires w < c
    requires forall i :: 0 <= i < |vs| ==> Winner(vs[i]) <= |vs[i]| == c - 1
    ensures CountWins(Extend(vs, c), w) == (c - 1) * CountWins(vs, w)
  {
    if vs != [] {
      var n := |vs| - 1;
      CountWinsAppend(Extend(vs[..n], c), Extensions(vs[n], c), w);
      CountExtendEarlier(vs[..n], c, w);
      CountExtensions(vs[n], c, w);
      var b := if Winner(vs[n]) == w then 1 else 0;
      assert (c - 1) * (CountWins(vs[..n], w) + b) == (c - 1) * CountWins(vs[..n], w) + (c - 1) * b;
    }
  }

  /** Rank c wins exactly under the extension of each vector by residue 0. */
  lemma {:induction false} CountExtendLast(vs: seq<seq<nat>>, c: nat)
    requires c > 0
    requires forall i :: 0 <= i < |vs| ==> Winner(vs[i]) <= |vs[i]| == c - 1
    ensures CountWins(Extend(vs, c), c) == |vs|
  {
    if vs != [] {
      var n := |vs| - 1;
      CountWinsAppend(Extend(vs[..n], c), Extensions(vs[n], c), c);
      CountExtendLast(vs[..n], c);
      CountExtensions(vs[n], c, c);
    }
  }

  lemma WinnersBelow(c: nat)
    ensures forall i :: 0 <= i < |Vectors(c)| ==> Winner(Vectors(c)[i]) <= |Vectors(c)[i]| == c
  {
    VectorsResidues(c);
    forall i | 0 <= i < |Vectors(c)| ensures Winner(Vectors(c)[i]) <= c {
      if c > 0 {
        WinnerRange(Vectors(c)[i]);
      }
    }
  }

  /** Of the c! residue vectors of c draws, each rank from 1 to c wins under exactly (c-1)!. */
  lemma {:induction false} EachRankWins(c: nat, w: nat)
    requires 1 <= w <= c
    ensures CountWins(Vectors(c), w) == Fact(c - 1)
    decreases c, 1
  {
    if w < c {
      EarlierRankWins(c, w);
    } else {
      LastRankWins(c);
    }
  }

  /** A rank below c wins under c - 1 extensions of each vector it won before. */
  lemma EarlierRankWins(c: nat, w: nat)
    requires 1 <= w < c
    ensures CountWins(Vectors(c), w) == Fact(c - 1)
    decreases c, 0
  {
    var before := CountWins(Vectors(c - 1), w);
    WinsStep(c, w);
    EachRankWins(c - 1, w);
    assert before == Fact(c - 2);
    assert Fact(c - 1) == (c - 1) * Fact(c - 2);
  }

  lemma WinsStep(c: nat, w: nat)
    requires 1 <= w < c
    ensures CountWins(Vectors(c), w) == (c - 1) * CountWins(Vectors(c - 1), w)
  {
    WinnersBelow(c - 1);
    CountExtendEarlier(Vectors(c - 1), c, w);
  }

  /** Rank c wins under the extension by residue 0 of every vector, and only there. */
  lemma LastRankWins(c: nat)
    requires 1 <= c
    ensures CountWins(Vectors(c), c) == Fact(c - 1)
  {
    WinnersBelow(c - 1);
    CountExtendLast(Vectors(c - 1), c);
    VectorsSize(c - 1);
  }

  /** No bias in the split choice: with c qualifying dimensions, of the c!
      residue vectors the draws can produce, the reservoir chooses a given
      qualifying dimension k under exactly (c-1)! of them, namely those whose
      winner is k's rank. */
  lemma ChoiceUnbiased(q: seq<bool>, k: nat)
    requires k < |q| && q[k]
    ensures CountTrue(q) > 0 && |Vectors(CountTrue(q))| == Fact(CountTrue(q)) && Distinct(Vectors(CountTrue(q)))
    ensures forall rand: nat -> nat :: Residues(rand, CountTrue(q)) in Vectors(CountTrue(q))
    ensures forall rand: nat -> nat ::
      Reservoir(q, rand).1 == k <==> Winner(Residues(rand, CountTrue(q))) == Rank(q, k)
    ensures CountWins(Vectors(CountTrue(q)), Rank(q, k)) == Fact(CountTrue(q) - 1)
  {
    RankBounds(q, k);
    VectorsSize(CountTrue(q));
    VectorsDistinct(CountTrue(q));
    forall rand: nat -> nat ensures Residues(rand, CountTrue(q)) in Vectors(CountTrue(q)) {
      VectorsComplete(Residues(rand, CountTrue(q)));
    }
    forall rand: nat -> nat
      ensures Reservoir(q, rand).1 == k <==> Winner(Residues(rand, CountTrue(q))) == Rank(q, k)
    {
      ReservoirPicks(q, rand, k);
    }
    EachRankWins(CountTrue(q), Rank(q, k));
  }
}
