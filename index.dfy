/** The label index (`_mapping`): entries {label, root index} kept sorted by
    label, one per label, searched with std::lower_bound. */
module Index {
  import opened Stats

  /** el_t: a label (`key`) and the arena index of its tree's root. */
  datatype Entry = Entry(key: nat, nid: nat)

  /** Strictly increasing labels: sorted, and one entry per label. */
  predicate SortedLabels(m: seq<Entry>) {
    forall i, j :: 0 <= i < j < |m| ==> m[i].key < m[j].key
  }

  function Labels(m: seq<Entry>): set<nat> {
    set e | e in m :: e.key
  }

  /** Every root lies inside an arena of `size` nodes. */
  predicate RootsBelow(m: seq<Entry>, size: nat) {
    forall e :: e in m ==> e.nid < size
  }

  /** The root recorded for a label, if the label is known. */
  function RootOf(m: seq<Entry>, key: nat): (r: Option<nat>)
    ensures r.Some? <==> key in Labels(m)
    ensures r.Some? ==> Entry(key, r.value) in m
  {
    if m == [] then None
    else
      assert Labels(m) == {m[0].key} + Labels(m[1..]) by {
        assert forall e :: e in m <==> e == m[0] || e in m[1..];
      }
      if m[0].key == key then Some(m[0].nid) else RootOf(m[1..], key)
  }

  /** In a sorted index the entry at any position is the one RootOf finds. */
  lemma {:induction false} RootAt(m: seq<Entry>, k: nat)
    requires SortedLabels(m) && k < |m|
    ensures RootOf(m, m[k].key) == Some(m[k].nid)
  {
    if k > 0 {
      assert m[1..][k - 1] == m[k];
      RootAt(m[1..], k - 1);
    }
  }

  /** The sorted index with one more entry, placed before every label not smaller than its own. */
  function InsertSorted(m: seq<Entry>, e: Entry): seq<Entry> {
    if m == [] || e.key <= m[0].key then [e] + m
    else [m[0]] + InsertSorted(m[1..], e)
  }

  /** Inserting an unseen label keeps the index sorted, adds exactly that
      entry, and leaves the root of every other label where it was. */
  lemma InsertSortedSpec(m: seq<Entry>, e: Entry)
    requires SortedLabels(m) && e.key !in Labels(m)
    ensures SortedLabels(InsertSorted(m, e))
    ensures multiset(InsertSorted(m, e)) == multiset(m) + multiset{e}
    ensures Labels(InsertSorted(m, e)) == Labels(m) + {e.key}
    ensures RootOf(InsertSorted(m, e), e.key) == Some(e.nid)
    ensures forall l :: l != e.key ==> RootOf(InsertSorted(m, e), l) == RootOf(m, l)
  {
    var r := InsertSorted(m, e);
    InsertSortedElems(m, e);
    InsertSortedOrder(m, e);
    InsertSortedRoots(m, e);
    assert forall x :: x in r <==> x in m || x == e by {
      forall x ensures x in r <==> x in m || x == e {
        assert x in r <==> x in multiset(r);
        assert x in m <==> x in multiset(m);
      }
    }
  }

  lemma {:induction false} InsertSortedElems(m: seq<Entry>, e: Entry)
    ensures multiset(InsertSorted(m, e)) == multiset(m) + multiset{e}
  {
    if m == [] || e.key <= m[0].key {
    } else {
      InsertSortedElems(m[1..], e);
      assert m == [m[0]] + m[1..];
    }
  }

  lemma {:induction false} InsertSortedOrder(m: seq<Entry>, e: Entry)
    requires SortedLabels(m) && e.key !in Labels(m)
    ensures SortedLabels(InsertSorted(m, e))
  {
    var r := InsertSorted(m, e);
    if m == [] || e.key <= m[0].key {
      assert m != [] ==> e.key < m[0].key by {
        if m != [] { assert m[0] in m; }
      }
      assert r[1..] == m;
    } else {
      var t := m[1..];
      assert Labels(t) <= Labels(m) by {
        forall x | x in t ensures x in m { }
      }
      InsertSortedOrder(t, e);
      var rt := InsertSorted(t, e);
      assert r[1..] == rt;
      assert m[0].key < e.key by {
        assert m[0] in m;
      }
      InsertSortedAbove(t, e, m[0].key);
      forall i, j | 0 <= i < j < |r| ensures r[i].key < r[j].key {
        assert r[j] == rt[j - 1];
        if i > 0 {
          assert r[i] == rt[i - 1];
        }
      }
    }
  }

  /** A bound below every label and below the inserted one stays below every label after insertion. */
  lemma InsertSortedAbove(t: seq<Entry>, e: Entry, low: nat)
    requires forall j :: 0 <= j < |t| ==> low < t[j].key
    requires low < e.key
    ensures forall j :: 0 <= j < |InsertSorted(t, e)| ==> low < InsertSorted(t, e)[j].key
  {
    var rt := InsertSorted(t, e);
    InsertSortedElems(t, e);
    forall j | 0 <= j < |rt| ensures low < rt[j].key {
      var x := rt[j];
      assert x in multiset(rt);
      if x != e {
        assert x in multiset(t);
        var i :| 0 <= i < |t| && t[i] == x;
      }
    }
  }

  lemma {:induction false} InsertSortedRoots(m: seq<Entry>, e: Entry)
    requires e.key !in Labels(m)
    ensures forall l :: RootOf(InsertSorted(m, e), l) == if l == e.key then Some(e.nid) else RootOf(m, l)
  {
    var r := InsertSorted(m, e);
    if m == [] || e.key <= m[0].key {
      assert r[1..] == m;
    } else {
      var t := m[1..];
      assert m[0] in m;
      assert Labels(t) <= Labels(m) by {
        forall x | x in t ensures x in m { }
      }
      InsertSortedRoots(t, e);
      assert r[1..] == InsertSorted(t, e);
    }
  }

  /** Inserting at the lower-bound position is inserting in sorted order. */
  lemma {:induction false} InsertAtLowerBound(m: seq<Entry>, k: nat, e: Entry)
    requires k <= |m|
    requires forall j :: 0 <= j < k ==> m[j].key < e.key
    requires forall j :: k <= j < |m| ==> e.key <= m[j].key
    ensures m[..k] + [e] + m[k..] == InsertSorted(m, e)
  {
    if k == 0 {
      assert m[..0] + [e] + m[0..] == [e] + m;
    } else {
      var t := m[1..];
      InsertAtLowerBound(t, k - 1, e);
      assert m[..k] + [e] + m[k..] == [m[0]] + (t[..k - 1] + [e] + t[k - 1..]);
    }
  }

  /** std::lower_bound on the index: the first position whose label is not
      smaller than `key`, found by halving the searched range. */
  method LowerBound(m: seq<Entry>, key: nat) returns (k: nat)
    requires SortedLabels(m)
    ensures k <= |m|
    ensures forall j :: 0 <= j < k ==> m[j].key < key
    ensures forall j :: k <= j < |m| ==> key <= m[j].key
  {
    var lo, hi := 0, |m|;
    while lo < hi
      invariant 0 <= lo <= hi <= |m|
      invariant forall j :: 0 <= j < lo ==> m[j].key < key
      invariant forall j :: hi <= j < |m| ==> key <= m[j].key
      decreases hi - lo
    {
      var mid := lo + (hi - lo) / 2;
      if m[mid].key < key {
        lo := mid + 1;
      } else {
        hi := mid;
      }
    }
    k := lo;
  }
}
