/**
 * Ranking the recorded averages: `sorted(results.items(), key=lambda item: item[1])`,
 * a stable sort by average, and the slice `[:3]` of it.
 */
module Ranking {
  import opened Sampling

  /** How many addresses the report names. */
  const TopCount: nat := 3

  predicate SortedByAvg(s: seq<Entry>) {
    forall p, q :: 0 <= p < q < |s| ==> s[p].avg <= s[q].avg
  }

  /** The entries of s whose average is v, in their order in s. */
  function WithAvg(s: seq<Entry>, v: real): seq<Entry> {
    if s == [] then [] else (if s[0].avg == v then [s[0]] else []) + WithAvg(s[1..], v)
  }

  lemma {:induction false} WithAvgAppend(s: seq<Entry>, t: seq<Entry>, v: real)
    ensures WithAvg(s + t, v) == WithAvg(s, v) + WithAvg(t, v)
  {
    if s == [] {
      assert s + t == t;
    } else {
      assert (s + t)[1..] == s[1..] + t;
      WithAvgAppend(s[1..], t, v);
    }
  }

  lemma {:induction false} WithAvgMembers(s: seq<Entry>, v: real, e: Entry)
    ensures e in WithAvg(s, v) <==> e in s && e.avg == v
  {
    if s != [] {
      WithAvgMembers(s[1..], v, e);
      assert e in s <==> e == s[0] || e in s[1..];
    }
  }

  /** Insertion of e in front of every entry that is not faster, so e stays ahead of its ties. */
  function Insert(e: Entry, s: seq<Entry>): seq<Entry> {
    if s == [] || e.avg <= s[0].avg then [e] + s else [s[0]] + Insert(e, s[1..])
  }

  /** Inserting adds e and nothing else. */
  lemma {:induction false} InsertMultiset(e: Entry, s: seq<Entry>)
    ensures multiset(Insert(e, s)) == multiset(s) + multiset{e}
    ensures |Insert(e, s)| == |s| + 1
  {
    if !(s == [] || e.avg <= s[0].avg) {
      InsertMultiset(e, s[1..]);
      assert s == [s[0]] + s[1..];
    }
  }

  /** A bound below e and below every entry of s is a bound below every entry of the insertion. */
  lemma {:induction false} InsertBounded(e: Entry, s: seq<Entry>, lo: real)
    requires lo <= e.avg && forall p :: 0 <= p < |s| ==> lo <= s[p].avg
    ensures forall p :: 0 <= p < |Insert(e, s)| ==> lo <= Insert(e, s)[p].avg
  {
    if !(s == [] || e.avg <= s[0].avg) {
      InsertBounded(e, s[1..], lo);
    }
  }

  /** Inserting into a sorted sequence keeps it sorted. */
  lemma {:induction false} InsertSorted(e: Entry, s: seq<Entry>)
    requires SortedByAvg(s)
    ensures SortedByAvg(Insert(e, s))
  {
    if !(s == [] || e.avg <= s[0].avg) {
      var rest := Insert(e, s[1..]);
      InsertSorted(e, s[1..]);
      InsertBounded(e, s[1..], s[0].avg);
      var r := [s[0]] + rest;
      assert forall q :: 1 <= q < |r| ==> r[q] == rest[q - 1];
    }
  }

  /** Unfolding WithAvg once at the front. */
  lemma WithAvgCons(x: Entry, t: seq<Entry>, v: real)
    ensures WithAvg([x] + t, v) == (if x.avg == v then [x] else []) + WithAvg(t, v)
  {
    assert ([x] + t)[1..] == t;
  }

  /** Inserting puts e ahead of the entries that tie with it and keeps their order. */
  lemma {:induction false} InsertStable(e: Entry, s: seq<Entry>, v: real)
    ensures WithAvg(Insert(e, s), v) == WithAvg([e] + s, v)
  {
    if !(s == [] || e.avg <= s[0].avg) {
      var x, tail := s[0], s[1..];
      var rest := Insert(e, tail);
      assert Insert(e, s) == [x] + rest;
      assert s == [x] + tail;
      InsertStable(e, tail, v);
      WithAvgCons(x, rest, v);
      WithAvgCons(e, tail, v);
      WithAvgCons(e, s, v);
      WithAvgCons(x, tail, v);
      SwapHeads(e, x, WithAvg(tail, v), v);
    }
  }

  /** Two entries with different averages can trade places as far as WithAvg sees. */
  lemma SwapHeads(e: Entry, x: Entry, w: seq<Entry>, v: real)
    requires x.avg < e.avg
    ensures (if x.avg == v then [x] else []) + ((if e.avg == v then [e] else []) + w)
         == (if e.avg == v then [e] else []) + ((if x.avg == v then [x] else []) + w)
  {
    if x.avg == v {
      assert e.avg != v;
    }
  }

  /** The stable sort by average that `sorted(..., key=avg)` performs. */
  function SortByAvg(s: seq<Entry>): seq<Entry> {
    if s == [] then [] else Insert(s[0], SortByAvg(s[1..]))
  }

  /** The sort is a permutation of its input. */
  lemma {:induction false} SortByAvgPermutes(s: seq<Entry>)
    ensures |SortByAvg(s)| == |s|
    ensures multiset(SortByAvg(s)) == multiset(s)
  {
    if s != [] {
      SortByAvgPermutes(s[1..]);
      InsertMultiset(s[0], SortByAvg(s[1..]));
      assert s == [s[0]] + s[1..];
    }
  }

  /** The sort orders by ascending average. */
  lemma {:induction false} SortByAvgSorted(s: seq<Entry>)
    ensures SortedByAvg(SortByAvg(s))
  {
    if s != [] {
      SortByAvgSorted(s[1..]);
      InsertSorted(s[0], SortByAvg(s[1..]));
    }
  }

  /** The sort is stable: the entries with any one average keep their input order. */
  lemma {:induction false} SortByAvgStable(s: seq<Entry>, v: real)
    ensures WithAvg(SortByAvg(s), v) == WithAvg(s, v)
  {
    if s != [] {
      var rest := SortByAvg(s[1..]);
      SortByAvgStable(s[1..], v);
      InsertStable(s[0], rest, v);
      assert ([s[0]] + rest)[1..] == rest;
    }
  }

  lemma LeadingAvgPresent(s: seq<Entry>)
    ensures s != [] ==> WithAvg(s, s[0].avg) != []
  {
  }

  /**
   * Ties kept in order determine a sort: two sequences sorted by average whose
   * entries of each average come in the same order are equal. Any stable sort,
   * Python's included, therefore gives what SortByAvg gives.
   */
  lemma {:induction false} StableSortUnique(s: seq<Entry>, t: seq<Entry>)
    requires SortedByAvg(s) && SortedByAvg(t)
    requires forall v :: WithAvg(s, v) == WithAvg(t, v)
    ensures s == t
    decreases |s|
  {
    if s == [] || t == [] {
      LeadingAvgPresent(s);
      LeadingAvgPresent(t);
    } else {
      var a, b := s[0].avg, t[0].avg;
      WithAvgMembers(s, b, t[0]);
      WithAvgMembers(t, b, t[0]);
      WithAvgMembers(t, a, s[0]);
      WithAvgMembers(s, a, s[0]);
      assert t[0] in WithAvg(t, b);
      assert s[0] in WithAvg(s, a);
      var p :| 0 <= p < |s| && s[p] == t[0];
      var q :| 0 <= q < |t| && t[q] == s[0];
      assert a <= b && b <= a;
      assert s[0] == WithAvg(s, a)[0] == WithAvg(t, a)[0] == t[0];
      forall v ensures WithAvg(s[1..], v) == WithAvg(t[1..], v) {
        var h := if a == v then [s[0]] else [];
        assert WithAvg(s, v) == h + WithAvg(s[1..], v);
        assert WithAvg(t, v) == h + WithAvg(t[1..], v);
        assert WithAvg(s[1..], v) == WithAvg(s, v)[|h|..];
        assert WithAvg(t[1..], v) == WithAvg(t, v)[|h|..];
      }
      StableSortUnique(s[1..], t[1..]);
      assert s == [s[0]] + s[1..] && t == [t[0]] + t[1..];
    }
  }

  /** Python's `sorted` is stable, so what it returns is exactly SortByAvg. */
  lemma SortByAvgIsTheStableSort(s: seq<Entry>, t: seq<Entry>)
    requires SortedByAvg(t) && forall v :: WithAvg(t, v) == WithAvg(s, v)
    ensures t == SortByAvg(s)
  {
    SortByAvgSorted(s);
    forall v ensures WithAvg(SortByAvg(s), v) == WithAvg(t, v) {
      SortByAvgStable(s, v);
    }
    StableSortUnique(SortByAvg(s), t);
  }

  /** Only two addresses answered, D faster than B: the report lists D then B and is not padded. */
  lemma RankTwoSuccesses()
    ensures Rank([Entry("B", 50.0), Entry("D", 10.0)]) == [Entry("D", 10.0), Entry("B", 50.0)]
  {
    var s := [Entry("B", 50.0), Entry("D", 10.0)];
    assert s[1..][1..] == [];
    assert SortByAvg(s) == [Entry("D", 10.0), Entry("B", 50.0)];
  }

  /** Two equal averages keep the order in which they were recorded. */
  lemma RankTie()
    ensures Rank([Entry("A", 15.0), Entry("B", 15.0), Entry("C", 30.0), Entry("E", 5.0)])
         == [Entry("E", 5.0), Entry("A", 15.0), Entry("B", 15.0)]
  {
    var s := [Entry("A", 15.0), Entry("B", 15.0), Entry("C", 30.0), Entry("E", 5.0)];
    assert s[1..] == [Entry("B", 15.0), Entry("C", 30.0), Entry("E", 5.0)];
    assert s[1..][1..] == [Entry("C", 30.0), Entry("E", 5.0)];
    assert s[1..][1..][1..] == [Entry("E", 5.0)];
    assert s[1..][1..][1..][1..] == [];
    assert SortByAvg(s) == [Entry("E", 5.0), Entry("A", 15.0), Entry("B", 15.0), Entry("C", 30.0)];
  }

  /** The entries of s whose average is v that lie in its first k items are a prefix of all of them. */
  lemma WithAvgOfPrefix(s: seq<Entry>, k: nat, v: real)
    requires k <= |s|
    ensures WithAvg(s[..k], v) <= WithAvg(s, v)
  {
    assert s == s[..k] + s[k..];
    WithAvgAppend(s[..k], s[k..], v);
  }

  /** The first k entries of a sorted sequence are its fastest: no later entry beats one of them. */
  lemma SortedPrefixFastest(sorted: seq<Entry>, k: nat, e: Entry)
    requires SortedByAvg(sorted) && k <= |sorted|
    requires e in sorted && e !in sorted[..k]
    ensures forall p :: 0 <= p < k ==> sorted[p].avg <= e.avg
  {
    var j :| 0 <= j < |sorted| && sorted[j] == e;
    assert forall i :: 0 <= i < k ==> sorted[..k][i] == sorted[i];
  }

  /**
   * `sorted(results.items(), key=...)[:3]`: the three fastest entries, fastest
   * first, fewer when fewer were recorded; ties keep their insertion order.
   */
  function Rank(results: seq<Entry>): (top: seq<Entry>)
    ensures |top| == if |results| < TopCount then |results| else TopCount
    ensures SortedByAvg(top)
    ensures multiset(top) <= multiset(results)
    ensures forall p, e :: 0 <= p < |top| && e in results && e !in top ==> top[p].avg <= e.avg
    ensures forall v :: WithAvg(top, v) <= WithAvg(results, v)
  {
    var sorted := SortByAvg(results);
    SortByAvgPermutes(results);
    SortByAvgSorted(results);
    var k := if |sorted| < TopCount then |sorted| else TopCount;
    RankFacts(results, sorted, k);
    sorted[..k]
  }

  lemma RankFacts(results: seq<Entry>, sorted: seq<Entry>, k: nat)
    requires sorted == SortByAvg(results) && k <= |sorted|
    requires SortedByAvg(sorted) && multiset(sorted) == multiset(results)
    ensures SortedByAvg(sorted[..k])
    ensures multiset(sorted[..k]) <= multiset(results)
    ensures forall p, e :: 0 <= p < k && e in results && e !in sorted[..k] ==> sorted[..k][p].avg <= e.avg
    ensures forall v :: WithAvg(sorted[..k], v) <= WithAvg(results, v)
  {
    assert sorted == sorted[..k] + sorted[k..];
    assert multiset(sorted) == multiset(sorted[..k]) + multiset(sorted[k..]);
    forall e | e in results && e !in sorted[..k]
      ensures forall p :: 0 <= p < k ==> sorted[..k][p].avg <= e.avg
    {
      assert e in multiset(sorted);
      SortedPrefixFastest(sorted, k, e);
    }
    forall v ensures WithAvg(sorted[..k], v) <= WithAvg(results, v) {
      WithAvgOfPrefix(sorted, k, v);
      SortByAvgStable(results, v);
    }
  }
}
