/**
 * `nlargest(n, column)` with its default `keep='first'` (main.py:741,
 * 1071-1085): the rows with a key come first, largest key first, and among
 * equal keys the earlier row comes first; the rows whose key is missing
 * follow in table order; the first `n` of this listing are returned.
 */
module Ranking {
  import opened Wrappers

  /** A row that has a key, identified by its position in the table. */
  datatype Cand = Cand(index: nat, key: real)

  /** `a` ranks strictly ahead of `b`: a larger key, or the same key on an earlier row. */
  predicate Before(a: Cand, b: Cand)
  {
    a.key > b.key || (a.key == b.key && a.index < b.index)
  }

  /** Strictly in rank order (hence no row twice). */
  predicate Ranked(s: seq<Cand>)
  {
    forall i, j :: 0 <= i < j < |s| ==> Before(s[i], s[j])
  }

  predicate FreshIndex(c: Cand, s: seq<Cand>)
  {
    forall k :: 0 <= k < |s| ==> s[k].index != c.index
  }

  predicate DistinctIndices(s: seq<Cand>)
  {
    forall i, j :: 0 <= i < j < |s| ==> s[i].index != s[j].index
  }

  /** Places `c` into a ranked sequence. */
  function Insert(c: Cand, s: seq<Cand>): (r: seq<Cand>)
    requires Ranked(s) && FreshIndex(c, s)
    ensures |r| == |s| + 1 && Ranked(r)
    ensures c in r && forall k :: 0 <= k < |s| ==> s[k] in r
    ensures forall k :: 0 <= k < |r| ==> r[k] == c || r[k] in s
  {
    if s == [] || Before(c, s[0]) then [c] + s
    else
      var rest := Insert(c, s[1..]);
      assert Before(s[0], c);
      [s[0]] + rest
  }

  /** The candidates in rank order. */
  function Sort(s: seq<Cand>): (r: seq<Cand>)
    requires DistinctIndices(s)
    ensures |r| == |s| && Ranked(r)
    ensures forall k :: 0 <= k < |s| ==> s[k] in r
    ensures forall k :: 0 <= k < |r| ==> r[k] in s
  {
    if s == [] then []
    else
      var rest := Sort(s[1..]);
      assert FreshIndex(s[0], rest) by {
        forall k | 0 <= k < |rest| ensures rest[k].index != s[0].index {
          assert rest[k] in s[1..];
        }
      }
      Insert(s[0], rest)
  }

  /** The first `m` rows whose key is missing, by position, in table order. */
  function Unkeyed<T>(rows: seq<T>, key: T -> Option<real>, m: nat): (u: seq<nat>)
    requires m <= |rows|
    ensures forall k :: 0 <= k < |u| ==> u[k] < m && key(rows[u[k]]).None?
    ensures forall j :: 0 <= j < m && key(rows[j]).None? ==> j in u
    ensures forall i, j :: 0 <= i < j < |u| ==> u[i] < u[j]
  {
    if m == 0 then []
    else Unkeyed(rows, key, m - 1) + (if key(rows[m - 1]).None? then [m - 1] else [])
  }

  /** The first `m` rows that have a key, as candidates, in table order. */
  function Candidates<T>(rows: seq<T>, key: T -> Option<real>, m: nat): (c: seq<Cand>)
    requires m <= |rows|
    ensures forall k :: 0 <= k < |c| ==> c[k].index < m && key(rows[c[k].index]) == Some(c[k].key)
    ensures forall j :: 0 <= j < m && key(rows[j]).Some? ==> Cand(j, key(rows[j]).value) in c
    ensures forall i, j :: 0 <= i < j < |c| ==> c[i].index < c[j].index
  {
    if m == 0 then []
    else
      var earlier := Candidates(rows, key, m - 1);
      var k := key(rows[m - 1]);
      earlier + (if k.Some? then [Cand(m - 1, k.value)] else [])
  }

  /** Row `i` ranks strictly ahead of row `j` (both have a key). */
  predicate Ahead<T>(rows: seq<T>, key: T -> Option<real>, i: nat, j: nat)
    requires i < |rows| && j < |rows| && key(rows[i]).Some? && key(rows[j]).Some?
  {
    Before(Cand(i, key(rows[i]).value), Cand(j, key(rows[j]).value))
  }

  function Min(a: nat, b: nat): nat
  {
    if a <= b then a else b
  }

  /** The row positions of a run of candidates. */
  function IndicesOf(top: seq<Cand>): (r: seq<nat>)
    ensures |r| == |top| && forall k :: 0 <= k < |top| ==> r[k] == top[k].index
  {
    seq(|top|, k requires 0 <= k < |top| => top[k].index)
  }

  /** Every row with a key, as a candidate, in rank order. */
  predicate RankedCandidates<T>(rows: seq<T>, key: T -> Option<real>, sorted: seq<Cand>)
  {
    Ranked(sorted) &&
    (forall k :: 0 <= k < |sorted| ==> sorted[k].index < |rows| && key(rows[sorted[k].index]) == Some(sorted[k].key)) &&
    (forall j :: 0 <= j < |rows| && key(rows[j]).Some? ==> Cand(j, key(rows[j]).value) in sorted)
  }

  function SortedCandidates<T>(rows: seq<T>, key: T -> Option<real>): (sorted: seq<Cand>)
    ensures RankedCandidates(rows, key, sorted)
    ensures |sorted| == |Candidates(rows, key, |rows|)|
  {
    var candidates := Candidates(rows, key, |rows|);
    var sorted := Sort(candidates);
    assert forall k :: 0 <= k < |sorted| ==> sorted[k] in candidates;
    sorted
  }

  /** Every row either has a key or has none. */
  lemma {:induction false} KeyedAndUnkeyed<T>(rows: seq<T>, key: T -> Option<real>, m: nat)
    requires m <= |rows|
    ensures |Candidates(rows, key, m)| + |Unkeyed(rows, key, m)| == m
  {
    if m > 0 {
      KeyedAndUnkeyed(rows, key, m - 1);
      var c, u := Candidates(rows, key, m - 1), Unkeyed(rows, key, m - 1);
      if key(rows[m - 1]).Some? {
        assert Candidates(rows, key, m) == c + [Cand(m - 1, key(rows[m - 1]).value)];
        assert Unkeyed(rows, key, m) == u + [];
      } else {
        assert Candidates(rows, key, m) == c + [];
        assert Unkeyed(rows, key, m) == u + [m - 1];
      }
    }
  }

  /** Every row with a key has a rank. */
  lemma RankOf<T>(rows: seq<T>, key: T -> Option<real>, sorted: seq<Cand>, j: nat) returns (p: nat)
    requires RankedCandidates(rows, key, sorted)
    requires j < |rows| && key(rows[j]).Some?
    ensures p < |sorted| && sorted[p].index == j
  {
    var c := Cand(j, key(rows[j]).value);
    p :| 0 <= p < |sorted| && sorted[p] == c;
  }

  /** An order of row positions, `keyed` of which come first and have a key. */
  predicate KeyedFirst<T>(rows: seq<T>, key: T -> Option<real>, order: seq<nat>, keyed: nat)
  {
    |order| == |rows| && keyed <= |order| &&
    (forall k :: 0 <= k < |order| ==> order[k] < |rows|) &&
    (forall k :: 0 <= k < |order| ==> (key(rows[order[k]]).Some? <==> k < keyed))
  }

  /** The rows with a key are in rank order, the others in table order. */
  predicate InListingOrder<T>(rows: seq<T>, key: T -> Option<real>, order: seq<nat>, keyed: nat)
    requires KeyedFirst(rows, key, order, keyed)
  {
    (forall k, l :: 0 <= k < l < keyed ==> Ahead(rows, key, order[k], order[l])) &&
    (forall k, l :: keyed <= k < l < |order| ==> order[k] < order[l])
  }

  /**
   * `order` lists every row: first the `keyed` rows that have a key, in rank
   * order, then the rows without a key, in table order.
   */
  predicate Listing<T>(rows: seq<T>, key: T -> Option<real>, order: seq<nat>, keyed: nat)
  {
    KeyedFirst(rows, key, order, keyed) &&
    InListingOrder(rows, key, order, keyed) &&
    (forall j :: 0 <= j < |rows| ==> j in order)
  }

  /** The number of rows that have a key. */
  function KeyedCount<T>(rows: seq<T>, key: T -> Option<real>): nat
  {
    |SortedCandidates(rows, key)|
  }

  /** The ranked candidates' positions, then those of the rows without a key. */
  function ListingOrder<T>(rows: seq<T>, key: T -> Option<real>): seq<nat>
  {
    IndicesOf(SortedCandidates(rows, key)) + Unkeyed(rows, key, |rows|)
  }

  /** Elements of `a` satisfy `p`, those of `b` do not: so positions in `a + b` split at `|a|`. */
  lemma SplitAt(a: seq<nat>, b: seq<nat>, bound: nat, p: nat -> bool)
    requires forall k :: 0 <= k < |a| ==> a[k] < bound && p(a[k])
    requires forall k :: 0 <= k < |b| ==> b[k] < bound && !p(b[k])
    ensures forall k :: 0 <= k < |a + b| ==> (a + b)[k] < bound && (p((a + b)[k]) <==> k < |a|)
  {
    assert forall k :: |a| <= k < |a + b| ==> (a + b)[k] == b[k - |a|];
  }

  /** An increasing `b` stays increasing after `a`. */
  lemma IncreasingAfter(a: seq<nat>, b: seq<nat>)
    requires forall i, j :: 0 <= i < j < |b| ==> b[i] < b[j]
    ensures forall k, l :: |a| <= k < l < |a + b| ==> (a + b)[k] < (a + b)[l]
  {
    assert forall k :: |a| <= k < |a + b| ==> (a + b)[k] == b[k - |a|];
  }

  /** The listing holds each row's position, with a key exactly in its first `KeyedCount` places. */
  lemma ListingKeyedFirst<T>(rows: seq<T>, key: T -> Option<real>)
    ensures KeyedFirst(rows, key, ListingOrder(rows, key), KeyedCount(rows, key))
  {
    KeyedAndUnkeyed(rows, key, |rows|);
    SplitAt(IndicesOf(SortedCandidates(rows, key)), Unkeyed(rows, key, |rows|), |rows|,
            (j: nat) => j < |rows| && key(rows[j]).Some?);
  }

  /** The rows with a key are listed in rank order. */
  lemma ListingRanked<T>(rows: seq<T>, key: T -> Option<real>)
    requires KeyedFirst(rows, key, ListingOrder(rows, key), KeyedCount(rows, key))
    ensures forall k, l :: 0 <= k < l < KeyedCount(rows, key) ==>
              Ahead(rows, key, ListingOrder(rows, key)[k], ListingOrder(rows, key)[l])
  {
    var sorted := SortedCandidates(rows, key);
    var order := ListingOrder(rows, key);
    assert forall k :: 0 <= k < |sorted| ==> order[k] == sorted[k].index;
  }

  /** The rows without a key are listed in table order. */
  lemma ListingTableOrder<T>(rows: seq<T>, key: T -> Option<real>)
    ensures forall k, l :: KeyedCount(rows, key) <= k < l < |ListingOrder(rows, key)| ==>
              ListingOrder(rows, key)[k] < ListingOrder(rows, key)[l]
  {
    IncreasingAfter(IndicesOf(SortedCandidates(rows, key)), Unkeyed(rows, key, |rows|));
  }

  /** Every row is listed. */
  lemma ListingCovers<T>(rows: seq<T>, key: T -> Option<real>)
    ensures forall j :: 0 <= j < |rows| ==> j in ListingOrder(rows, key)
  {
    var sorted := SortedCandidates(rows, key);
    var u := Unkeyed(rows, key, |rows|);
    var order := ListingOrder(rows, key);
    forall j | 0 <= j < |rows|
      ensures j in order
    {
      if key(rows[j]).Some? {
        var p := RankOf(rows, key, sorted, j);
        assert order[p] == j;
      } else {
        var p :| 0 <= p < |u| && u[p] == j;
        assert order[|sorted| + p] == j;
      }
    }
  }

  /** The whole listing: ranked candidates, then the rows without a key. */
  function ListingOf<T>(rows: seq<T>, key: T -> Option<real>): (order: seq<nat>)
    ensures Listing(rows, key, order, KeyedCount(rows, key))
  {
    ListingKeyedFirst(rows, key);
    ListingRanked(rows, key);
    ListingTableOrder(rows, key);
    ListingCovers(rows, key);
    ListingOrder(rows, key)
  }

  /** No row is listed twice. */
  lemma ListingDistinct<T>(rows: seq<T>, key: T -> Option<real>, order: seq<nat>, keyed: nat)
    requires Listing(rows, key, order, keyed)
    ensures forall k, l :: 0 <= k < l < |order| ==> order[k] != order[l]
  {
    forall k, l | 0 <= k < l < |order|
      ensures order[k] != order[l]
    {
      if l < keyed {
        assert Ahead(rows, key, order[k], order[l]);
      }
    }
  }

  /** A row left out of a prefix `r` of the listing is listed after it. */
  lemma LeftOutPosition<T>(rows: seq<T>, key: T -> Option<real>, order: seq<nat>, keyed: nat, r: seq<nat>, j: nat)
      returns (p: nat)
    requires Listing(rows, key, order, keyed) && r <= order
    requires j < |rows| && j !in r
    ensures |r| <= p < |order| && order[p] == j
  {
    assert j in order;
    p :| 0 <= p < |order| && order[p] == j;
  }

  /** A prefix of a listing keeps its order. */
  lemma PrefixOrder<T>(rows: seq<T>, key: T -> Option<real>, order: seq<nat>, keyed: nat, r: seq<nat>)
    requires Listing(rows, key, order, keyed) && r <= order
    ensures forall k :: 0 <= k < |r| ==> r[k] < |rows|
    ensures forall k, l :: 0 <= k < l < |r| && key(rows[r[l]]).Some? ==> key(rows[r[k]]).Some?
    ensures forall k, l :: 0 <= k < l < |r| && key(rows[r[k]]).Some? && key(rows[r[l]]).Some? ==>
              Ahead(rows, key, r[k], r[l])
    ensures forall k, l :: 0 <= k < l < |r| && key(rows[r[k]]).None? && key(rows[r[l]]).None? ==>
              r[k] < r[l]
  {
    assert forall k :: 0 <= k < |r| ==> r[k] == order[k];
  }

  /** A row with a key that is left out ranks behind every listed row. */
  lemma LeftOutKeyed<T>(rows: seq<T>, key: T -> Option<real>, order: seq<nat>, keyed: nat, r: seq<nat>)
    requires Listing(rows, key, order, keyed) && r <= order
    ensures forall k :: 0 <= k < |r| ==> r[k] < |rows|
    ensures forall j, k :: 0 <= j < |rows| && key(rows[j]).Some? && j !in r && 0 <= k < |r| ==>
              key(rows[r[k]]).Some? && Ahead(rows, key, r[k], j)
  {
    assert forall k :: 0 <= k < |r| ==> r[k] == order[k];
    forall j, k | 0 <= j < |rows| && key(rows[j]).Some? && j !in r && 0 <= k < |r|
      ensures key(rows[r[k]]).Some? && Ahead(rows, key, r[k], j)
    {
      var p := LeftOutPosition(rows, key, order, keyed, r, j);
      assert p < keyed;
    }
  }

  /** A row without a key that is left out comes after every listed such row. */
  lemma LeftOutUnkeyed<T>(rows: seq<T>, key: T -> Option<real>, order: seq<nat>, keyed: nat, r: seq<nat>)
    requires Listing(rows, key, order, keyed) && r <= order
    ensures forall k :: 0 <= k < |r| ==> r[k] < |rows|
    ensures forall j, k ::
              (0 <= j < |rows| && key(rows[j]).None? && j !in r && 0 <= k < |r| && key(rows[r[k]]).None?) ==>
              r[k] < j
  {
    assert forall k :: 0 <= k < |r| ==> r[k] == order[k];
    forall j, k | 0 <= j < |rows| && key(rows[j]).None? && j !in r && 0 <= k < |r| && key(rows[r[k]]).None?
      ensures r[k] < j
    {
      var p := LeftOutPosition(rows, key, order, keyed, r, j);
      assert keyed <= k < p;
    }
  }

  /** No row is listed twice in a prefix of a listing. */
  lemma PrefixDistinct<T>(rows: seq<T>, key: T -> Option<real>, order: seq<nat>, keyed: nat, r: seq<nat>)
    requires Listing(rows, key, order, keyed) && r <= order
    ensures forall k, l :: 0 <= k < l < |r| ==> r[k] != r[l]
  {
    ListingDistinct(rows, key, order, keyed);
    assert forall k :: 0 <= k < |r| ==> r[k] == order[k];
  }

  /**
   * The positions of the rows `nlargest(n, key)` returns, in the order it
   * returns them: no row twice, and every row when there are fewer than `n`.
   */
  function TopIndices<T>(rows: seq<T>, n: nat, key: T -> Option<real>): (r: seq<nat>)
    ensures |r| == Min(n, |rows|)
    ensures forall k :: 0 <= k < |r| ==> r[k] < |rows|
    ensures forall k, l :: 0 <= k < l < |r| ==> r[k] != r[l]
    ensures |r| < n ==> forall j :: 0 <= j < |rows| ==> j in r
  {
    var order := ListingOf(rows, key);
    var r := order[..Min(n, |rows|)];
    PrefixDistinct(rows, key, order, KeyedCount(rows, key), r);
    assert |r| == |rows| ==> r == order;
    r
  }

  /**
   * The listed rows with a key come first, in rank order; the listed rows
   * without one follow in table order.
   */
  lemma TopIndicesOrder<T>(rows: seq<T>, n: nat, key: T -> Option<real>)
    ensures var r := TopIndices(rows, n, key);
      (forall k, l :: 0 <= k < l < |r| && key(rows[r[l]]).Some? ==> key(rows[r[k]]).Some?) &&
      (forall k, l :: 0 <= k < l < |r| && key(rows[r[k]]).Some? && key(rows[r[l]]).Some? ==>
         Ahead(rows, key, r[k], r[l])) &&
      (forall k, l :: 0 <= k < l < |r| && key(rows[r[k]]).None? && key(rows[r[l]]).None? ==>
         r[k] < r[l])
  {
    PrefixOrder(rows, key, ListingOf(rows, key), KeyedCount(rows, key), TopIndices(rows, n, key));
  }

  /**
   * A row left out ranks behind every listed row when it has a key, and comes
   * after every listed row without a key when it has none.
   */
  lemma TopIndicesLeftOut<T>(rows: seq<T>, n: nat, key: T -> Option<real>)
    ensures var r := TopIndices(rows, n, key);
      (forall j, k :: 0 <= j < |rows| && key(rows[j]).Some? && j !in r && 0 <= k < |r| ==>
         key(rows[r[k]]).Some? && Ahead(rows, key, r[k], j)) &&
      (forall j, k ::
         (0 <= j < |rows| && key(rows[j]).None? && j !in r && 0 <= k < |r| && key(rows[r[k]]).None?) ==>
         r[k] < j)
  {
    var order, r := ListingOf(rows, key), TopIndices(rows, n, key);
    LeftOutKeyed(rows, key, order, KeyedCount(rows, key), r);
    LeftOutUnkeyed(rows, key, order, KeyedCount(rows, key), r);
  }

  /** The rows at the given positions. */
  function Pick<T>(rows: seq<T>, idx: seq<nat>): (r: seq<T>)
    requires forall k :: 0 <= k < |idx| ==> idx[k] < |rows|
    ensures |r| == |idx| && forall k :: 0 <= k < |idx| ==> r[k] == rows[idx[k]]
  {
    seq(|idx|, k requires 0 <= k < |idx| => rows[idx[k]])
  }

  /** `nlargest(n, key)`: the rows at the first `min(n, |rows|)` positions of the listing. */
  function TopN<T>(rows: seq<T>, n: nat, key: T -> Option<real>): (r: seq<T>)
    ensures |r| == Min(n, |rows|)
    ensures |r| == |TopIndices(rows, n, key)|
    ensures forall k :: 0 <= k < |r| ==> r[k] == rows[TopIndices(rows, n, key)[k]]
  {
    Pick(rows, TopIndices(rows, n, key))
  }

  /** Rows with a key come before rows without one, and by descending key. */
  lemma TopNOrder<T>(rows: seq<T>, n: nat, key: T -> Option<real>)
    ensures var r := TopN(rows, n, key);
      (forall k, l :: 0 <= k < l < |r| && key(r[l]).Some? ==> key(r[k]).Some?) &&
      (forall k, l :: 0 <= k < l < |r| && key(r[k]).Some? && key(r[l]).Some? ==>
         key(r[k]).value >= key(r[l]).value)
  {
    var idx, r := TopIndices(rows, n, key), TopN(rows, n, key);
    TopIndicesOrder(rows, n, key);
    assert forall k :: 0 <= k < |r| ==> r[k] == rows[idx[k]];
  }
}
