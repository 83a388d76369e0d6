/**
 * Service analysis (main.py:643, 701-702, 741): the full-service threshold,
 * the binning of instrument counts and the top entities by services.
 */
module Services {
  import opened Wrappers
  import opened Seqs
  import opened Entities
  import opened Ranking

  /** An entity with at least this many services counts as "full service". */
  const FULL_SERVICE_THRESHOLD: int := 10

  predicate IsFullService(e: Entity)
  {
    e.totalServices >= FULL_SERVICE_THRESHOLD
  }

  /** `len(df[df['total_services'] >= 10])`. */
  function FullServiceCount(table: seq<Entity>): (n: nat)
    ensures n <= |table|
    ensures n > 0 <==> exists i :: 0 <= i < |table| && table[i].totalServices >= FULL_SERVICE_THRESHOLD
  {
    FilterNonEmpty(table, IsFullService);
    |Filter(table, IsFullService)|
  }

  // ---------------------------------------------------------------------------
  // Instrument ranges
  // ---------------------------------------------------------------------------

  /** The bin edges and labels of `pd.cut(..., bins=[0, 3, 6, 9, 15], labels=[...])`. */
  const BIN_EDGES: seq<int> := [0, 3, 6, 9, 15]
  const BIN_LABELS: seq<string> := ["1-3", "4-6", "7-9", "10+"]

  /** `v` lies in the right-closed interval between edge `k` and edge `k + 1`. */
  predicate InBin(edges: seq<int>, k: nat, v: int)
    requires k + 1 < |edges|
  {
    edges[k] < v <= edges[k + 1]
  }

  /** The first right-closed interval from edge `start` on that holds `v`. */
  function BinFrom(edges: seq<int>, start: nat, v: int): (r: Option<nat>)
    ensures r.Some? ==> start <= r.value && r.value + 1 < |edges| && InBin(edges, r.value, v)
    ensures r.None? <==> forall k: nat :: start <= k && k + 1 < |edges| ==> !InBin(edges, k, v)
    decreases |edges| - start
  {
    if start + 1 >= |edges| then None
    else if InBin(edges, start, v) then Some(start)
    else BinFrom(edges, start + 1, v)
  }

  /** The bin `pd.cut` puts `v` in, if any. */
  function BinOf(edges: seq<int>, v: int): (r: Option<nat>)
    ensures r.Some? ==> r.value + 1 < |edges| && InBin(edges, r.value, v)
    ensures r.None? <==> forall k: nat :: k + 1 < |edges| ==> !InBin(edges, k, v)
  {
    BinFrom(edges, 0, v)
  }

  /** The range label of an instrument count; 0, more than 15 and a missing count get none. */
  function InstrumentRange(count: Option<int>): (r: Option<string>)
    ensures r.Some? ==> r.value in BIN_LABELS
  {
    if count.None? then None
    else
      match BinOf(BIN_EDGES, count.value)
      case None => None
      case Some(k) => Some(BIN_LABELS[k])
  }

  /** Each label stands for exactly the counts of its interval. */
  lemma InstrumentRangeIff(count: Option<int>)
    ensures InstrumentRange(count) == Some("1-3") <==> count.Some? && 0 < count.value <= 3
    ensures InstrumentRange(count) == Some("4-6") <==> count.Some? && 3 < count.value <= 6
    ensures InstrumentRange(count) == Some("7-9") <==> count.Some? && 6 < count.value <= 9
    ensures InstrumentRange(count) == Some("10+") <==> count.Some? && 9 < count.value <= 15
    ensures InstrumentRange(count).None? <==> count.None? || count.value <= 0 || count.value > 15
  {
    if count.Some? {
      var v := count.value;
      var b := BinOf(BIN_EDGES, v);
      if b.Some? {
        assert InBin(BIN_EDGES, b.value, v);
      } else {
        assert !InBin(BIN_EDGES, 0, v) && !InBin(BIN_EDGES, 1, v) && !InBin(BIN_EDGES, 2, v) && !InBin(BIN_EDGES, 3, v);
      }
    }
  }

  predicate HasRange(e: Entity, range: string)
  {
    InstrumentRange(e.raw.instruments) == Some(range)
  }

  predicate Unbinned(e: Entity)
  {
    InstrumentRange(e.raw.instruments).None?
  }

  /** `value_counts()` of the ranges: how many entities fall in `range`. */
  function RangeCount(table: seq<Entity>, range: string): nat
  {
    |Filter(table, e => HasRange(e, range))|
  }

  /** The four range counts and the unbinned entities add up to the whole table. */
  lemma {:induction false} RangeCountsCoverTable(table: seq<Entity>)
    ensures RangeCount(table, "1-3") + RangeCount(table, "4-6") + RangeCount(table, "7-9")
            + RangeCount(table, "10+") + |Filter(table, Unbinned)| == |table|
  {
    if table != [] {
      var e, rest := table[0], table[1..];
      RangeCountsCoverTable(rest);
      InstrumentRangeIff(e.raw.instruments);
      assert Filter(table, e => HasRange(e, "1-3")) == (if HasRange(e, "1-3") then [e] else []) + Filter(rest, e => HasRange(e, "1-3"));
      assert Filter(table, e => HasRange(e, "4-6")) == (if HasRange(e, "4-6") then [e] else []) + Filter(rest, e => HasRange(e, "4-6"));
      assert Filter(table, e => HasRange(e, "7-9")) == (if HasRange(e, "7-9") then [e] else []) + Filter(rest, e => HasRange(e, "7-9"));
      assert Filter(table, e => HasRange(e, "10+")) == (if HasRange(e, "10+") then [e] else []) + Filter(rest, e => HasRange(e, "10+"));
      assert Filter(table, Unbinned) == (if Unbinned(e) then [e] else []) + Filter(rest, Unbinned);
    }
  }

  // ---------------------------------------------------------------------------
  // Top providers
  // ---------------------------------------------------------------------------

  function ServicesKey(e: Entity): Option<real>
  {
    Some(e.totalServices as real)
  }

  /** `df.nlargest(10, 'total_services')`. */
  function TopServices(table: seq<Entity>): seq<Entity>
  {
    TopN(table, 10, ServicesKey)
  }

  /**
   * The top providers are listed by total services, most first; an entity
   * left out has no more services than any listed one, and strictly fewer
   * than a listed one that comes after it in the table.
   */
  lemma TopServicesOrder(table: seq<Entity>)
    ensures |TopServices(table)| == Min(10, |table|)
    ensures |TopServices(table)| < 10 ==> forall j :: 0 <= j < |table| ==> j in TopIndices(table, 10, ServicesKey)
    ensures forall k, l :: 0 <= k < l < |TopServices(table)| ==>
              TopServices(table)[k].totalServices >= TopServices(table)[l].totalServices
    ensures forall j, k ::
              0 <= j < |table| && j !in TopIndices(table, 10, ServicesKey) && 0 <= k < |TopServices(table)| ==>
              (table[j].totalServices <= TopServices(table)[k].totalServices &&
               (TopIndices(table, 10, ServicesKey)[k] > j ==> table[j].totalServices < TopServices(table)[k].totalServices))
  {
    var idx := TopIndices(table, 10, ServicesKey);
    var top := TopServices(table);
    TopNOrder(table, 10, ServicesKey);
    TopIndicesLeftOut(table, 10, ServicesKey);
    forall j, k | 0 <= j < |table| && j !in idx && 0 <= k < |top|
      ensures table[j].totalServices <= top[k].totalServices
      ensures idx[k] > j ==> table[j].totalServices < top[k].totalServices
    {
      assert Ahead(table, ServicesKey, idx[k], j);
      assert top[k] == table[idx[k]];
    }
    forall k, l | 0 <= k < l < |top|
      ensures top[k].totalServices >= top[l].totalServices
    {
      assert ServicesKey(top[k]).value >= ServicesKey(top[l]).value;
    }
  }
}
