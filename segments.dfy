/**
 * Client segmentation (main.py:913-917, 970-1026, 1071-1085): which client
 * segments an entity serves, the four-way specialisation split, the rows
 * each segment's summary is computed over and the top entities by capital.
 */
module Segments {
  import opened Wrappers
  import opened Text
  import opened Seqs
  import opened Entities
  import opened Ranking

  /** The labels searched for in `tipos_clientes`. */
  const RETAIL: string := "Minoristas"
  const PROFESSIONAL: string := "Profesionales"
  const ELIGIBLE: string := "Contrapartes elegibles"

  /** `tipos_clientes.str.contains(segment, na=False)`: a missing cell serves no segment. */
  predicate Serves(e: Entity, segment: string)
  {
    e.raw.clientTypes.Some? && Contains(e.raw.clientTypes.value, segment)
  }

  /** The `serves_retail`, `serves_professional` and `serves_eligible` columns. */
  predicate ServesRetail(e: Entity) { Serves(e, RETAIL) }
  predicate ServesProfessional(e: Entity) { Serves(e, PROFESSIONAL) }
  predicate ServesEligible(e: Entity) { Serves(e, ELIGIBLE) }

  /** `client_types[segment]`: how many entities serve the segment. */
  function SegmentCount(table: seq<Entity>, segment: string): (n: nat)
    ensures n <= |table|
    ensures n > 0 <==> exists i :: 0 <= i < |table| && Serves(table[i], segment)
  {
    FilterNonEmpty(table, e => Serves(e, segment));
    |Filter(table, e => Serves(e, segment))|
  }

  // ---------------------------------------------------------------------------
  // Specialisation
  // ---------------------------------------------------------------------------

  datatype Specialisation = RetailOnly | ProfessionalOnly | FullService | Other

  /** The masks of main.py:1011-1021, and "Otros" for the rest. */
  function Classify(e: Entity): (s: Specialisation)
    ensures s == RetailOnly <==> ServesRetail(e) && !ServesProfessional(e) && !ServesEligible(e)
    ensures s == ProfessionalOnly <==> !ServesRetail(e) && ServesProfessional(e) && !ServesEligible(e)
    ensures s == FullService <==> ServesRetail(e) && ServesProfessional(e) && ServesEligible(e)
  {
    if ServesRetail(e) && !ServesProfessional(e) && !ServesEligible(e) then RetailOnly
    else if !ServesRetail(e) && ServesProfessional(e) && !ServesEligible(e) then ProfessionalOnly
    else if ServesRetail(e) && ServesProfessional(e) && ServesEligible(e) then FullService
    else Other
  }

  predicate IsRetailOnly(e: Entity) { ServesRetail(e) && !ServesProfessional(e) && !ServesEligible(e) }
  predicate IsProfessionalOnly(e: Entity) { !ServesRetail(e) && ServesProfessional(e) && !ServesEligible(e) }
  predicate IsFullService(e: Entity) { ServesRetail(e) && ServesProfessional(e) && ServesEligible(e) }
  predicate IsOther(e: Entity) { Classify(e) == Other }

  /** `retail_only`, `professional_only` and `full_service`. */
  function RetailOnlyRows(table: seq<Entity>): seq<Entity> { Filter(table, IsRetailOnly) }
  function ProfessionalOnlyRows(table: seq<Entity>): seq<Entity> { Filter(table, IsProfessionalOnly) }
  function FullServiceRows(table: seq<Entity>): seq<Entity> { Filter(table, IsFullService) }

  /** The "Otros" bar: the entities left after the three specialisations. */
  function OthersCount(table: seq<Entity>): int
  {
    |table| - |RetailOnlyRows(table)| - |ProfessionalOnlyRows(table)| - |FullServiceRows(table)|
  }

  /** Every entity falls in exactly one of the four groups, so the four bars add up to the table. */
  lemma {:induction false} SpecialisationPartition(table: seq<Entity>)
    ensures |RetailOnlyRows(table)| + |ProfessionalOnlyRows(table)| + |FullServiceRows(table)|
            + |Filter(table, IsOther)| == |table|
  {
    if table != [] {
      var e, rest := table[0], table[1..];
      SpecialisationPartition(rest);
      assert RetailOnlyRows(table) == (if IsRetailOnly(e) then [e] else []) + RetailOnlyRows(rest);
      assert ProfessionalOnlyRows(table) == (if IsProfessionalOnly(e) then [e] else []) + ProfessionalOnlyRows(rest);
      assert FullServiceRows(table) == (if IsFullService(e) then [e] else []) + FullServiceRows(rest);
      assert Filter(table, IsOther) == (if IsOther(e) then [e] else []) + Filter(rest, IsOther);
    }
  }

  /** "Otros" is never negative: it counts exactly the entities in none of the three groups. */
  lemma OthersAreTheRest(table: seq<Entity>)
    ensures OthersCount(table) == |Filter(table, IsOther)|
    ensures OthersCount(table) >= 0
  {
    SpecialisationPartition(table);
  }

  /** A full-service entity serves each single segment, so each segment counts at least as many. */
  lemma FullServiceWithinSegments(table: seq<Entity>)
    ensures IsSubsequence(FullServiceRows(table), Filter(table, ServesRetail))
    ensures |FullServiceRows(table)| <= SegmentCount(table, RETAIL)
    ensures |FullServiceRows(table)| <= SegmentCount(table, PROFESSIONAL)
    ensures |FullServiceRows(table)| <= SegmentCount(table, ELIGIBLE)
  {
    FilterMonotone(table, ServesRetail, IsFullService);
    FilterMonotone(table, e => Serves(e, RETAIL), IsFullService);
    FilterMonotone(table, e => Serves(e, PROFESSIONAL), IsFullService);
    FilterMonotone(table, e => Serves(e, ELIGIBLE), IsFullService);
  }

  // ---------------------------------------------------------------------------
  // Per-segment summary
  // ---------------------------------------------------------------------------

  /** One summary entry: the segment's display label and the rows its averages are taken over. */
  datatype SegmentRows = SegmentRows(title: string, members: seq<Entity>)

  /** The segments in display order, each with the label searched for. */
  const SEGMENTS: seq<(string, string)> :=
    [("Minoristas", RETAIL), ("Profesionales", PROFESSIONAL), ("Contrapartes Elegibles", ELIGIBLE)]

  /** The loop building `segment_services`: one entry per segment, in order. */
  method SegmentSummary(table: seq<Entity>) returns (summary: seq<SegmentRows>)
    ensures |summary| == |SEGMENTS|
    ensures forall k :: 0 <= k < |SEGMENTS| ==>
              summary[k].title == SEGMENTS[k].0 &&
              summary[k].members == Filter(table, e => Serves(e, SEGMENTS[k].1))
  {
    summary := [];
    for k := 0 to |SEGMENTS|
      invariant |summary| == k
      invariant forall j :: 0 <= j < k ==>
                  summary[j].title == SEGMENTS[j].0 &&
                  summary[j].members == Filter(table, e => Serves(e, SEGMENTS[j].1))
    {
      var (title, searched) := SEGMENTS[k];
      var members := Filter(table, e => Serves(e, searched));
      summary := summary + [SegmentRows(title, members)];
    }
  }

  /** Each summary entry is taken over as many rows as its segment's count. */
  lemma SummaryMatchesCounts(table: seq<Entity>, summary: seq<SegmentRows>)
    requires |summary| == |SEGMENTS|
    requires forall k :: 0 <= k < |SEGMENTS| ==> summary[k].members == Filter(table, e => Serves(e, SEGMENTS[k].1))
    ensures |summary[0].members| == SegmentCount(table, RETAIL)
    ensures |summary[1].members| == SegmentCount(table, PROFESSIONAL)
    ensures |summary[2].members| == SegmentCount(table, ELIGIBLE)
    ensures forall k, i :: 0 <= k < |SEGMENTS| && 0 <= i < |summary[k].members| ==>
              Serves(summary[k].members[i], SEGMENTS[k].1)
  {
    forall k, i | 0 <= k < |SEGMENTS| && 0 <= i < |summary[k].members|
      ensures Serves(summary[k].members[i], SEGMENTS[k].1)
    {
      var tag := SEGMENTS[k].1;
      assert (e => Serves(e, tag))(summary[k].members[i]);
    }
  }

  // ---------------------------------------------------------------------------
  // Top entities by capital per segment
  // ---------------------------------------------------------------------------

  function CapitalKey(e: Entity): Option<real>
  {
    e.capital
  }

  /** `rows.nlargest(10, 'capital')` over the rows selected by `keep`. */
  function Tab(table: seq<Entity>, keep: Entity -> bool): seq<Entity>
  {
    TopN(Filter(table, keep), 10, CapitalKey)
  }

  /** The three tabs: the ten largest capitals among retail, professional and full-service entities. */
  function RetailTop(table: seq<Entity>): seq<Entity> { Tab(table, ServesRetail) }
  function ProfessionalTop(table: seq<Entity>): seq<Entity> { Tab(table, ServesProfessional) }
  function FullServiceTop(table: seq<Entity>): seq<Entity> { Tab(table, IsFullService) }

  /**
   * A tab lists ten of the selected entities, or as many as there are; those
   * with a capital come first, largest first.
   */
  lemma TopOfSelection(table: seq<Entity>, keep: Entity -> bool)
    ensures |Tab(table, keep)| == Min(10, |Filter(table, keep)|)
    ensures forall k :: 0 <= k < |Tab(table, keep)| ==> keep(Tab(table, keep)[k]) && Tab(table, keep)[k] in table
    ensures forall k, l :: 0 <= k < l < |Tab(table, keep)| && Tab(table, keep)[l].capital.Some? ==>
              Tab(table, keep)[k].capital.Some?
    ensures forall k, l :: 0 <= k < l < |Tab(table, keep)| &&
                           Tab(table, keep)[k].capital.Some? && Tab(table, keep)[l].capital.Some? ==>
              Tab(table, keep)[k].capital.value >= Tab(table, keep)[l].capital.value
  {
    var rows := Filter(table, keep);
    var idx, top := TopIndices(rows, 10, CapitalKey), Tab(table, keep);
    TopNOrder(rows, 10, CapitalKey);
    forall k | 0 <= k < |top|
      ensures keep(top[k]) && top[k] in table
    {
      assert top[k] == rows[idx[k]];
    }
  }

  /** A selected entity is a row of the selection. */
  lemma SelectedRow(table: seq<Entity>, keep: Entity -> bool, e: Entity) returns (j: nat)
    requires e in table && keep(e)
    ensures j < |Filter(table, keep)| && Filter(table, keep)[j] == e
  {
    var i :| 0 <= i < |table| && table[i] == e;
    assert e in Filter(table, keep);
    j :| 0 <= j < |Filter(table, keep)| && Filter(table, keep)[j] == e;
  }

  /** With fewer than ten selected, the tab lists every one of them. */
  lemma TabListsAll(table: seq<Entity>, keep: Entity -> bool)
    ensures |Tab(table, keep)| < 10 ==> forall e :: e in table && keep(e) ==> e in Tab(table, keep)
  {
    var rows := Filter(table, keep);
    var idx, top := TopIndices(rows, 10, CapitalKey), Tab(table, keep);
    if |top| < 10 {
      forall e | e in table && keep(e)
        ensures e in top
      {
        var j := SelectedRow(table, keep, e);
        assert j in idx;
        var k :| 0 <= k < |idx| && idx[k] == j;
        assert top[k] == e;
      }
    }
  }

  /**
   * A selected entity with a capital that the tab leaves out has no larger
   * capital than any listed entity, and every listed entity has one.
   */
  lemma TabLeftOut(table: seq<Entity>, keep: Entity -> bool)
    ensures forall e, k :: e in table && keep(e) && e.capital.Some? && e !in Tab(table, keep) &&
                           0 <= k < |Tab(table, keep)| ==>
              Tab(table, keep)[k].capital.Some? && Tab(table, keep)[k].capital.value >= e.capital.value
  {
    var rows := Filter(table, keep);
    var idx, top := TopIndices(rows, 10, CapitalKey), Tab(table, keep);
    TopIndicesLeftOut(rows, 10, CapitalKey);
    forall e, k | e in table && keep(e) && e.capital.Some? && e !in top && 0 <= k < |top|
      ensures top[k].capital.Some? && top[k].capital.value >= e.capital.value
    {
      var j := SelectedRow(table, keep, e);
      assert j !in idx;
      assert top[k] == rows[idx[k]];
      assert Ahead(rows, CapitalKey, idx[k], j);
    }
  }

  lemma FullServiceTopServesAll(table: seq<Entity>)
    ensures forall k :: 0 <= k < |FullServiceTop(table)| ==> IsFullService(FullServiceTop(table)[k])
  {
    TopOfSelection(table, IsFullService);
  }
}
