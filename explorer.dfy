/**
 * The entity explorer (main.py:310-349): the whole table narrowed stage by
 * stage by the entity type, the province, the capital range, the presence
 * abroad and a case-insensitive search on the name.
 */
module Explorer {
  import opened Wrappers
  import opened Text
  import opened Seqs
  import opened Entities

  /** The choice that switches a drop-down stage off. */
  const ALL: string := "Todas"
  const YES: string := "Sí"
  const NO: string := "No"

  /** The explorer's widgets: two drop-downs, the capital slider, the presence drop-down, the search box. */
  datatype Query = Query(
    entityType: string,
    province: string,
    capitalLow: int,
    capitalHigh: int,
    presence: string,
    search: string)

  predicate TypeStage(q: Query, e: Entity)
  {
    q.entityType == ALL || e.raw.entityType == Some(q.entityType)
  }

  predicate ProvinceStage(q: Query, e: Entity)
  {
    q.province == ALL || e.raw.province == Some(q.province)
  }

  /** Both bounds are inclusive; a missing capital compares false with both. */
  predicate CapitalStage(q: Query, e: Entity)
  {
    e.capital.Some? && q.capitalLow as real <= e.capital.value <= q.capitalHigh as real
  }

  predicate PresenceStage(q: Query, e: Entity)
  {
    (q.presence == YES ==> e.international) && (q.presence == NO ==> !e.international)
  }

  /** An empty search imposes nothing; a missing name never matches (`na=False`). */
  predicate SearchStage(q: Query, e: Entity)
  {
    q.search == [] || (e.raw.name.Some? && ContainsIgnoreCase(e.raw.name.value, q.search))
  }

  /** A row survives the explorer iff it passes every stage. */
  predicate Matches(q: Query, e: Entity)
  {
    TypeStage(q, e) && ProvinceStage(q, e) && CapitalStage(q, e) && PresenceStage(q, e) && SearchStage(q, e)
  }

  function Matcher(q: Query): Entity -> bool
  {
    e => Matches(q, e)
  }

  /** Selecting by `stage` from the rows `prev` selected gives the rows `next` selects. */
  lemma NarrowStage(table: seq<Entity>, prev: Entity -> bool, stage: Entity -> bool,
                    next: Entity -> bool, rows: seq<Entity>)
    requires rows == Filter(table, prev)
    requires forall e :: next(e) <==> prev(e) && stage(e)
    ensures Filter(rows, stage) == Filter(table, next)
  {
    FilterFilter(table, prev, stage, next);
  }

  /** A stage that holds on every row can be skipped. */
  lemma SkipStage(table: seq<Entity>, prev: Entity -> bool, stage: Entity -> bool,
                  next: Entity -> bool, rows: seq<Entity>)
    requires rows == Filter(table, prev)
    requires forall e :: stage(e)
    requires forall e :: next(e) <==> prev(e) && stage(e)
    ensures rows == Filter(table, next)
  {
    FilterSame(table, prev, next);
  }

  /** The mask the source applies at a stage and the stage predicate select the same rows. */
  lemma SameMask(rows: seq<Entity>, mask: Entity -> bool, stage: Entity -> bool)
    requires forall e :: mask(e) <==> stage(e)
    ensures Filter(rows, mask) == Filter(rows, stage)
  {
    FilterSame(rows, mask, stage);
  }

  /**
   * `filtered_df` after the chain of reassignments: each active stage
   * selects, by its own mask, from the rows the previous stages left.
   */
  method Explore(table: seq<Entity>, q: Query) returns (result: seq<Entity>)
    ensures result == Filter(table, Matcher(q))
  {
    ghost var p0: Entity -> bool := e => true;
    ghost var p1: Entity -> bool := e => TypeStage(q, e);
    ghost var p2: Entity -> bool := e => TypeStage(q, e) && ProvinceStage(q, e);
    ghost var p3: Entity -> bool := e => p2(e) && CapitalStage(q, e);
    ghost var p4: Entity -> bool := e => p3(e) && PresenceStage(q, e);

    result := table;
    FilterKeepsAll(table, p0);

    if q.entityType != ALL {
      var mask: Entity -> bool := (e: Entity) => e.raw.entityType == Some(q.entityType);
      SameMask(result, mask, e => TypeStage(q, e));
      NarrowStage(table, p0, e => TypeStage(q, e), p1, result);
      result := Filter(result, mask);
    } else {
      SkipStage(table, p0, e => TypeStage(q, e), p1, result);
    }

    if q.province != ALL {
      var mask: Entity -> bool := (e: Entity) => e.raw.province == Some(q.province);
      SameMask(result, mask, e => ProvinceStage(q, e));
      NarrowStage(table, p1, e => ProvinceStage(q, e), p2, result);
      result := Filter(result, mask);
    } else {
      SkipStage(table, p1, e => ProvinceStage(q, e), p2, result);
    }

    NarrowStage(table, p2, e => CapitalStage(q, e), p3, result);
    result := Filter(result, e => CapitalStage(q, e));

    if q.presence == YES {
      var mask: Entity -> bool := (e: Entity) => e.international == true;
      SameMask(result, mask, e => PresenceStage(q, e));
      NarrowStage(table, p3, e => PresenceStage(q, e), p4, result);
      result := Filter(result, mask);
    } else if q.presence == NO {
      var mask: Entity -> bool := (e: Entity) => e.international == false;
      SameMask(result, mask, e => PresenceStage(q, e));
      NarrowStage(table, p3, e => PresenceStage(q, e), p4, result);
      result := Filter(result, mask);
    } else {
      SkipStage(table, p3, e => PresenceStage(q, e), p4, result);
    }

    if q.search != [] {
      var mask: Entity -> bool := (e: Entity) => e.raw.name.Some? && ContainsIgnoreCase(e.raw.name.value, q.search);
      SameMask(result, mask, e => SearchStage(q, e));
      NarrowStage(table, p4, e => SearchStage(q, e), Matcher(q), result);
      result := Filter(result, mask);
    } else {
      SkipStage(table, p4, e => SearchStage(q, e), Matcher(q), result);
    }
  }

  // ---------------------------------------------------------------------------
  // What the explorer promises
  // ---------------------------------------------------------------------------

  /** The result lists table rows in table order. */
  lemma ExploreKeepsOrder(table: seq<Entity>, q: Query)
    ensures IsSubsequence(Filter(table, Matcher(q)), table)
    ensures |Filter(table, Matcher(q))| <= |table|
  {
    FilterIsSubsequence(table, Matcher(q));
  }

  /** A table row is listed iff it passes every stage. */
  lemma ExploreMembers(table: seq<Entity>, q: Query, i: nat)
    requires i < |table|
    ensures table[i] in Filter(table, Matcher(q)) <==> Matches(q, table[i])
  {
    var r := Filter(table, Matcher(q));
    if table[i] in r {
      var k :| 0 <= k < |r| && r[k] == table[i];
      assert Matcher(q)(r[k]);
    }
  }

  /** `q2` constrains every stage at least as much as `q1` does. */
  predicate Refines(q2: Query, q1: Query)
  {
    (q1.entityType == ALL || q2.entityType == q1.entityType) &&
    (q1.province == ALL || q2.province == q1.province) &&
    q1.capitalLow <= q2.capitalLow && q2.capitalHigh <= q1.capitalHigh &&
    ((q1.presence != YES && q1.presence != NO) || q2.presence == q1.presence) &&
    (q1.search == [] || ContainsIgnoreCase(q2.search, q1.search))
  }

  /** Only the empty pattern occurs in the empty text. */
  lemma EmptyFoldedPattern(s: string, t: string)
    requires s == [] && ContainsIgnoreCase(s, t)
    ensures t == []
  {
    assert FoldAll(s) == [];
    assert FoldAll(t) <= FoldAll(s);
  }

  lemma RefinesMatches(q2: Query, q1: Query, e: Entity)
    requires Refines(q2, q1) && Matches(q2, e)
    ensures Matches(q1, e)
  {
    if q1.search != [] {
      if q2.search == [] {
        EmptyFoldedPattern(q2.search, q1.search);
      }
      ContainsIgnoreCaseTransitive(e.raw.name.value, q2.search, q1.search);
    }
  }

  /** Tightening any stage never enlarges the result: it keeps a subsequence of it. */
  lemma NarrowerQueryKeepsFewer(table: seq<Entity>, q2: Query, q1: Query)
    requires Refines(q2, q1)
    ensures IsSubsequence(Filter(table, Matcher(q2)), Filter(table, Matcher(q1)))
    ensures |Filter(table, Matcher(q2))| <= |Filter(table, Matcher(q1))|
  {
    forall e | Matcher(q2)(e) ensures Matcher(q1)(e) {
      RefinesMatches(q2, q1, e);
    }
    FilterMonotone(table, Matcher(q1), Matcher(q2));
  }

  /** Searches that differ only in letter case select the same rows. */
  lemma SearchIgnoresCase(table: seq<Entity>, q1: Query, q2: Query)
    requires q2 == q1.(search := q2.search)
    requires FoldAll(q1.search) == FoldAll(q2.search)
    ensures Filter(table, Matcher(q1)) == Filter(table, Matcher(q2))
  {
    assert |q1.search| == |q2.search| by {
      assert |FoldAll(q1.search)| == |FoldAll(q2.search)|;
    }
    FilterSame(table, Matcher(q1), Matcher(q2));
  }
}

/**
 * The capital slider (main.py:314-320): it runs from 0 to `int(max)` of the
 * capital column and starts at the whole range.
 */
module CapitalSlider {
  import opened Wrappers
  import opened Seqs
  import opened Entities
  import opened Explorer

  /** `max()` of the capital column: the largest capital, missing ones skipped. */
  function MaxCapital(table: seq<Entity>): (m: Option<real>)
    ensures m.None? <==> forall i :: 0 <= i < |table| ==> table[i].capital.None?
    ensures m.Some? ==> forall i :: 0 <= i < |table| && table[i].capital.Some? ==> table[i].capital.value <= m.value
    ensures m.Some? ==> exists i :: 0 <= i < |table| && table[i].capital == Some(m.value)
  {
    if table == [] then None
    else
      var rest := MaxCapital(table[1..]);
      var here := table[0].capital;
      assert forall i :: 0 < i < |table| ==> table[i] == table[1..][i - 1];
      if here.None? then rest
      else if rest.None? || rest.value <= here.value then here
      else rest
  }

  /** Python's `int(x)`: truncation toward zero. */
  function TruncateToInt(x: real): (n: int)
    ensures x >= 0.0 ==> n as real <= x < n as real + 1.0
    ensures x < 0.0 ==> n as real - 1.0 < x <= n as real
  {
    if x >= 0.0 then x.Floor else -((-x).Floor)
  }

  /** The smallest whole number not below `x`. */
  function Ceiling(x: real): (n: int)
    ensures x <= n as real < x + 1.0
  {
    -((-x).Floor)
  }

  /** As written: the explorer's starting query, the slider at `(0, int(max))`. */
  function DefaultQueryAsWritten(table: seq<Entity>): Query
    requires MaxCapital(table).Some?
  {
    Query(ALL, ALL, 0, TruncateToInt(MaxCapital(table).value), ALL, "")
  }

  /**
   * When the largest capital has cents, the row holding it fails the
   * starting query: the slider's upper end lies below it.
   */
  lemma DefaultDropsLargestCapital(table: seq<Entity>)
    requires MaxCapital(table).Some?
    requires MaxCapital(table).value >= 0.0
    requires MaxCapital(table).value.Floor as real < MaxCapital(table).value
    ensures exists i :: 0 <= i < |table| && table[i].capital.Some? &&
              table[i] !in Filter(table, Matcher(DefaultQueryAsWritten(table)))
  {
    var m := MaxCapital(table).value;
    var i :| 0 <= i < |table| && table[i].capital == Some(m);
    assert !Matches(DefaultQueryAsWritten(table), table[i]);
    ExploreMembers(table, DefaultQueryAsWritten(table), i);
  }

  /** A register with one entity of capital 1.234.567,89 euros shows no entities at first. */
  lemma DefaultHidesOnlyEntity(e: Entity)
    requires e.capital == Some(1234567.89)
    ensures Filter([e], Matcher(DefaultQueryAsWritten([e]))) == []
  {
    assert MaxCapital([e]) == Some(1234567.89);
    assert 1234567.89.Floor == 1234567;
    assert !Matches(DefaultQueryAsWritten([e]), e);
  }

  /** Corrected: the slider's upper end rounded up, so it covers the largest capital. */
  function DefaultQuery(table: seq<Entity>): Query
    requires MaxCapital(table).Some?
  {
    Query(ALL, ALL, 0, Ceiling(MaxCapital(table).value), ALL, "")
  }

  predicate HasCapital(e: Entity)
  {
    e.capital.Some? && e.capital.value >= 0.0
  }

  /** The corrected starting query lists exactly the rows that have a capital. */
  lemma DefaultQueryShowsEveryCapital(table: seq<Entity>)
    requires MaxCapital(table).Some?
    ensures Filter(table, Matcher(DefaultQuery(table))) == Filter(table, HasCapital)
  {
    var q := DefaultQuery(table);
    forall i | 0 <= i < |table|
      ensures Matcher(q)(table[i]) <==> HasCapital(table[i])
    {
      if table[i].capital.Some? {
        assert table[i].capital.value <= MaxCapital(table).value;
      }
    }
    FilterSame(table, Matcher(q), HasCapital);
  }
}
