/**
 * Display names and the comparison page (main.py:410-424, 513-517): long
 * entity names are cut to 30 characters followed by "...", and the detailed
 * comparison table shows one column per selected entity.
 */
module Display {
  import opened Wrappers
  import opened Seqs
  import opened Entities

  const NAME_WIDTH: nat := 30
  const ELLIPSIS: string := "..."

  /** `name[:30] + '...' if len(name) > 30 else name`. */
  function Truncate(name: string): (r: string)
    ensures |r| <= NAME_WIDTH + |ELLIPSIS|
    ensures |r| <= NAME_WIDTH <==> |name| <= NAME_WIDTH
    ensures |name| <= NAME_WIDTH ==> r == name
    ensures |name| > NAME_WIDTH ==> r[..NAME_WIDTH] == name[..NAME_WIDTH] && r[NAME_WIDTH..] == ELLIPSIS
  {
    if |name| > NAME_WIDTH then name[..NAME_WIDTH] + ELLIPSIS else name
  }

  /**
   * Two names get the same label iff they are equal or both are longer than
   * 30 characters and agree on their first 30.
   */
  lemma TruncateSameLabel(a: string, b: string)
    ensures Truncate(a) == Truncate(b) <==>
            a == b || (|a| > NAME_WIDTH && |b| > NAME_WIDTH && a[..NAME_WIDTH] == b[..NAME_WIDTH])
  {
    if |a| > NAME_WIDTH && |b| > NAME_WIDTH && Truncate(a) == Truncate(b) {
      assert a[..NAME_WIDTH] == Truncate(a)[..NAME_WIDTH];
    }
  }

  // ---------------------------------------------------------------------------
  // The comparison page
  // ---------------------------------------------------------------------------

  /** `df['nombre'].isin(entities)` for one row; a missing name is never selected. */
  predicate IsSelected(e: Entity, entities: seq<string>)
  {
    e.raw.name.Some? && e.raw.name.value in entities
  }

  /** `compare_df`: the selected rows, in table order. */
  function ComparedRows(table: seq<Entity>, entities: seq<string>): (rows: seq<Entity>)
    ensures forall k :: 0 <= k < |rows| ==> IsSelected(rows[k], entities)
    ensures forall i :: 0 <= i < |table| && IsSelected(table[i], entities) ==> table[i] in rows
  {
    Filter(table, (e: Entity) => IsSelected(e, entities))
  }

  predicate AllNamed(rows: seq<Entity>)
  {
    forall k :: 0 <= k < |rows| ==> rows[k].raw.name.Some?
  }

  /** One column of the transposed comparison table: its header and the row it shows. */
  datatype Column = Column(header: string, row: Entity)

  /** What the detailed comparison shows. */
  datatype Comparison =
    | TooFew                   // fewer than two entities selected: only a hint is shown
    | LengthMismatch           // assigning the headers raises: their number differs from the columns'
    | Columns(cols: seq<Column>)

  /** The headers as written: the selection's names, in selection order (main.py:517). */
  function SelectionHeaders(entities: seq<string>): (h: seq<string>)
    ensures |h| == |entities|
  {
    seq(|entities|, k requires 0 <= k < |entities| => Truncate(entities[k]))
  }

  /** The comparison as written: the k-th row gets the k-th selected name as header. */
  function ComparisonAsWritten(table: seq<Entity>, entities: seq<string>): Comparison
  {
    if |entities| < 2 then TooFew
    else
      var rows := ComparedRows(table, entities);
      var headers := SelectionHeaders(entities);
      if |rows| != |headers| then LengthMismatch
      else Columns(seq(|rows|, k requires 0 <= k < |rows| => Column(headers[k], rows[k])))
  }

  /** The corrected columns: every row headed by its own truncated name, as in the metrics (main.py:424). */
  function NamedColumns(rows: seq<Entity>): (cols: seq<Column>)
    requires AllNamed(rows)
    ensures |cols| == |rows|
  {
    seq(|rows|, k requires 0 <= k < |rows| => Column(Truncate(rows[k].raw.name.value), rows[k]))
  }

  /** The corrected comparison. */
  function Compare(table: seq<Entity>, entities: seq<string>): Comparison
  {
    if |entities| < 2 then TooFew
    else Columns(NamedColumns(ComparedRows(table, entities)))
  }

  /**
   * The corrected comparison heads every column with its own row's name, shows
   * only selected rows, shows every selected row, and uses every label of the
   * selection when each selected name is a name in the table.
   */
  lemma CompareHeaders(table: seq<Entity>, entities: seq<string>)
    ensures Compare(table, entities).Columns? <==> |entities| >= 2
    ensures Compare(table, entities).Columns? ==>
              var cols := Compare(table, entities).cols;
              (forall k :: 0 <= k < |cols| ==>
                 IsSelected(cols[k].row, entities) && cols[k].header == Truncate(cols[k].row.raw.name.value)) &&
              (forall i :: 0 <= i < |table| && IsSelected(table[i], entities) ==>
                 exists k :: 0 <= k < |cols| && cols[k].row == table[i])
    ensures Compare(table, entities).Columns? &&
            (forall j :: 0 <= j < |entities| ==> exists i :: 0 <= i < |table| && table[i].raw.name == Some(entities[j])) ==>
              forall j :: 0 <= j < |entities| ==>
                exists k :: 0 <= k < |Compare(table, entities).cols| &&
                  Compare(table, entities).cols[k].header == SelectionHeaders(entities)[j]
  {
    if |entities| >= 2 {
      var rows := ComparedRows(table, entities);
      var cols := NamedColumns(rows);
      forall i | 0 <= i < |table| && IsSelected(table[i], entities)
        ensures exists k :: 0 <= k < |cols| && cols[k].row == table[i]
      {
        var k :| 0 <= k < |rows| && rows[k] == table[i];
        assert cols[k].row == table[i];
      }
      if forall j :: 0 <= j < |entities| ==> exists i :: 0 <= i < |table| && table[i].raw.name == Some(entities[j]) {
        forall j | 0 <= j < |entities|
          ensures exists k :: 0 <= k < |cols| && cols[k].header == SelectionHeaders(entities)[j]
        {
          var i :| 0 <= i < |table| && table[i].raw.name == Some(entities[j]);
          assert IsSelected(table[i], entities);
          var k :| 0 <= k < |rows| && rows[k] == table[i];
          assert cols[k].header == Truncate(entities[j]);
        }
      }
    }
  }

  /** When the selection lists the compared rows' names in table order, the source's headers are right. */
  lemma AsWrittenInTableOrder(table: seq<Entity>, entities: seq<string>)
    requires |entities| >= 2
    requires |ComparedRows(table, entities)| == |entities|
    requires forall k :: 0 <= k < |entities| ==> ComparedRows(table, entities)[k].raw.name == Some(entities[k])
    ensures ComparisonAsWritten(table, entities) == Compare(table, entities)
  {
  }

  // ---------------------------------------------------------------------------
  // Inputs on which the source's headers go wrong
  // ---------------------------------------------------------------------------

  /** A row that has only a name. */
  function Named(name: string): (e: Entity)
    ensures e.raw.name == Some(name)
  {
    Entity(RawRecord(Some(name), None, None, None, None, None, None, None, None, None, None, None, None, None),
           None, None, 0, false)
  }

  /** Selecting "Beta" before "Alfa" heads the "Alfa" column with "Beta". */
  lemma SelectionOrderMislabels()
    ensures var table := [Named("Alfa"), Named("Beta")];
            var asWritten := ComparisonAsWritten(table, ["Beta", "Alfa"]);
            asWritten.Columns? && |asWritten.cols| == 2 &&
            asWritten.cols[0].row == Named("Alfa") && asWritten.cols[0].header == "Beta" &&
            Compare(table, ["Beta", "Alfa"]).cols[0].header == "Alfa"
  {
    var table := [Named("Alfa"), Named("Beta")];
    var entities := ["Beta", "Alfa"];
    assert IsSelected(table[0], entities) && IsSelected(table[1], entities);
    FilterKeepsAll(table, (e: Entity) => IsSelected(e, entities));
  }

  /** Two rows sharing a selected name give three columns for two headers. */
  lemma DuplicateNameMismatch()
    ensures var table := [Named("Alfa"), Named("Alfa"), Named("Beta")];
            ComparisonAsWritten(table, ["Alfa", "Beta"]) == LengthMismatch &&
            |Compare(table, ["Alfa", "Beta"]).cols| == 3
  {
    var table := [Named("Alfa"), Named("Alfa"), Named("Beta")];
    var entities := ["Alfa", "Beta"];
    assert IsSelected(table[0], entities) && IsSelected(table[1], entities) && IsSelected(table[2], entities);
    FilterKeepsAll(table, (e: Entity) => IsSelected(e, entities));
  }
}
