/**
 * One row of the register table and the columns `load_data` derives from it
 * (main.py:112-131).
 */
module Entities {
  import opened Wrappers
  import opened Capital
  import opened Dates

  /** A row as read from the file; an empty cell is `None`. */
  datatype RawRecord = RawRecord(
    name: Option<string>,                 // nombre
    entityType: Option<string>,           // tipo_entidad
    province: Option<string>,             // direccion_provincia
    capital: Option<string>,              // capital_social, e.g. "1.234.567,89"
    registered: Option<string>,           // fecha_registro, "dd/mm/yyyy"
    investmentServices: Option<int>,      // num_servicios_inversion
    auxiliaryServices: Option<int>,       // num_servicios_auxiliares
    instruments: Option<int>,             // num_instrumentos
    clientTypes: Option<string>,          // tipos_clientes
    auditors: Option<string>,             // auditores_unicos, ';'-separated
    eeaFreeProvision: Option<int>,        // num_libre_prestacion_eee
    eeaBranches: Option<int>,             // num_sucursales_eee
    nonEeaFreeProvision: Option<int>,     // num_libre_prestacion_fuera_eee
    nonEeaBranches: Option<int>)          // num_sucursales_fuera_eee

  /** A row after loading: the raw cells plus the derived columns. */
  datatype Entity = Entity(
    raw: RawRecord,
    capital: Option<real>,                // capital_social_numeric
    registered: Option<Date>,             // fecha_registro after coercion
    totalServices: int,                   // total_services
    international: bool)                  // has_international_presence

  /** `fillna(0)`. */
  function CountOrZero(c: Option<int>): int
  {
    c.GetOr(0)
  }

  /** `total_services`: investment plus auxiliary services, a missing count read as 0. */
  function TotalServices(r: RawRecord): int
  {
    CountOrZero(r.investmentServices) + CountOrZero(r.auxiliaryServices)
  }

  lemma TotalServicesBounds(r: RawRecord)
    requires r.investmentServices.Some? ==> r.investmentServices.value >= 0
    requires r.auxiliaryServices.Some? ==> r.auxiliaryServices.value >= 0
    ensures TotalServices(r) >= 0
    ensures r.investmentServices.Some? ==> TotalServices(r) >= r.investmentServices.value
    ensures r.auxiliaryServices.Some? ==> TotalServices(r) >= r.auxiliaryServices.value
    ensures r.investmentServices.None? && r.auxiliaryServices.None? ==> TotalServices(r) == 0
  {
  }

  /** `count > 0` on a column with missing values: a missing count is not positive. */
  predicate IsPositive(c: Option<int>)
  {
    c.Some? && c.value > 0
  }

  /** The four counts of activity outside Spain, in the order the source tests them. */
  function AbroadCounts(r: RawRecord): (s: seq<Option<int>>)
    ensures |s| == 4
  {
    [r.eeaFreeProvision, r.eeaBranches, r.nonEeaFreeProvision, r.nonEeaBranches]
  }

  /** `has_international_presence`: the OR of the four "count > 0" tests. */
  function HasInternationalPresence(r: RawRecord): (b: bool)
    ensures b <==> exists i :: 0 <= i < 4 && IsPositive(AbroadCounts(r)[i])
  {
    var c := AbroadCounts(r);
    assert IsPositive(r.eeaFreeProvision) ==> IsPositive(c[0]);
    assert IsPositive(r.eeaBranches) ==> IsPositive(c[1]);
    assert IsPositive(r.nonEeaFreeProvision) ==> IsPositive(c[2]);
    assert IsPositive(r.nonEeaBranches) ==> IsPositive(c[3]);
    IsPositive(r.eeaFreeProvision) || IsPositive(r.eeaBranches) ||
    IsPositive(r.nonEeaFreeProvision) || IsPositive(r.nonEeaBranches)
  }

  /** With no count present and positive, for instance all zero or all missing, there is no presence abroad. */
  lemma NoPositiveCountNoPresence(r: RawRecord)
    requires forall i :: 0 <= i < 4 ==> AbroadCounts(r)[i].None? || AbroadCounts(r)[i].value <= 0
    ensures !HasInternationalPresence(r)
  {
  }

  /** The row with its derived columns, given the parsed capital. */
  function Derive(r: RawRecord, capital: Option<real>): Entity
  {
    Entity(r, capital, ParseDate(r.registered), TotalServices(r), HasInternationalPresence(r))
  }

  /** The capital column's conversion fails at `row` on the text `text`. */
  datatype LoadError = BadCapital(row: nat, text: string)

  predicate CapitalParses(r: RawRecord)
  {
    ParseCapital(r.capital).Ok?
  }

  /** The converted capital of a row whose capital parses. */
  function CapitalValue(r: RawRecord): Option<real>
    requires CapitalParses(r)
  {
    ParseCapital(r.capital).value
  }

  /** The text on which the conversion of a row's capital fails: the cell after normalisation. */
  function CapitalError(r: RawRecord): (t: string)
    requires !CapitalParses(r)
    ensures r.capital.Some? && t == Normalise(r.capital.value)
  {
    ParseCapital(r.capital).error
  }

  /**
   * `astype` on a whole column: every cell is converted, and the first cell
   * that cannot be makes the conversion fail, reporting its row.
   */
  method ConvertColumn<A, B, E>(cells: seq<A>, convert: A -> Result<B, E>) returns (r: Result<seq<B>, (nat, E)>)
    ensures r.Ok? <==> forall i :: 0 <= i < |cells| ==> convert(cells[i]).Ok?
    ensures r.Ok? ==> |r.value| == |cells|
    ensures r.Ok? ==> forall i :: 0 <= i < |cells| ==> convert(cells[i]) == Ok(r.value[i])
    ensures r.Err? ==> r.error.0 < |cells| && convert(cells[r.error.0]) == Err(r.error.1)
    ensures r.Err? ==> forall i :: 0 <= i < r.error.0 ==> convert(cells[i]).Ok?
  {
    var column: seq<B> := [];
    var i := 0;
    while i < |cells| && convert(cells[i]).Ok?
      invariant 0 <= i <= |cells|
      invariant |column| == i
      invariant forall k :: 0 <= k < i ==> convert(cells[k]) == Ok(column[k])
    {
      column := column + [convert(cells[i]).value];
      i := i + 1;
    }
    if i < |cells| {
      r := Err((i, convert(cells[i]).error));
    } else {
      r := Ok(column);
    }
  }

  /** The `capital_social` column. */
  function CapitalCells(raws: seq<RawRecord>): (cells: seq<Option<string>>)
    ensures |cells| == |raws| && forall i :: 0 <= i < |raws| ==> cells[i] == raws[i].capital
  {
    seq(|raws|, i requires 0 <= i < |raws| => raws[i].capital)
  }

  /**
   * `load_data`: converts the capital column, then coerces the dates and adds
   * the derived columns, row by row.
   */
  method LoadData(raws: seq<RawRecord>) returns (r: Result<seq<Entity>, LoadError>)
    ensures r.Ok? <==> forall i :: 0 <= i < |raws| ==> CapitalParses(raws[i])
    ensures r.Ok? ==> |r.value| == |raws|
    ensures r.Ok? ==> forall i :: 0 <= i < |raws| ==> r.value[i] == Derive(raws[i], CapitalValue(raws[i]))
    ensures r.Err? ==> r.error.row < |raws|
    ensures r.Err? ==> !CapitalParses(raws[r.error.row]) && r.error.text == CapitalError(raws[r.error.row])
    ensures r.Err? ==> forall i :: 0 <= i < r.error.row ==> CapitalParses(raws[i])
  {
    var capitals := ConvertColumn(CapitalCells(raws), ParseCapital);
    if capitals.Err? {
      return Err(BadCapital(capitals.error.0, capitals.error.1));
    }
    var column := capitals.value;
    var table: seq<Entity> := [];
    var i := 0;
    while i < |raws|
      invariant 0 <= i <= |raws|
      invariant |table| == i
      invariant forall k :: 0 <= k < i ==> table[k] == Derive(raws[k], column[k])
    {
      table := table + [Derive(raws[i], column[i])];
      i := i + 1;
    }
    return Ok(table);
  }
}
