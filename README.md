# SAV_EAF dashboard: the record rules, modelled in Dafny

The SAV_EAF dashboard (`main.py`) is a Streamlit application over the CNMV register of
investment-services firms. This project models the rules it applies to records and proves
properties about them. The charts and widgets are not modelled. The rules are:

- **Loading** (`load_data`). Share capital is read from the register's Spanish notation
  ("1.234.567,89") as an exact `real`. A day/month/year registration date is coerced to a
  date or to "no date". Two columns are derived: total services, and presence abroad.
  A capital that is not a number makes the whole load fail; the model reports the first
  such row.
- **Entity explorer**. The table is narrowed stage by stage by entity type, province,
  inclusive capital range, presence abroad and a case-insensitive name search.
  `Explorer.Explore` is a method that reassigns its result one stage at a time. It is
  proved equal to an order-preserving selection by the conjunction of the active stages.
- **Services**:
  - the "full service" threshold (ten or more services);
  - the binning of instrument counts into right-closed ranges;
  - the ten entities with most services.
- **Compliance**. The `;`-separated auditor cells are split, trimmed and collected in row
  order by a loop (`Auditors.CollectAuditors`).
- **Client segments**:
  - membership in a segment by substring containment;
  - the four-way specialisation split;
  - the per-segment loop;
  - the top ten by capital for each segment.
- **Display names and the comparison table**. Names are cut to 30 characters plus "...".
  The detailed comparison has one column per compared entity.

Tables are sequences of `Entity` values. A mask selection `df[mask]` is `Seqs.Filter`: the
rows that pass, in their original order. `nlargest(n, key)` is `Ranking.TopN`. The rows with
a key come first, highest key first, with ties in table order. The rows whose key is
missing follow, in table order. The first n rows of that listing are returned. Columns that the source adds to the frame in place become fields of `Entity`
or predicates over it.

## Model

| member | source | states |
|---|---|---|
| Capital.ParseCapital | main.py:117 | A missing capital stays missing, and a parsed capital is non-negative. A text that fails to parse gives an error carrying the normalised text, the text `float` rejects. Two or more commas always fail. |
| Capital.Normalise | main.py:117 | `.str.replace('.', '').str.replace(',', '.')`. Its property is proved in Capital.NormalisedPoints. |
| Capital.ParseNumber | main.py:117 | `float()` on the normalised text: a value is produced only from text with at most one point, and it is non-negative. The full reading is proved in Capital.ParseFormatEs. |
| Capital.NormalisedPoints | main.py:117 | After deleting every `.` and turning `,` into `.`, the decimal points are exactly the original commas, and no comma is left. |
| Capital.ParseFormatEs | main.py:117 | Every amount written in the register's notation (point-grouped euros, comma, two-digit cents) reads back as exactly euros + cents/100. |
| Capital.ParseExample | main.py:117 | "1.234.567,89" reads as 1234567.89. |
| Capital.TwoCommasFail | main.py:117 | "1,234,56" does not convert, so the load fails. |
| Entities.ConvertColumn | main.py:117 | Converting a column succeeds iff every cell converts, and cell i then becomes value i. On failure it reports the first failing cell and its error, and every earlier cell converts. |
| Entities.LoadData | main.py:112-131 | The load succeeds iff every capital parses. Each entity is then its record with the derived columns. On failure it reports the first bad row with its text; all earlier rows parse. |
| Entities.CapitalError | main.py:117 | The text of a failing capital is the cell after removing `.` and turning `,` into `.`. |
| Dates.ParseDate | main.py:121 | A date is produced only from a present cell. It is a real calendar day inside the range a pandas timestamp can hold. |
| Dates.ParseDateIff | main.py:121 | A cell is read as date d iff d is a calendar day in the timestamp range and the cell is a day rendering, "/", a month rendering, "/", and the year in four digits. |
| Dates.DayFieldIff | main.py:121 | `%d` reads a field as day n iff the field is n unpadded, space-padded or zero-padded (1 to 9), or n in two digits (10 to 31). |
| Dates.MonthFieldIff | main.py:121 | `%m` reads a field as month n iff the field is n unpadded or zero-padded (1 to 9), or n in two digits (10 to 12). |
| Dates.YearFieldIff | main.py:121 | `%Y` reads a field as year n iff n < 10000 and the field is n in exactly four digits. |
| Dates.DaysInMonth | main.py:121 | Every month has 28 to 31 days. |
| Dates.ParseFormatDmy | main.py:121 | Every representable date written "dd/mm/yyyy" is read back as that date. |
| Dates.ParseUnpadded | main.py:121 | Unpadded single-digit days and months ("5/3/2001") are also read as that date. |
| DateCases.MissingIsNoDate | main.py:121 | A missing cell is "no date". |
| DateCases.ImpossibleDayIsNoDate | main.py:121 | "31/02/2020" is "no date", not an error. |
| DateCases.OtherLayoutIsNoDate | main.py:121 | "2020-02-10" (another layout) is "no date". |
| DateCases.OutOfRangeIsNoDate | main.py:121 | "10/02/2300", well formed but outside the timestamp range, is "no date". |
| DateCases.DateExample | main.py:121 | "15/03/2001" is read as 15 March 2001. |
| Entities.TotalServices | main.py:125 | The sum of the investment and auxiliary service counts, a missing count being 0. Its bounds are proved in Entities.TotalServicesBounds. |
| Entities.TotalServicesBounds | main.py:125 | With non-negative counts, the total is at least 0 and at least each reported count. Two missing counts give 0. |
| Entities.HasInternationalPresence | main.py:126-129 | Presence abroad holds iff one of the four abroad counts is present and positive. |
| Entities.NoPositiveCountNoPresence | main.py:126-129 | All-missing or non-positive abroad counts give no presence abroad. |
| Explorer.Explore | main.py:330-349 | The stage-by-stage narrowing equals the single selection by the conjunction of all stages. |
| Explorer.ExploreKeepsOrder | main.py:330-349 | The explorer's result is a subsequence of the table, in table order. |
| Explorer.Matches | main.py:332-349 | The conjunction of the five stages. What each stage admits is proved in Explorer.ExploreMembers. |
| Explorer.ExploreMembers | main.py:332-349 | A row is in the result iff it passes every stage. "Todas" and an empty search impose nothing. Both capital bounds are inclusive and a missing capital never passes. "Sí"/"No" require the flag true/false. The name must contain the term ignoring case, and a missing name never matches. |
| Explorer.RefinesMatches | main.py:332-349 | A row that passes a narrower query passes the wider one. |
| Explorer.NarrowerQueryKeepsFewer | main.py:330-349 | Adding or tightening a stage never enlarges the result: it is a subsequence of the wider query's result. |
| Explorer.SearchIgnoresCase | main.py:349 | Two search terms that differ only in letter case select the same rows. |
| CapitalSlider.MaxCapital | main.py:318 | There is no maximum iff every capital is missing. Otherwise the maximum bounds every capital and belongs to some row. |
| CapitalSlider.TruncateToInt | main.py:318 | `int()` truncates toward zero. |
| CapitalSlider.DefaultQueryAsWritten | main.py:315-320 | The slider's default: every filter open and the capital range from 0 to `int(max capital)`. What it hides is proved in CapitalSlider.DefaultDropsLargestCapital. |
| CapitalSlider.DefaultDropsLargestCapital | main.py:315-341 | When the largest capital has cents, the slider's default range leaves out a row that has a capital. |
| CapitalSlider.DefaultHidesOnlyEntity | main.py:315-341 | A table whose only entity has capital 1234567.89 shows nothing at the default range. |
| CapitalSlider.Ceiling | main.py:318 | The rounded-up bound is at least the value and less than one above it. |
| CapitalSlider.DefaultQueryShowsEveryCapital | main.py:315-341 | With the upper bound rounded up, the default range shows exactly the rows that have a capital. |
| Text.ContainsIff | main.py:349 | Containment holds iff the term occurs at some position. |
| Text.ContainsIgnoreCaseIff | main.py:349 | Case-insensitive containment holds iff the term matches, letter by folded letter, at some position. |
| Text.ContainsImpliesIgnoreCase | main.py:349 | Exact containment implies case-insensitive containment. |
| Text.ContainsIgnoreCaseTransitive | main.py:349 | Case-insensitive containment is transitive. |
| Text.Replace | main.py:117 | Replacing a character by a text that does not contain it removes it. |
| Text.ReplaceAppend | main.py:117 | Replacement distributes over concatenation. |
| Text.DeleteOccurrences | main.py:117 | Deleting one character keeps the count of every other. |
| Text.SubstituteOccurrences | main.py:117 | Substituting `a` by `b` adds the count of `a` to that of `b`. |
| Text.Split | main.py:891 | Splitting gives at least one piece, and no piece contains the separator. |
| Text.JoinSplit | main.py:891 | Joining the pieces of a split with the separator gives back the text. |
| Text.SplitJoin | main.py:891 | Splitting a join of separator-free pieces gives back the pieces. |
| Text.SplitCount | main.py:891 | A text splits into one piece more than it has separators. |
| Text.Strip | main.py:892 | The result has no whitespace at either end. It is the original text less a whitespace prefix and a whitespace suffix. |
| Text.StripClean | main.py:892 | Stripping a text with no surrounding whitespace leaves it unchanged. |
| Seqs.Filter | main.py:333 | A selection is no longer than the table. Its rows are table rows that pass the mask, and every passing row is in it. |
| Seqs.FilterNonEmpty | main.py:643 | A selection is non-empty iff some row passes. |
| Seqs.FilterIsSubsequence | main.py:330-349 | A selection keeps table order. |
| Seqs.FilterMonotone | main.py:330-349 | A stronger mask selects a subsequence of what a weaker one selects. |
| Seqs.FilterFilter | main.py:330-349 | Narrowing a selection by a second mask is selecting by both masks at once. |
| Seqs.FilterAppend | main.py:333 | Selection distributes over concatenating tables. |
| Seqs.FlatMapAppend | main.py:889-892 | Collecting over two runs of rows is collecting over each and concatenating. |
| Seqs.FlatMapMembers | main.py:889-892 | A piece is collected iff some element yields it. |
| Services.FullServiceCount | main.py:643 | The "full service" count is at most the table size. It is positive iff some entity has ten or more services. |
| Services.BinOf | main.py:701-702 | A bin is returned only when its right-closed interval holds the value. No bin is returned iff no interval holds the value. |
| Services.InstrumentRange | main.py:701-702 | Every range is one of the four labels. |
| Services.InstrumentRangeIff | main.py:701-702 | (0,3] gives "1-3", (3,6] "4-6", (6,9] "7-9" and (9,15] "10+", each in both directions. A count that is missing, ≤ 0 or > 15 gets no range. |
| Services.RangeCount | main.py:703 | The tally of one range label: the number of entities in that range. Proved to cover the table, with the unbinned entities, in Services.RangeCountsCoverTable. |
| Services.RangeCountsCoverTable | main.py:701-703 | The four range counts plus the entities without a range add up to the table size. |
| Services.TopServices | main.py:741 | `nlargest(10, 'total_services')`. Its order is proved in Services.TopServicesOrder. |
| Services.TopServicesOrder | main.py:741 | min(10, table size) providers, most services first. If fewer than ten are listed, every entity is listed. A left-out entity has no more services than any listed one, and strictly fewer than a listed one after it in the table. |
| Ranking.Insert | main.py:741 | Inserting into a ranked list keeps it ranked and adds exactly the new candidate. |
| Ranking.Sort | main.py:741 | Sorting gives a ranked list (key descending, then position) of the same candidates. |
| Ranking.Candidates | main.py:741 | The candidates are exactly the rows with a key, in table order. |
| Ranking.Unkeyed | main.py:741 | The rows whose key is missing, each once and in table order. |
| Ranking.KeyedAndUnkeyed | main.py:741 | Every row has a key or has none: the two lists together are as long as the table. |
| Ranking.ListingOf | main.py:741 | The listing holds every row: those with a key first, in rank order (key descending, then position), then those without, in table order. |
| Ranking.ListingDistinct | main.py:741 | No row is listed twice. |
| Ranking.TopIndices | main.py:741 | min(n, table size) distinct rows. Fewer than n only when every row is listed. |
| Ranking.TopIndicesOrder | main.py:741 | Listed rows with a key come before those without. Those with a key are in rank order; those without are in table order. |
| Ranking.TopIndicesLeftOut | main.py:741 | A left-out row with a key ranks behind every listed row, and all of them have a key. A left-out row without a key comes after every listed row without one. |
| Ranking.TopN | main.py:1071-1085 | The rows at the listed positions, min(n, table size) of them. |
| Ranking.TopNOrder | main.py:1071-1085 | Rows with a key come first, in descending key order. |
| Segments.SegmentCount | main.py:913-917 | A segment count is at most the table size. It is positive iff some entity's client types contain the label; a missing cell serves no segment. |
| Segments.Classify | main.py:1011-1021 | Retail-only, professional-only and full-service are each characterized both ways by the three segment flags. |
| Segments.SpecialisationPartition | main.py:1011-1026 | The retail-only, professional-only, full-service and other counts add up to the table size. |
| Segments.OthersCount | main.py:1023-1026 | "Otros": the total minus the three class counts. Proved to count the rest in Segments.OthersAreTheRest. |
| Segments.OthersAreTheRest | main.py:1023-1026 | "Otros", computed as total minus the three counts, is the number of entities in none of the three classes, so it is never negative. |
| Segments.FullServiceWithinSegments | main.py:1019-1021 | Full-service entities are a subsequence of the retail ones, and no more numerous than any segment. |
| Segments.SegmentSummary | main.py:975-986 | The per-segment loop yields, for each segment in order, its title and exactly the entities it serves. |
| Segments.SummaryMatchesCounts | main.py:913-986 | The loop's groups have the sizes of the overview counts, and every member serves its segment. |
| Segments.RetailTop | main.py:1071-1073 | `nlargest(10, capital)` over the retail entities. Its properties are proved in Segments.TopOfSelection, Segments.TabListsAll and Segments.TabLeftOut. |
| Segments.ProfessionalTop | main.py:1077-1079 | `nlargest(10, capital)` over the professional entities, as for the retail tab. |
| Segments.FullServiceTop | main.py:1083-1085 | `nlargest(10, capital)` over the full-service entities, as for the retail tab. |
| Segments.TopOfSelection | main.py:1071-1085 | min(10, selection size) entities, each selected and from the table. Those with a capital come first, in descending capital order. |
| Segments.TabListsAll | main.py:1071-1085 | With fewer than ten listed, every selected entity is listed, including those without a capital. |
| Segments.TabLeftOut | main.py:1071-1085 | A selected entity with a capital that is left out has no larger capital than any listed entity, and every listed entity has a capital. |
| Segments.FullServiceTopServesAll | main.py:1083-1085 | Every entity in the full-service top ten serves all three segments. |
| Auditors.CellNames | main.py:891-892 | A missing cell gives no names. A present cell gives one name more than it has `;`. |
| Auditors.StripWithin | main.py:892 | Stripping never brings in a character the text lacked. |
| Auditors.CellNamesClean | main.py:891-892 | Every name of a cell has no `;` and no surrounding whitespace. |
| Auditors.CellOfNames | main.py:891-892 | A cell that lists clean names joined by `;` yields exactly those names, in order. |
| Auditors.NamesRebuildCell | main.py:891-892 | A cell whose pieces have no surrounding whitespace is rebuilt by joining its names with `;`. |
| Auditors.AuditorNames | main.py:889-892 | The names of every present cell, in row order. Its size and members are proved in Auditors.AuditorCount and Auditors.AuditorNamesMembers. |
| Auditors.CollectAuditors | main.py:889-892 | The extend loop collects the names of every present cell, in row order. |
| Auditors.StripEach | main.py:892 | The comprehension strips every piece, keeping order. |
| Auditors.AuditorCount | main.py:889-892 | The list has, per present cell, one name more than the cell's `;` count. |
| Auditors.AuditorNamesClean | main.py:889-892 | Every collected name has no `;` and no surrounding whitespace. |
| Auditors.AuditorNamesMembers | main.py:889-892 | A name is collected iff some present cell lists it. |
| Display.Truncate | main.py:424 | A label is at most 33 characters. It is at most 30 iff the name is. A short name is unchanged. A long name keeps its first 30 characters followed by "...". |
| Display.TruncateSameLabel | main.py:424 | Two names get the same label iff they are equal, or both are longer than 30 and share their first 30 characters. |
| Display.ComparedRows | main.py:416 | The compared rows are selected rows, and every selected table row is among them. |
| Display.ComparisonAsWritten | main.py:516-517 | The source's comparison table: headers are the selected names in selection order. What goes wrong is shown in Display.SelectionOrderMislabels and Display.DuplicateNameMismatch. |
| Display.Compare | main.py:516-517 | The corrected comparison: each column is headed by its own row's name. Its properties are proved in Display.CompareHeaders. |
| Display.CompareHeaders | main.py:513-517 | Corrected comparison: columns exist iff at least two entities are selected. Each column shows a selected row under its own row's truncated name, every selected row has a column, and every selected label heads some column. |
| Display.AsWrittenInTableOrder | main.py:516-517 | When the selection lists the compared names in table order, the source's headers equal the corrected ones. |
| Display.SelectionOrderMislabels | main.py:516-517 | Rows "Alfa", "Beta" with selection ["Beta", "Alfa"]: the source heads the "Alfa" column "Beta". |
| Display.DuplicateNameMismatch | main.py:516-517 | Two rows named "Alfa" with selection ["Alfa", "Beta"]: three columns for two headers, so the assignment fails. |

## Left out

- Streamlit page setup, styles, sidebar navigation, metrics formatting and every Plotly figure: these are presentation.
- Reading the CSV file, the missing-file stop, CSV export and `st.cache_data`: these are I/O and framework behaviour.
- Means, medians, sums, percentages, the correlation matrix, the Lorenz curve and the radar normalisation: these are floating-point aggregates.
- `years_operating`: it depends on the current clock and on float division.
- The generic parse of `fecha_extraccion`, and the groupby aggregations: these are pandas library behaviour (for example main.py:120 and main.py:873).
- `value_counts` and its `head(10)` ordering of the auditor and range tallies: tie order is pandas-internal. The model keeps the collected list and the per-range counts.
- Explorer.SearchStage: the search term is a literal substring. The source's `str.contains` reads it as a regular expression by default.
- Text.Fold: case folding covers ASCII and Latin-1 letters only, not full Unicode case folding.
- Entities.LoadData: with every capital missing, `read_csv` makes the column numeric and `.str` raises at main.py:117, so the source's load fails. The model's cells are text or missing, and that load succeeds with no capitals.
- Ranking.TopN: when n is at least the number of rows, pandas orders the rows with `sort_values`, whose default sort does not promise to keep tied rows in table order. The model keeps ties in table order in every case.
- Capital.ParseNumber: accepts only digits with at most one decimal point. `float()` also accepts exponents, "inf", "nan", signs, underscores and surrounding spaces.
- The capital is an exact `real`, not a double. Rounding of very long decimals is not modelled.
- CapitalSlider.DefaultQueryAsWritten: requires some capital to be present. With every capital missing, `int(NaN)` raises before the page renders, and that failure is not modelled.
- The widget limits (at most four selections, the option lists of the drop-downs) are not modelled; any query and any selection is accepted.
- Counts are modelled as integers. Non-integer or negative instrument and service counts, which the CSV could hold as floats, are not modelled.
- An auditor cell that is present but not a string (`isinstance` skips it) cannot occur: the model's cells are text or missing.
- The per-segment means of the segment loop (main.py:982-985) are float aggregates. The model keeps the loop and the rows of each group.
- Columns that the source adds to the frame in place (`capital_social_numeric`, `serves_*`, and so on) are fields of `Entity` or predicates over it. The frame is never aliased, so only the values are modelled.

## Findings

| source | as written | input that shows it | evidently intended | confidence | as-written member | corrected member |
|---|---|---|---|---|---|---|
| main.py:315-341 | The slider's upper bound and default are `int(max capital)`, which truncates the cents. The range filter is inclusive. | One entity with capital "1.234.567,89": the default range ends at 1234567, so the entity is filtered out. | At its default, the range shows every entity that has a capital (upper bound rounded up). | not executed | CapitalSlider.DefaultHidesOnlyEntity | CapitalSlider.DefaultQueryShowsEveryCapital |
| main.py:516-517 | The comparison table's headers are the selected names in selection order. The columns are the compared rows in table order. | Rows "Alfa", "Beta", selected as ["Beta", "Alfa"]: the "Alfa" column is headed "Beta". | Each column is headed by its own row's name, as the metrics at main.py:424 do. | not executed | Display.SelectionOrderMislabels | Display.CompareHeaders |
| main.py:516-517 | There is one header per selected name, but one column per row whose name is selected. | Two rows named "Alfa", selected as ["Alfa", "Beta"]: three columns, two headers, so pandas raises on the length mismatch. | One header per compared row. | not executed | Display.DuplicateNameMismatch | Display.CompareHeaders |
