/**
 * The auditor list of the compliance page (main.py:889-892): every present
 * `auditores_unicos` cell is split at `;` and each piece is stripped of
 * surrounding whitespace; the pieces of all cells are collected in row order.
 */
module Auditors {
  import opened Wrappers
  import opened Text
  import opened Seqs

  /** `[a.strip() for a in parts]`. */
  function StripAll(parts: seq<string>): (r: seq<string>)
    ensures |r| == |parts|
  {
    seq(|parts|, k requires 0 <= k < |parts| => Strip(parts[k]))
  }

  /** Stripping never brings in a character the text did not have. */
  lemma StripWithin(s: string, c: char)
    requires c !in s
    ensures c !in Strip(s)
  {
    var r := Strip(s);
    var i :| Surrounds(s, r, i);
    forall k | 0 <= k < |r|
      ensures r[k] != c
    {
      assert r[k] == s[i + k];
    }
  }

  /** A name with no surrounding whitespace and no separator. */
  predicate IsCleanName(name: string)
  {
    ';' !in name && (name != [] ==> !IsSpace(name[0]) && !IsSpace(name[|name| - 1]))
  }

  /** The names one cell contributes; a missing cell is skipped by `dropna`. */
  function CellNames(cell: Option<string>): (r: seq<string>)
    ensures cell.None? ==> r == []
    ensures cell.Some? ==> |r| == Occurrences(cell.value, ';') + 1
  {
    match cell
    case None => []
    case Some(s) =>
      SplitCount(s, ';');
      StripAll(Split(s, ';'))
  }

  /** Every name of a cell is clean: no separator and no surrounding whitespace. */
  lemma CellNamesClean(cell: Option<string>)
    ensures forall k :: 0 <= k < |CellNames(cell)| ==> IsCleanName(CellNames(cell)[k])
  {
    if cell.Some? {
      var parts := Split(cell.value, ';');
      forall k | 0 <= k < |parts|
        ensures IsCleanName(Strip(parts[k]))
      {
        StripWithin(parts[k], ';');
      }
    }
  }

  /** Stripping names that carry no surrounding whitespace changes none of them. */
  lemma StripAllClean(names: seq<string>)
    requires forall k :: 0 <= k < |names| ==> IsCleanName(names[k])
    ensures StripAll(names) == names
  {
    forall k | 0 <= k < |names|
      ensures StripAll(names)[k] == names[k]
    {
      StripClean(names[k]);
    }
  }

  /** A cell that lists clean names yields exactly those names, in order. */
  lemma CellOfNames(names: seq<string>)
    requires |names| >= 1
    requires forall k :: 0 <= k < |names| ==> IsCleanName(names[k])
    ensures CellNames(Some(Join(names, ';'))) == names
  {
    var cell := Join(names, ';');
    forall k | 0 <= k < |names| ensures ';' !in names[k] {
      assert IsCleanName(names[k]);
    }
    calc {
      CellNames(Some(cell));
      StripAll(Split(cell, ';'));
    == { SplitJoin(names, ';'); }
      StripAll(names);
    == { StripAllClean(names); }
      names;
    }
  }

  /** A cell whose pieces carry no surrounding whitespace is rebuilt by joining its names. */
  lemma NamesRebuildCell(s: string)
    requires forall k :: 0 <= k < |Split(s, ';')| ==> Strip(Split(s, ';')[k]) == Split(s, ';')[k]
    ensures Join(CellNames(Some(s)), ';') == s
  {
    assert CellNames(Some(s)) == Split(s, ';');
    JoinSplit(s, ';');
  }

  /** The whole auditor list: the names of every cell, in row order. */
  function AuditorNames(cells: seq<Option<string>>): seq<string>
  {
    FlatMap(cells, CellNames)
  }

  /** The list comprehension and the `extend` loop. */
  method CollectAuditors(cells: seq<Option<string>>) returns (auditors: seq<string>)
    ensures auditors == AuditorNames(cells)
  {
    auditors := [];
    var i := 0;
    while i < |cells|
      invariant 0 <= i <= |cells|
      invariant auditors == FlatMap(cells[..i], CellNames)
    {
      assert cells[..i + 1][..i] == cells[..i];
      if cells[i].Some? {
        var parts := Split(cells[i].value, ';');
        var stripped := StripEach(parts);
        auditors := auditors + stripped;
      }
      i := i + 1;
    }
    assert cells[..|cells|] == cells;
  }

  /** `[a.strip() for a in parts]`, one piece at a time. */
  method StripEach(parts: seq<string>) returns (stripped: seq<string>)
    ensures stripped == StripAll(parts)
  {
    stripped := [];
    for k := 0 to |parts|
      invariant stripped == StripAll(parts[..k])
    {
      assert StripAll(parts[..k + 1]) == StripAll(parts[..k]) + [Strip(parts[k])];
      stripped := stripped + [Strip(parts[k])];
    }
    assert parts[..|parts|] == parts;
  }

  /** The number of names a column of cells contributes. */
  function NameSlots(cells: seq<Option<string>>): nat
  {
    if cells == [] then 0
    else
      var last := cells[|cells| - 1];
      NameSlots(cells[..|cells| - 1]) + (if last.None? then 0 else Occurrences(last.value, ';') + 1)
  }

  /** Each present cell contributes one name more than it has separators; a missing one none. */
  lemma {:induction false} AuditorCount(cells: seq<Option<string>>)
    ensures |AuditorNames(cells)| == NameSlots(cells)
  {
    if cells != [] {
      AuditorCount(cells[..|cells| - 1]);
    }
  }

  /** Every collected name is clean: no separator and no surrounding whitespace. */
  lemma AuditorNamesClean(cells: seq<Option<string>>)
    ensures forall k :: 0 <= k < |AuditorNames(cells)| ==> IsCleanName(AuditorNames(cells)[k])
  {
    forall k | 0 <= k < |AuditorNames(cells)|
      ensures IsCleanName(AuditorNames(cells)[k])
    {
      var name := AuditorNames(cells)[k];
      AuditorNamesMembers(cells, name);
      var i :| 0 <= i < |cells| && cells[i].Some? && name in CellNames(cells[i]);
      CellNamesClean(cells[i]);
    }
  }

  /** A name is in the list iff some present cell lists it. */
  lemma AuditorNamesMembers(cells: seq<Option<string>>, name: string)
    ensures name in AuditorNames(cells) <==> exists i :: 0 <= i < |cells| && cells[i].Some? && name in CellNames(cells[i])
  {
    FlatMapMembers(cells, CellNames, name);
  }
}
