/** The KPI record of src/day1_netflix_clean.py (lines 79-85): row counts of
    the de-duplicated and the filtered table, the number of distinct countries,
    and the range of release years of the filtered rows. Each optional entry is
    `None` when its column is absent (or, for the years, entirely missing). */
module Kpis {

  import opened Wrappers
  import opened Tables
  import Cleaning

  const CountryLabel: string := "country"

  datatype Kpis = Kpis(
    totalRowsOriginal: nat,
    totalRowsFiltered: nat,
    uniqueCountries: Option<nat>,
    yearMin: Option<int>,
    yearMax: Option<int>)

  /** `Series.nunique()`: the number of distinct non-missing values. */
  function NUnique(values: seq<Cell>): nat {
    |set c | c in values && !c.Missing?|
  }

  /** A column has no more distinct values than cells. */
  lemma {:induction false} NUniqueBound(values: seq<Cell>)
    ensures NUnique(values) <= |values|
    decreases |values|
  {
    if |values| > 0 {
      var p := values[..|values| - 1];
      NUniqueBound(p);
      var before, last := (set c | c in p && !c.Missing?), values[|values| - 1];
      assert values == p + [last];
      if last.Missing? || last in before {
        assert (set c | c in values && !c.Missing?) == before;
      } else {
        assert (set c | c in values && !c.Missing?) == before + {last};
      }
    }
  }

  /** `Series.isna().all()`; true of an empty column too. */
  predicate AllMissing(values: seq<Cell>) {
    forall k :: 0 <= k < |values| ==> values[k].Missing?
  }

  /** The numbers a release-year column holds: the value of every cell that
      reads as a number, in row order. */
  function Years(values: seq<Cell>, parseYear: string -> Option<int>): seq<int> {
    if |values| == 0 then []
    else
      var c := values[|values| - 1];
      Years(values[..|values| - 1], parseYear)
        + (if c.Text? && parseYear(c.text).Some? then [parseYear(c.text).value] else [])
  }

  /** `min()` of a column of numbers; `None` for an empty one. */
  function Least(xs: seq<int>): (m: Option<int>)
    ensures m.None? <==> |xs| == 0
    ensures m.Some? ==> m.value in xs && forall x :: x in xs ==> m.value <= x
  {
    if |xs| == 0 then None
    else
      var last := xs[|xs| - 1];
      assert xs == xs[..|xs| - 1] + [last];
      match Least(xs[..|xs| - 1])
      case None => Some(last)
      case Some(m) => Some(if m <= last then m else last)
  }

  /** `max()` of a column of numbers; `None` for an empty one. */
  function Greatest(xs: seq<int>): (m: Option<int>)
    ensures m.None? <==> |xs| == 0
    ensures m.Some? ==> m.value in xs && forall x :: x in xs ==> x <= m.value
  {
    if |xs| == 0 then None
    else
      var last := xs[|xs| - 1];
      assert xs == xs[..|xs| - 1] + [last];
      match Greatest(xs[..|xs| - 1])
      case None => Some(last)
      case Some(m) => Some(if m >= last then m else last)
  }

  /** The `kpis` dictionary, from the de-duplicated row count and the filtered
      table. A year entry is computed only when `release_year` exists and is
      not entirely missing. */
  function ComputeKpis(original: nat, columns: seq<string>, rows: seq<Row>,
                       parseYear: string -> Option<int>): (k: Kpis)
    ensures k.totalRowsOriginal == original && k.totalRowsFiltered == |rows|
    ensures k.uniqueCountries.Some? <==> Find(columns, CountryLabel).At?
    ensures k.uniqueCountries.Some? ==>
      k.uniqueCountries.value == |set c | c in Column(rows, Find(columns, CountryLabel).index) && !c.Missing?|
    ensures k.yearMin.Some? ==> Find(columns, Cleaning.ReleaseYearLabel).At?
    ensures k.yearMin.Some? <==> k.yearMax.Some?
    ensures k.yearMin.Some? ==> k.yearMin.value <= k.yearMax.value
    ensures k.yearMin.Some? ==>
      && k.yearMin == Least(Years(Column(rows, Find(columns, Cleaning.ReleaseYearLabel).index), parseYear))
      && k.yearMax == Greatest(Years(Column(rows, Find(columns, Cleaning.ReleaseYearLabel).index), parseYear))
  {
    var country := Find(columns, CountryLabel);
    var year := Find(columns, Cleaning.ReleaseYearLabel);
    var yearKnown := year.At? && !AllMissing(Column(rows, year.index));
    var years := if year.At? then Years(Column(rows, year.index), parseYear) else [];
    Kpis(
      original,
      |rows|,
      if country.At? then Some(NUnique(Column(rows, country.index))) else None,
      if yearKnown then Least(years) else None,
      if yearKnown then Greatest(years) else None)
  }

  /** Every row that passed the year filter contributes its year. */
  lemma {:induction false} YearsOfFilteredRows(rows: seq<Row>, i: nat, parseYear: string -> Option<int>)
    requires forall k :: 0 <= k < |rows| ==> Cleaning.ReleasedSince(rows[k], i, parseYear)
    ensures |Years(Column(rows, i), parseYear)| == |rows|
    ensures forall y :: y in Years(Column(rows, i), parseYear) ==> y >= Cleaning.MinReleaseYear
    decreases |rows|
  {
    if |rows| > 0 {
      var p := rows[..|rows| - 1];
      YearsOfFilteredRows(p, i, parseYear);
      assert Column(rows, i)[..|rows| - 1] == Column(p, i);
    }
  }

  /** On the filtered table the year range is `None` exactly when
      `release_year` is absent or no row is left; otherwise it runs from the
      least to the greatest release year, both at least 2015. */
  lemma FilteredYearRange(original: nat, columns: seq<string>, rows: seq<Row>,
                          parseYear: string -> Option<int>)
    requires forall row :: row in rows ==> Cleaning.Keep(columns, row, parseYear)
    ensures var k := ComputeKpis(original, columns, rows, parseYear);
      && (k.yearMin.Some? <==> Find(columns, Cleaning.ReleaseYearLabel).At? && |rows| > 0)
      && (k.yearMin.Some? ==> Cleaning.MinReleaseYear <= k.yearMin.value <= k.yearMax.value)
  {
    var year := Find(columns, Cleaning.ReleaseYearLabel);
    if year.At? {
      var i := year.index;
      assert forall k :: 0 <= k < |rows| ==> Cleaning.ReleasedSince(rows[k], i, parseYear) by {
        forall k | 0 <= k < |rows| ensures Cleaning.ReleasedSince(rows[k], i, parseYear) {
          assert rows[k] in rows;
        }
      }
      YearsOfFilteredRows(rows, i, parseYear);
      var column := Column(rows, i);
      if |rows| > 0 {
        assert !column[0].Missing?;
      }
    }
  }

  /** The KPI record of the table lines 47-54 leave: at most as many rows as
      the de-duplicated table, at most one country per row, and the year range
      as in `FilteredYearRange`. */
  lemma NarrowedKpis(columns: seq<string>, rows: seq<Row>, parseYear: string -> Option<int>)
    ensures var filtered := Cleaning.Narrow(columns, rows, parseYear);
      var k := ComputeKpis(|rows|, columns, filtered, parseYear);
      && k.totalRowsFiltered <= k.totalRowsOriginal
      && (k.uniqueCountries.Some? ==> k.uniqueCountries.value <= k.totalRowsFiltered)
      && (k.yearMin.Some? <==> Find(columns, Cleaning.ReleaseYearLabel).At? && |filtered| > 0)
      && (k.yearMin.Some? ==> Cleaning.MinReleaseYear <= k.yearMin.value <= k.yearMax.value)
  {
    var filtered := Cleaning.Narrow(columns, rows, parseYear);
    FilteredYearRange(|rows|, columns, filtered, parseYear);
    var country := Find(columns, CountryLabel);
    if country.At? {
      NUniqueBound(Column(filtered, country.index));
    }
  }
}
