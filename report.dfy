/** The body of src/day1_netflix_clean.py from the label normalisation to the
    summary lines: one method that threads the table `df`, its narrowed copy
    `filtered`, `top_genres`, the KPI record and `summary_lines` through the
    script's reassignments. Indexing a label that several columns share gives
    pandas a DataFrame where the script expects a Series, and the next step
    raises; `dropna(subset=["title"])` raises when no column is labelled
    `title`. Both end the run, modelled as `Crashed`. */
module Report {

  import opened Wrappers
  import opened Tables
  import Labels
  import Cleaning
  import Genres
  import Kpis

  const ListedInLabel: string := "listed_in"

  /** Why the script stops before writing its summary. */
  datatype Failure =
    | AmbiguousColumn(name: string)  // `df[name]` names several columns
    | MissingTitleColumn             // KeyError from `dropna(subset=["title"])`

  /** One entry of `summary_lines`, before it is formatted as text. */
  datatype SummaryLine =
    | Heading
    | OriginalRows(count: nat)
    | FilteredRows(kept: nat)
    | YearRange(low: Option<int>, high: Option<int>)
    | UniqueCountries(countries: Option<nat>)
    | TopGenresSection(entries: seq<(string, nat)>)

  /** What a completed run leaves behind. */
  datatype Report = Report(
    columns: seq<string>,
    cleaned: seq<Row>,
    filtered: seq<Row>,
    topGenres: Option<seq<(string, nat)>>,
    kpis: Kpis.Kpis,
    summary: seq<SummaryLine>)

  datatype Outcome = Completed(report: Report) | Crashed(failure: Failure)

  /** The labels the script reads as one column, each only when present. */
  predicate SeriesLookupFails(columns: seq<string>) {
    || Find(columns, Cleaning.DateAddedLabel).Ambiguous?
    || Find(columns, Cleaning.TypeLabel).Ambiguous?
    || Find(columns, Cleaning.ReleaseYearLabel).Ambiguous?
    || Find(columns, ListedInLabel).Ambiguous?
    || Find(columns, Kpis.CountryLabel).Ambiguous?
  }

  /** Lines 27-44, the "Inspect & Clean" section: normalise the labels, drop
      repeated rows and convert `date_added` to timestamps when it exists. The
      frame `read_csv` yields holds one cell per column in every row. */
  method Clean(raw: Table, parseDate: string -> Option<int>)
    returns (columns: seq<string>, df: seq<Row>, failure: Option<Failure>)
    requires forall row :: row in raw.rows ==> |row| == |raw.columns|
    ensures columns == Labels.NormalizeAll(raw.columns)
    ensures failure.Some? <==> Find(columns, Cleaning.DateAddedLabel).Ambiguous?
    ensures failure.Some? ==> failure.value == AmbiguousColumn(Cleaning.DateAddedLabel)
    ensures failure.None? ==> |df| == |set row | row in raw.rows|
    ensures failure.None? && Find(columns, Cleaning.DateAddedLabel).Absent? ==> df == DropDuplicates(raw.rows)
    ensures failure.None? && Find(columns, Cleaning.DateAddedLabel).At? ==>
      df == Cleaning.CoerceDates(DropDuplicates(raw.rows), Find(columns, Cleaning.DateAddedLabel).index, parseDate)
  {
    columns := Labels.NormalizeAll(raw.columns);
    df := DropDuplicates(raw.rows);
    DropDuplicatesLength(raw.rows);
    failure := None;
    var dateAdded := Find(columns, Cleaning.DateAddedLabel);
    if dateAdded.Ambiguous? {
      failure := Some(AmbiguousColumn(Cleaning.DateAddedLabel));
    } else if dateAdded.At? {
      df := Cleaning.CoerceDates(df, dateAdded.index, parseDate);
    }
  }

  /** Lines 47-54: `filtered` starts as a copy of `df` and is narrowed by each
      step in turn; together the steps select exactly the rows `Keep` accepts. */
  method SelectMovies(columns: seq<string>, df: seq<Row>, parseYear: string -> Option<int>)
    returns (filtered: seq<Row>, failure: Option<Failure>)
    ensures failure.Some? <==>
      || Find(columns, Cleaning.TypeLabel).Ambiguous?
      || Find(columns, Cleaning.ReleaseYearLabel).Ambiguous?
      || Cleaning.TitleLabel !in columns
    ensures failure.Some? && failure.value.AmbiguousColumn? ==> Find(columns, failure.value.name).Ambiguous?
    ensures failure.Some? && failure.value.MissingTitleColumn? ==> Cleaning.TitleLabel !in columns
    ensures failure.None? ==> filtered == Cleaning.Narrow(columns, df, parseYear)
  {
    failure := None;
    // After each step `filtered` is the selection of `df` by the steps so far.
    ghost var typeStep := (row: Row) => Cleaning.TypeStep(columns, row);
    ghost var yearStep := (row: Row) => Cleaning.YearStep(columns, row, parseYear);
    ghost var typeAndYear := (row: Row) => typeStep(row) && yearStep(row);
    ghost var keep := (row: Row) => Cleaning.Keep(columns, row, parseYear);
    filtered := df;

    var typeColumn := Find(columns, Cleaning.TypeLabel);
    if typeColumn.Ambiguous? {
      return filtered, Some(AmbiguousColumn(Cleaning.TypeLabel));
    } else if typeColumn.At? {
      var isMovie := (row: Row) => Cleaning.IsMovie(row, typeColumn.index);
      filtered := Filter(filtered, isMovie);
      FilterCongruent(df, isMovie, typeStep);
    } else {
      FilterAll(df, typeStep);
    }
    assert filtered == Filter(df, typeStep);

    var yearColumn := Find(columns, Cleaning.ReleaseYearLabel);
    if yearColumn.Ambiguous? {
      return filtered, Some(AmbiguousColumn(Cleaning.ReleaseYearLabel));
    } else if yearColumn.At? {
      var recent := (row: Row) => Cleaning.ReleasedSince(row, yearColumn.index, parseYear);
      filtered := Filter(filtered, recent);
      FilterFusion(df, typeStep, recent, typeAndYear);
    } else {
      FilterCongruent(df, typeStep, typeAndYear);
    }
    assert filtered == Filter(df, typeAndYear);

    if Cleaning.TitleLabel !in columns {
      return filtered, Some(MissingTitleColumn);
    }
    var titled := (row: Row) => Cleaning.HasTitle(columns, row);
    filtered := Filter(filtered, titled);
    FilterFusion(df, typeAndYear, titled, keep);
  }

  /** Lines 57-85, the "Genre analysis" and "Basic KPIs" sections on the
      narrowed table: the genre ranking when `listed_in` exists, then the KPI
      record with `original` as the row count of `df`. */
  method Analyse(columns: seq<string>, original: nat, filtered: seq<Row>, parseYear: string -> Option<int>)
    returns (topGenres: Option<seq<(string, nat)>>, kpis: Kpis.Kpis, failure: Option<Failure>)
    ensures failure.Some? <==> Find(columns, ListedInLabel).Ambiguous? || Find(columns, Kpis.CountryLabel).Ambiguous?
    ensures failure.Some? ==> failure.value.AmbiguousColumn? && Find(columns, failure.value.name).Ambiguous?
    ensures failure.None? ==>
      && (topGenres.Some? <==> ListedInLabel in columns)
      && (topGenres.Some? ==>
            topGenres.value == Genres.TopGenres(Column(filtered, Find(columns, ListedInLabel).index)))
      && kpis == Kpis.ComputeKpis(original, columns, filtered, parseYear)
  {
    topGenres, failure := None, None;
    var genreColumn := Find(columns, ListedInLabel);
    if genreColumn.Ambiguous? {
      failure := Some(AmbiguousColumn(ListedInLabel));
    } else if genreColumn.At? {
      topGenres := Some(Genres.TopGenres(Column(filtered, genreColumn.index)));
    }
    if failure.None? && Find(columns, Kpis.CountryLabel).Ambiguous? {
      failure := Some(AmbiguousColumn(Kpis.CountryLabel));
    }
    kpis := Kpis.ComputeKpis(original, columns, filtered, parseYear);
  }

  /** Lines 96-104: the five fixed summary lines, then the genre section
      appended when there is a ranking. */
  method Summarize(kpis: Kpis.Kpis, topGenres: Option<seq<(string, nat)>>) returns (lines: seq<SummaryLine>)
    ensures |lines| == (if topGenres.Some? then 6 else 5)
    ensures lines[0] == Heading
    ensures lines[1] == OriginalRows(kpis.totalRowsOriginal)
    ensures lines[2] == FilteredRows(kpis.totalRowsFiltered)
    ensures lines[3] == YearRange(kpis.yearMin, kpis.yearMax)
    ensures lines[4] == UniqueCountries(kpis.uniqueCountries)
    ensures topGenres.Some? ==> lines[5] == TopGenresSection(topGenres.value)
  {
    lines := [
      Heading,
      OriginalRows(kpis.totalRowsOriginal),
      FilteredRows(kpis.totalRowsFiltered),
      YearRange(kpis.yearMin, kpis.yearMax),
      UniqueCountries(kpis.uniqueCountries)
    ];
    if topGenres.Some? {
      lines := lines + [TopGenresSection(topGenres.value)];
    }
  }

  /** The script body on the table `read_csv` produced (one cell per column in
      every row, short records padded with missing cells), with the library's date
      and number parsers as parameters. */
  method RunReport(raw: Table, parseDate: string -> Option<int>, parseYear: string -> Option<int>)
    returns (outcome: Outcome)
    requires forall row :: row in raw.rows ==> |row| == |raw.columns|
    ensures var columns := Labels.NormalizeAll(raw.columns);
      outcome.Crashed? <==> SeriesLookupFails(columns) || Cleaning.TitleLabel !in columns
    ensures outcome.Crashed? && outcome.failure.AmbiguousColumn? ==>
      Find(Labels.NormalizeAll(raw.columns), outcome.failure.name).Ambiguous?
    ensures outcome.Crashed? && outcome.failure.MissingTitleColumn? ==>
      Cleaning.TitleLabel !in Labels.NormalizeAll(raw.columns)
    ensures outcome.Completed? ==> var r := outcome.report;
      // lines 27-32 and 40-44: the labels and rows of `df`
      && r.columns == Labels.NormalizeAll(raw.columns)
      && |r.cleaned| == |set row | row in raw.rows|
      && (Find(r.columns, Cleaning.DateAddedLabel).Absent? ==> r.cleaned == DropDuplicates(raw.rows))
      && (Find(r.columns, Cleaning.DateAddedLabel).At? ==>
            r.cleaned == Cleaning.CoerceDates(DropDuplicates(raw.rows),
                                              Find(r.columns, Cleaning.DateAddedLabel).index, parseDate))
      // lines 47-54: the successive selections amount to one selection by `Keep`
      && r.filtered == Cleaning.Narrow(r.columns, r.cleaned, parseYear)
      && (Find(r.columns, Cleaning.DateAddedLabel).Absent? ==> IsSubsequence(r.filtered, raw.rows))
      // lines 59-64
      && (r.topGenres.Some? <==> ListedInLabel in r.columns)
      && (r.topGenres.Some? ==>
            r.topGenres.value == Genres.TopGenres(Column(r.filtered, Find(r.columns, ListedInLabel).index)))
      // lines 79-85
      && r.kpis == Kpis.ComputeKpis(|r.cleaned|, r.columns, r.filtered, parseYear)
      && r.kpis.totalRowsFiltered <= r.kpis.totalRowsOriginal
      && (r.kpis.yearMin.Some? <==> Cleaning.ReleaseYearLabel in r.columns && |r.filtered| > 0)
      && (r.kpis.yearMin.Some? ==> Cleaning.MinReleaseYear <= r.kpis.yearMin.value <= r.kpis.yearMax.value)
      && (r.kpis.uniqueCountries.Some? <==> Kpis.CountryLabel in r.columns)
      && (r.kpis.uniqueCountries.Some? ==> r.kpis.uniqueCountries.value <= r.kpis.totalRowsFiltered)
      // lines 96-104
      && |r.summary| == (if r.topGenres.Some? then 6 else 5)
      && r.summary[0] == Heading
      && r.summary[1] == OriginalRows(|r.cleaned|)
      && r.summary[2] == FilteredRows(|r.filtered|)
      && r.summary[3] == YearRange(r.kpis.yearMin, r.kpis.yearMax)
      && r.summary[4] == UniqueCountries(r.kpis.uniqueCountries)
      && (r.topGenres.Some? ==> r.summary[5] == TopGenresSection(r.topGenres.value))
  {
    var columns, df, failure := Clean(raw, parseDate);
    if failure.Some? {
      return Crashed(failure.value);
    }
    var filtered;
    filtered, failure := SelectMovies(columns, df, parseYear);
    if failure.Some? {
      return Crashed(failure.value);
    }

    var topGenres, kpis;
    topGenres, kpis, failure := Analyse(columns, |df|, filtered, parseYear);
    if failure.Some? {
      return Crashed(failure.value);
    }
    Kpis.NarrowedKpis(columns, df, parseYear);
    Cleaning.NarrowOfDeduplicated(columns, raw.rows, parseYear);

    var summary := Summarize(kpis, topGenres);
    outcome := Completed(Report(columns, df, filtered, topGenres, kpis, summary));
  }
}
