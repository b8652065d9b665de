/** The cleaning and filtering steps of src/day1_netflix_clean.py: the
    error-tolerant date conversion of `date_added` (line 44) and the three row
    predicates that narrow the table to movies released since 2015 with a title
    (lines 47-54). Date and number parsing are library code; they enter as total
    functions that return `None` where pandas would coerce to NaT or NaN. */
module Cleaning {

  import opened Wrappers
  import opened Tables
  import Text

  const TypeLabel: string := "type"
  const ReleaseYearLabel: string := "release_year"
  const TitleLabel: string := "title"
  const DateAddedLabel: string := "date_added"

  /** The value the lowercased `type` must equal. */
  const TargetType: string := "movie"

  /** The least release year a row may have. */
  const MinReleaseYear: int := 2015

  /** `pd.to_datetime(cell, errors="coerce")`: text that parses becomes a
      timestamp, anything else becomes the missing marker instead of an error. */
  function CoerceDate(c: Cell, parseDate: string -> Option<int>): (d: Cell)
    ensures !d.Text?
    ensures c.Missing? ==> d.Missing?
    ensures c.Text? ==> (d.Timestamp? <==> parseDate(c.text).Some?)
    ensures d.Timestamp? && c.Text? ==> Some(d.instant) == parseDate(c.text)
    ensures c.Timestamp? ==> d == c
  {
    match c
    case Missing => Missing
    case Text(s) =>
      (match parseDate(s)
       case Some(t) => Timestamp(t)
       case None => Missing)
    case Timestamp(_) => c
  }

  /** The assignment `df["date_added"] = ...` for the column at position `i`:
      that column holds timestamps or missing markers afterwards, and no other
      cell and no row count changes. */
  function CoerceDates(rows: seq<Row>, i: nat, parseDate: string -> Option<int>): (r: seq<Row>)
    ensures |r| == |rows|
    ensures forall k :: 0 <= k < |r| ==> |r[k]| == |rows[k]| && !CellAt(r[k], i).Text?
    ensures forall k, j :: 0 <= k < |r| && 0 <= j < |r[k]| && j != i ==> r[k][j] == rows[k][j]
    ensures forall k :: 0 <= k < |r| ==> CellAt(r[k], i) == CoerceDate(CellAt(rows[k], i), parseDate)
  {
    seq(|rows|, k requires 0 <= k < |rows| =>
      if i < |rows[k]| then rows[k][i := CoerceDate(rows[k][i], parseDate)] else rows[k])
  }

  /** Converting an already converted column changes nothing: timestamps and
      missing markers are left as they are. */
  lemma CoerceDatesIdempotent(rows: seq<Row>, i: nat, parseDate: string -> Option<int>)
    ensures CoerceDates(CoerceDates(rows, i, parseDate), i, parseDate) == CoerceDates(rows, i, parseDate)
  {
    var once := CoerceDates(rows, i, parseDate);
    var twice := CoerceDates(once, i, parseDate);
    forall k | 0 <= k < |once|
      ensures twice[k] == once[k]
    {
      assert CellAt(twice[k], i) == CellAt(once[k], i);
      if i < |once[k]| {
        assert once[k][i] == CellAt(once[k], i);
      }
    }
  }

  /** Line 49: `type` lowercased equals "movie"; a missing or non-text cell
      compares unequal. */
  predicate IsMovie(row: Row, i: nat) {
    CellAt(row, i).Text? && Text.Lower(CellAt(row, i).text) == TargetType
  }

  /** Line 52: `release_year` coerced to a number is at least 2015; a cell that
      does not coerce is NaN, and NaN >= 2015 is false. */
  predicate ReleasedSince(row: Row, i: nat, parseYear: string -> Option<int>) {
    CellAt(row, i).Text?
    && parseYear(CellAt(row, i).text).Some?
    && parseYear(CellAt(row, i).text).value >= MinReleaseYear
  }

  /** Line 54, `dropna(subset=["title"])`: every column labelled `title` holds a
      value in this row. */
  predicate HasTitle(columns: seq<string>, row: Row) {
    forall j :: 0 <= j < |columns| && columns[j] == TitleLabel ==> !CellAt(row, j).Missing?
  }

  /** Lines 48-49: the `type` step, which applies only when the column exists. */
  predicate TypeStep(columns: seq<string>, row: Row) {
    Find(columns, TypeLabel).At? ==> IsMovie(row, Find(columns, TypeLabel).index)
  }

  /** Lines 51-52: the `release_year` step, which applies only when the column
      exists. */
  predicate YearStep(columns: seq<string>, row: Row, parseYear: string -> Option<int>) {
    Find(columns, ReleaseYearLabel).At? ==> ReleasedSince(row, Find(columns, ReleaseYearLabel).index, parseYear)
  }

  /** The conjunction the three narrowing steps amount to. */
  predicate Keep(columns: seq<string>, row: Row, parseYear: string -> Option<int>) {
    TypeStep(columns, row) && YearStep(columns, row, parseYear) && HasTitle(columns, row)
  }

  /** The rows lines 47-54 keep, in their order: exactly those satisfying `Keep`. */
  function Narrow(columns: seq<string>, rows: seq<Row>, parseYear: string -> Option<int>): (r: seq<Row>)
    ensures IsSubsequence(r, rows)
    ensures |r| <= |rows|
    ensures forall row :: row in r <==> row in rows && Keep(columns, row, parseYear)
    ensures forall row :: multiset(r)[row] == if Keep(columns, row, parseYear) then multiset(rows)[row] else 0
  {
    var keep := (row: Row) => Keep(columns, row, parseYear);
    FilterIsSubsequence(rows, keep);
    FilterMultiplicity(rows, keep);
    Filter(rows, keep)
  }

  /** Without a `type` and a `release_year` column only the title step is left:
      the rows removed are exactly those missing a title. */
  lemma OnlyTitleStepWithoutTypeOrYear(columns: seq<string>, rows: seq<Row>,
                                       parseYear: string -> Option<int>)
    requires TypeLabel !in columns && ReleaseYearLabel !in columns
    ensures Narrow(columns, rows, parseYear) == Filter(rows, (row: Row) => HasTitle(columns, row))
  {
    FilterCongruent(rows, (row: Row) => Keep(columns, row, parseYear), (row: Row) => HasTitle(columns, row));
  }

  /** Without date conversion, the rows lines 40-54 keep appear in the table
      `read_csv` produced, in the same order. */
  lemma NarrowOfDeduplicated(columns: seq<string>, rows: seq<Row>, parseYear: string -> Option<int>)
    ensures IsSubsequence(Narrow(columns, DropDuplicates(rows), parseYear), rows)
  {
    DropDuplicatesIsSubsequence(rows);
    SubsequenceTransitive(Narrow(columns, DropDuplicates(rows), parseYear), DropDuplicates(rows), rows);
  }
}
