/** Proves, on three concrete rows, what the selection and genre steps of
    src/day1_netflix_clean.py yield: of a 2016 movie listing two genres, a 2020
    TV show and a 2010 movie, only the first row survives lines 47-54, and its
    two genres tie at one row each. */
module Scenario {

  import opened Wrappers
  import opened Tables
  import Cleaning
  import Genres
  import Text

  /** A number parser that reads the three release years of the example. */
  function ParseYear(s: string): Option<int> {
    if s == "2016" then Some(2016) else if s == "2020" then Some(2020)
    else if s == "2010" then Some(2010) else None
  }

  /** The labels after normalisation, and the three rows. */
  const Columns: seq<string> := ["type", "release_year", "title", "listed_in"]
  const RowA: Row := [Text("Movie"), Text("2016"), Text("A"), Text("Comedies, Dramas")]
  const RowB: Row := [Text("TV Show"), Text("2020"), Text("B"), Text("Kids' TV")]
  const RowC: Row := [Text("Movie"), Text("2010"), Text("C"), Text("Action")]

  lemma ExampleLookups()
    ensures Find(Columns, Cleaning.TypeLabel) == At(0)
    ensures Find(Columns, Cleaning.ReleaseYearLabel) == At(1)
  {
    assert "type" !in Columns[1..] && "release_year" !in Columns[2..];
  }

  lemma MovieLowercases()
    ensures Text.Lower("Movie") == Cleaning.TargetType
    ensures Text.Lower("TV Show") != Cleaning.TargetType
  {
    assert Text.Lower("Movie")[0] == Text.LowerChar('M') == 'm';
  }

  /** The movie from 2016 passes every step; the TV show fails the `type`
      step and the 2010 movie the `release_year` step. */
  lemma KeepsOnlyRecentMovies()
    ensures Cleaning.Keep(Columns, RowA, ParseYear)
    ensures !Cleaning.Keep(Columns, RowB, ParseYear)
    ensures !Cleaning.Keep(Columns, RowC, ParseYear)
  {
    ExampleLookups();
    MovieLowercases();
  }

  /** Lines 47-54 leave the first row only. */
  lemma ThreeRows()
    ensures Cleaning.Narrow(Columns, [RowA, RowB, RowC], ParseYear) == [RowA]
  {
    KeepsOnlyRecentMovies();
    var keep := (row: Row) => Cleaning.Keep(Columns, row, ParseYear);
    assert [RowA, RowB, RowC][..2] == [RowA, RowB] && [RowA, RowB][..1] == [RowA];
    assert Filter([RowA], keep) == [RowA];
    assert Filter([RowA, RowB], keep) == [RowA];
  }

  lemma FirstSeparator()
    ensures Text.FindSep("Comedies, Dramas") == Some(8)
  {
    var s := "Comedies, Dramas";
    forall i | 0 <= i < 8 ensures !Text.SepAt(s, i) {
      assert s[i] != ',';
    }
    Text.FindSepLeftmost(s, 8);
  }

  lemma NoSeparator()
    ensures Text.Split("Dramas") == ["Dramas"]
  {
    var s := "Dramas";
    forall i | 0 <= i < |s| ensures !Text.SepAt(s, i) {
      assert s[i] != ',';
    }
  }

  lemma SplitAtFirst(s: string, i: nat)
    requires Text.FindSep(s) == Some(i)
    ensures Text.Split(s) == [s[..i]] + Text.Split(s[i + 2..])
  {
  }

  lemma Pieces()
    ensures "Comedies, Dramas"[..8] == "Comedies"
    ensures "Comedies, Dramas"[10..] == "Dramas"
  {
  }

  /** `"Comedies, Dramas".split(", ")`. */
  lemma SplitTwoGenres()
    ensures Text.Split("Comedies, Dramas") == ["Comedies", "Dramas"]
  {
    FirstSeparator();
    SplitAtFirst("Comedies, Dramas", 8);
    Pieces();
    NoSeparator();
  }

  lemma TokensOfRowA()
    ensures Genres.Tokens(Text("Comedies, Dramas")) == ["Comedies", "Dramas"]
  {
    SplitTwoGenres();
    var l := ["Comedies", "Dramas"];
    var nonEmpty := (p: string) => p != "";
    assert l[..1] == ["Comedies"];
    assert Filter(l[..1], nonEmpty) == l[..1];
  }

  lemma ListingsOfRowA()
    ensures Genres.Listings(Column([RowA], 3)) == [["Comedies", "Dramas"]]
  {
    var values := Column([RowA], 3);
    assert values[0] == CellAt(RowA, 3) == Text("Comedies, Dramas");
    TokensOfRowA();
    assert Genres.Listings(values)[0] == Genres.Tokens(values[0]);
  }

  lemma GenresOfOneRow()
    ensures Genres.Genres([["Comedies", "Dramas"]]) == ["Comedies", "Dramas"]
  {
    var l := ["Comedies", "Dramas"];
    assert Genres.AllTokens([l]) == l;
    assert DropDuplicates(l[..1]) == l[..1];
  }

  /** A table of one row counts each genre of that row once. */
  lemma CountOneRow(l: seq<string>, g: string)
    requires g in l
    ensures Genres.ColumnSum([l], g) == 1
  {
    assert [l][..0] == [];
  }

  lemma CountPairsOfTwo(a: string, b: string, ls: seq<seq<string>>)
    ensures Genres.CountPairs([a, b], ls) == [(a, Genres.ColumnSum(ls, a)), (b, Genres.ColumnSum(ls, b))]
  {
    assert [a, b][..1] == [a];
    assert [a][..0] == [];
  }

  lemma CountsOfOneRow()
    ensures var ls := [["Comedies", "Dramas"]];
      Genres.CountPairs(Genres.Genres(ls), ls) == [("Comedies", 1), ("Dramas", 1)]
  {
    var l := ["Comedies", "Dramas"];
    GenresOfOneRow();
    CountPairsOfTwo("Comedies", "Dramas", [l]);
    CountOneRow(l, "Comedies");
    CountOneRow(l, "Dramas");
  }

  lemma RankOfTie()
    ensures Genres.TopOf([("Comedies", 1), ("Dramas", 1)]) == [("Comedies", 1), ("Dramas", 1)]
  {
    var counts := [("Comedies", 1), ("Dramas", 1)];
    assert Genres.SortByCount(counts[1..]) == counts[1..];
  }

  /** The ranking of the remaining row: both genres, one row each, in order
      of first appearance. */
  lemma GenresOfRowA()
    ensures Genres.TopGenres(Column([RowA], 3)) == [("Comedies", 1), ("Dramas", 1)]
  {
    ListingsOfRowA();
    CountsOfOneRow();
    RankOfTie();
  }

  /** The whole example: `top_genres` of the filtered table. */
  lemma ExampleReport()
    ensures Genres.TopGenres(Column(Cleaning.Narrow(Columns, [RowA, RowB, RowC], ParseYear), 3))
         == [("Comedies", 1), ("Dramas", 1)]
  {
    ThreeRows();
    GenresOfRowA();
  }
}
