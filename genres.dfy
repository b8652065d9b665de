/** The genre analysis of src/day1_netflix_clean.py (lines 62-64):
    `str.get_dummies(sep=", ")` on the `listed_in` column gives one indicator
    column per distinct genre, `.sum()` counts the rows listing each genre, and
    `.sort_values(ascending=False).head(10)` keeps the ten largest counts. */
module Genres {

  import opened Tables
  import Text

  /** How many genres the ranking keeps (`head(10)`). */
  const TopCount: nat := 10

  /** The genres `get_dummies` marks for one `listed_in` cell: the non-empty
      pieces of its text split on ", ", compared verbatim (no trimming, no case
      folding). A missing cell marks none. */
  function Tokens(c: Cell): seq<string> {
    match c
    case Text(v) => Filter(Text.Split(v), (p: string) => p != "")
    case _ => []
  }

  /** The genre lists of a whole column, one per row. */
  function Listings(values: seq<Cell>): (ls: seq<seq<string>>)
    ensures |ls| == |values|
  {
    seq(|values|, k requires 0 <= k < |values| => Tokens(values[k]))
  }

  /** One entry of the indicator table: 1 when the row lists `g`, else 0. */
  function Indicator(l: seq<string>, g: string): nat {
    if g in l then 1 else 0
  }

  /** The sum of the indicator column of `g` over all rows. */
  function ColumnSum(ls: seq<seq<string>>, g: string): nat {
    if |ls| == 0 then 0
    else ColumnSum(ls[..|ls| - 1], g) + Indicator(ls[|ls| - 1], g)
  }

  /** The positions of the rows that list `g`. */
  ghost function RowsListing(ls: seq<seq<string>>, g: string): set<nat> {
    set k: nat | k < |ls| && g in ls[k]
  }

  /** Every genre of every row, row after row, repetitions included. */
  function AllTokens(ls: seq<seq<string>>): seq<string> {
    if |ls| == 0 then []
    else AllTokens(ls[..|ls| - 1]) + ls[|ls| - 1]
  }

  /** The indicator columns `get_dummies` creates: each distinct genre once. */
  function Genres(ls: seq<seq<string>>): seq<string> {
    DropDuplicates(AllTokens(ls))
  }

  /** Pairs each genre of `gs` with its column sum. */
  function CountPairs(gs: seq<string>, ls: seq<seq<string>>): (ps: seq<(string, nat)>)
    ensures |ps| == |gs|
  {
    if |gs| == 0 then []
    else CountPairs(gs[..|gs| - 1], ls) + [(gs[|gs| - 1], ColumnSum(ls, gs[|gs| - 1]))]
  }

  /** `genre_dummies.sum()`: every genre of the column with the number of rows
      listing it. */
  function GenreCounts(values: seq<Cell>): seq<(string, nat)> {
    var ls := Listings(values);
    CountPairs(Genres(ls), ls)
  }

  /** The sum of the counts of a genre-count list. */
  function SumCounts(ps: seq<(string, nat)>): nat {
    if |ps| == 0 then 0 else SumCounts(ps[..|ps| - 1]) + ps[|ps| - 1].1
  }

  /** The elements of a list, as a set. */
  ghost function AsSet(l: seq<string>): set<string> {
    set t | t in l
  }

  /** The number of (row, genre) pairs, each genre counted once per row. */
  ghost function TokenTotal(ls: seq<seq<string>>): nat {
    if |ls| == 0 then 0
    else TokenTotal(ls[..|ls| - 1]) + |AsSet(ls[|ls| - 1])|
  }

  /** Counts never increase from one entry to the next. */
  predicate NonIncreasing(ps: seq<(string, nat)>) {
    forall i, j :: 0 <= i < j < |ps| ==> ps[i].1 >= ps[j].1
  }

  /** Places `p` in front of the first entry whose count does not exceed its own. */
  function Insert(p: (string, nat), ps: seq<(string, nat)>): (r: seq<(string, nat)>)
    requires NonIncreasing(ps)
    ensures |r| == |ps| + 1
    ensures multiset(r) == multiset(ps) + multiset{p}
    ensures r[0] == p || (|ps| > 0 && r[0] == ps[0])
    ensures NonIncreasing(r)
  {
    if |ps| == 0 || ps[0].1 <= p.1 then [p] + ps
    else
      var rest := Insert(p, ps[1..]);
      assert ps == [ps[0]] + ps[1..];
      [ps[0]] + rest
  }

  /** `sort_values(ascending=False)`: the same entries, largest count first. */
  function SortByCount(ps: seq<(string, nat)>): (r: seq<(string, nat)>)
    ensures |r| == |ps|
    ensures multiset(r) == multiset(ps)
    ensures NonIncreasing(r)
  {
    if |ps| == 0 then []
    else
      assert ps == [ps[0]] + ps[1..];
      Insert(ps[0], SortByCount(ps[1..]))
  }

  /** `.head(10)` of the sorted counts. */
  function TopOf(ps: seq<(string, nat)>): seq<(string, nat)> {
    var sorted := SortByCount(ps);
    if |sorted| <= TopCount then sorted else sorted[..TopCount]
  }

  /** `top_genres`: the ten largest genre counts of the column. */
  function TopGenres(values: seq<Cell>): seq<(string, nat)> {
    TopOf(GenreCounts(values))
  }

  /** A genre is a token of the concatenation exactly when some row lists it. */
  lemma {:induction false} AllTokensListed(ls: seq<seq<string>>, g: string)
    ensures g in AllTokens(ls) <==> exists k :: 0 <= k < |ls| && g in ls[k]
    decreases |ls|
  {
    if |ls| > 0 {
      var p := ls[..|ls| - 1];
      AllTokensListed(p, g);
      if exists k :: 0 <= k < |ls| && g in ls[k] {
        var k :| 0 <= k < |ls| && g in ls[k];
        if k < |p| { assert ls[k] == p[k]; }
      }
      if exists k :: 0 <= k < |p| && g in p[k] {
        var k :| 0 <= k < |p| && g in p[k];
        assert ls[k] == p[k];
      }
    }
  }

  /** The indicator columns are exactly the genres some row lists, once each. */
  lemma GenresAreListed(ls: seq<seq<string>>)
    ensures Distinct(Genres(ls))
    ensures forall g :: g in Genres(ls) <==> exists k :: 0 <= k < |ls| && g in ls[k]
  {
    var all := AllTokens(ls);
    forall g ensures g in Genres(ls) <==> exists k :: 0 <= k < |ls| && g in ls[k] {
      AllTokensListed(ls, g);
      if g in all {
        var k :| 0 <= k < |all| && all[k] == g;
      }
      if g in Genres(ls) {
        var k :| 0 <= k < |Genres(ls)| && Genres(ls)[k] == g;
      }
    }
  }

  /** The column sum of `g` is the number of rows that list `g`. */
  lemma {:induction false} ColumnSumCountsRows(ls: seq<seq<string>>, g: string)
    ensures ColumnSum(ls, g) == |RowsListing(ls, g)|
    decreases |ls|
  {
    if |ls| > 0 {
      var n := |ls| - 1;
      var p := ls[..n];
      ColumnSumCountsRows(p, g);
      var before := RowsListing(p, g);
      assert n !in before;
      if g in ls[n] {
        assert RowsListing(ls, g) == before + {n};
      } else {
        assert RowsListing(ls, g) == before;
      }
    }
  }

  lemma {:induction false} CountPairsAt(gs: seq<string>, ls: seq<seq<string>>, k: nat)
    requires k < |gs|
    ensures CountPairs(gs, ls)[k] == (gs[k], ColumnSum(ls, gs[k]))
    decreases |gs|
  {
    if k < |gs| - 1 {
      CountPairsAt(gs[..|gs| - 1], ls, k);
    }
  }

  /** Every count `genre_dummies.sum()` reports belongs to a distinct genre that
      some row lists, and equals the number of rows listing it (so is at least 1). */
  lemma GenreCountsExact(values: seq<Cell>)
    ensures var ls, counts := Listings(values), GenreCounts(values);
      && |counts| == |Genres(ls)|
      && Distinct(Genres(ls))
      && forall k :: 0 <= k < |counts| ==>
           && counts[k].0 == Genres(ls)[k]
           && counts[k].1 == |RowsListing(ls, counts[k].0)|
           && counts[k].1 >= 1
  {
    var ls := Listings(values);
    var gs := Genres(ls);
    GenresAreListed(ls);
    forall k | 0 <= k < |gs|
      ensures GenreCounts(values)[k] == (gs[k], ColumnSum(ls, gs[k]))
      ensures ColumnSum(ls, gs[k]) == |RowsListing(ls, gs[k])| >= 1
    {
      CountPairsAt(gs, ls, k);
      ColumnSumCountsRows(ls, gs[k]);
      assert gs[k] in gs;
      var j :| 0 <= j < |ls| && gs[k] in ls[j];
      assert j in RowsListing(ls, gs[k]);
    }
  }

  /** The indicator entries of one row, summed over the genres `gs`. */
  function Hits(gs: seq<string>, l: seq<string>): nat {
    if |gs| == 0 then 0 else Hits(gs[..|gs| - 1], l) + Indicator(l, gs[|gs| - 1])
  }

  /** Adding a row to the table adds that row's indicator entries to the total. */
  lemma {:induction false} SumCountsLastRow(gs: seq<string>, ls: seq<seq<string>>)
    requires |ls| > 0
    ensures SumCounts(CountPairs(gs, ls))
         == SumCounts(CountPairs(gs, ls[..|ls| - 1])) + Hits(gs, ls[|ls| - 1])
    decreases |gs|
  {
    if |gs| > 0 {
      SumCountsLastRow(gs[..|gs| - 1], ls);
    }
  }

  lemma AsSetSnoc(p: seq<string>, g: string)
    ensures AsSet(p + [g]) == AsSet(p) + {g}
  {
  }

  lemma IntersectAddOne(b: set<string>, g: string, l: set<string>)
    requires g !in b
    ensures |(b + {g}) * l| == |b * l| + (if g in l then 1 else 0)
  {
    if g in l {
      assert (b + {g}) * l == b * l + {g};
    } else {
      assert (b + {g}) * l == b * l;
    }
  }

  /** Over distinct genres, a row's indicator entries add up to the number of
      those genres the row lists. */
  lemma {:induction false} HitsCountsListedGenres(gs: seq<string>, l: seq<string>)
    requires Distinct(gs)
    ensures Hits(gs, l) == |AsSet(gs) * AsSet(l)|
    decreases |gs|
  {
    if |gs| > 0 {
      var p, g := gs[..|gs| - 1], gs[|gs| - 1];
      assert Distinct(p) by {
        forall i, j | 0 <= i < j < |p| ensures p[i] != p[j] {
          assert p[i] == gs[i] && p[j] == gs[j];
        }
      }
      HitsCountsListedGenres(p, l);
      assert g !in AsSet(p) by {
        forall i | 0 <= i < |p| ensures p[i] != g {
          assert p[i] == gs[i];
        }
      }
      assert gs == p + [g];
      AsSetSnoc(p, g);
      IntersectAddOne(AsSet(p), g, AsSet(l));
    }
  }

  lemma {:induction false} EmptyTableCountsZero(gs: seq<string>, ls: seq<seq<string>>)
    requires |ls| == 0
    ensures SumCounts(CountPairs(gs, ls)) == 0
    decreases |gs|
  {
    if |gs| > 0 {
      EmptyTableCountsZero(gs[..|gs| - 1], ls);
    }
  }

  /** Counts conservation over any distinct genre list covering every row's
      genres. */
  lemma {:induction false} SumCountsConserved(gs: seq<string>, ls: seq<seq<string>>)
    requires Distinct(gs)
    requires forall k, t :: 0 <= k < |ls| && t in ls[k] ==> t in gs
    ensures SumCounts(CountPairs(gs, ls)) == TokenTotal(ls)
    decreases |ls|
  {
    if |ls| == 0 {
      EmptyTableCountsZero(gs, ls);
    } else {
      var n := |ls| - 1;
      var p, l := ls[..n], ls[n];
      forall k, t | 0 <= k < |p| && t in p[k] ensures t in gs {
        assert p[k] == ls[k];
      }
      SumCountsConserved(gs, p);
      SumCountsLastRow(gs, ls);
      HitsCountsListedGenres(gs, l);
      assert AsSet(gs) * AsSet(l) == AsSet(l);
    }
  }

  /** Genre count conservation: the counts add up to the number of (row, genre)
      pairs, a row listing three genres contributing three and a row repeating a
      genre contributing it once. */
  lemma GenreCountConservation(values: seq<Cell>)
    ensures SumCounts(GenreCounts(values)) == TokenTotal(Listings(values))
  {
    var ls := Listings(values);
    GenresAreListed(ls);
    SumCountsConserved(Genres(ls), ls);
  }

  /** The first `n` entries of a list sorted by count hold the largest counts. */
  lemma SortedPrefixHoldsLargest(sorted: seq<(string, nat)>, n: nat)
    requires NonIncreasing(sorted) && n <= |sorted|
    ensures forall p, q :: p in sorted && p !in sorted[..n] && q in sorted[..n] ==> p.1 <= q.1
  {
    forall p, q | p in sorted && p !in sorted[..n] && q in sorted[..n] ensures p.1 <= q.1 {
      var i :| 0 <= i < |sorted| && sorted[i] == p;
      var j :| 0 <= j < n && sorted[..n][j] == q;
      assert sorted[j] == q;
    }
  }

  /** The ranking of any counts: sorted by count, min(10, |ps|) entries taken
      from `ps`, and nothing left out counts more than anything kept. */
  lemma RankedPrefix(ps: seq<(string, nat)>)
    ensures var top := TopOf(ps);
      && |top| == (if |ps| <= TopCount then |ps| else TopCount)
      && NonIncreasing(top)
      && (forall k :: 0 <= k < |top| ==> top[k] in ps)
      && (forall p, q :: p in ps && p !in top && q in top ==> p.1 <= q.1)
  {
    var sorted := SortByCount(ps);
    var top := TopOf(ps);
    assert top == sorted[..|top|];
    forall k | 0 <= k < |top| ensures top[k] in ps {
      assert top[k] == sorted[k] && sorted[k] in multiset(ps);
    }
    SortedPrefixHoldsLargest(sorted, |top|);
    forall p | p in ps ensures p in sorted {
      assert p in multiset(ps);
    }
  }

  /** `top_genres` is sorted by count, holds min(10, number of genres) entries
      taken from the full counts, each count at least 1, and no genre left out
      has a larger count than one kept. */
  lemma TopGenresRanked(values: seq<Cell>)
    ensures var counts, top := GenreCounts(values), TopGenres(values);
      && |top| == (if |counts| <= TopCount then |counts| else TopCount)
      && NonIncreasing(top)
      && (forall k :: 0 <= k < |top| ==> top[k] in counts && top[k].1 >= 1)
      && (forall p, q :: p in counts && p !in top && q in top ==> p.1 <= q.1)
  {
    var counts := GenreCounts(values);
    RankedPrefix(counts);
    GenreCountsExact(values);
  }
}
