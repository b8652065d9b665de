/** The data frame as the report script uses it: a sequence of column labels and
    a sequence of rows, each row holding one cell per column position, together
    with the row-level operations the script applies to it (column lookup,
    boolean-mask selection, `drop_duplicates`). */
module Tables {

  /** One cell: a missing marker (NaN or NaT), the text `read_csv` read, or a
      timestamp produced by date coercion. */
  datatype Cell = Missing | Text(text: string) | Timestamp(instant: int)

  type Row = seq<Cell>

  datatype Table = Table(columns: seq<string>, rows: seq<Row>)

  /** The cell of `row` in column position `i`. The frames `read_csv` yields
      are rectangular (`Report.Clean` and `Report.RunReport` require it), so
      there `i` is always a position of `row`; past its end, on a value no
      frame holds, the cell reads as missing. */
  function CellAt(row: Row, i: nat): Cell {
    if i < |row| then row[i] else Missing
  }

  /** `df[name]` as a Series: the cells of column position `i`, one per row. */
  function Column(rows: seq<Row>, i: nat): (values: seq<Cell>)
    ensures |values| == |rows|
  {
    seq(|rows|, k requires 0 <= k < |rows| => CellAt(rows[k], i))
  }

  /** The position of the first occurrence of `x` in `s`. */
  function FirstIndex<T(==)>(s: seq<T>, x: T): (k: nat)
    requires x in s
    ensures k < |s| && s[k] == x && x !in s[..k]
  {
    if s[0] == x then 0 else 1 + FirstIndex(s[1..], x)
  }

  /** What `name in df.columns` followed by `df[name]` finds. */
  datatype Lookup = Absent | At(index: nat) | Ambiguous

  /** Looks a name up among the column labels: absent, naming exactly one
      position, or naming several (then `df[name]` is a DataFrame, not a Series). */
  function Find(columns: seq<string>, name: string): (r: Lookup)
    ensures r.Absent? <==> name !in columns
    ensures r.At? ==> r.index < |columns| && columns[r.index] == name
    ensures r.At? ==> forall j :: 0 <= j < |columns| && columns[j] == name ==> j == r.index
    ensures r.Ambiguous? <==> exists j, k :: 0 <= j < k < |columns| && columns[j] == name && columns[k] == name
  {
    if name !in columns then Absent
    else
      var i := FirstIndex(columns, name);
      if name in columns[i + 1..] then
        ghost var k :| i + 1 <= k < |columns| && columns[k] == name;
        Ambiguous
      else
        assert forall j :: 0 <= j < |columns| && columns[j] == name ==> j == i;
        At(i)
  }

  /** Boolean-mask selection `df[mask]`: the elements that satisfy `keep`, in
      their original order. */
  function Filter<T(==)>(s: seq<T>, keep: T -> bool): (r: seq<T>)
    ensures |r| <= |s|
    ensures forall k :: 0 <= k < |r| ==> r[k] in s && keep(r[k])
    ensures forall k :: 0 <= k < |s| && keep(s[k]) ==> s[k] in r
  {
    if |s| == 0 then []
    else
      var kept := Filter(s[..|s| - 1], keep);
      assert s == s[..|s| - 1] + [s[|s| - 1]];
      if keep(s[|s| - 1]) then kept + [s[|s| - 1]] else kept
  }

  /** Selecting by a condition that holds everywhere keeps everything. */
  lemma {:induction false} FilterAll<T>(s: seq<T>, keep: T -> bool)
    requires forall x :: keep(x)
    ensures Filter(s, keep) == s
    decreases |s|
  {
    if |s| > 0 {
      var prefix, last := s[..|s| - 1], s[|s| - 1];
      FilterAll(prefix, keep);
      FilterSnoc(prefix, last, keep);
      assert s == prefix + [last];
    }
  }

  /** Selection only depends on which elements the condition accepts. */
  lemma {:induction false} FilterCongruent<T>(s: seq<T>, f: T -> bool, g: T -> bool)
    requires forall x :: f(x) == g(x)
    ensures Filter(s, f) == Filter(s, g)
    decreases |s|
  {
    if |s| > 0 {
      FilterCongruent(s[..|s| - 1], f, g);
    }
  }

  lemma FilterSnoc<T>(s: seq<T>, x: T, keep: T -> bool)
    ensures Filter(s + [x], keep) == Filter(s, keep) + (if keep(x) then [x] else [])
  {
    assert (s + [x])[..|s|] == s;
  }

  /** A mask keeps every copy of an accepted element and no copy of a rejected
      one, so with `FilterIsSubsequence` the selection is fixed completely. */
  lemma {:induction false} FilterMultiplicity<T(!new)>(s: seq<T>, keep: T -> bool)
    ensures forall x :: multiset(Filter(s, keep))[x] == if keep(x) then multiset(s)[x] else 0
    decreases |s|
  {
    if |s| > 0 {
      var prefix, last := s[..|s| - 1], s[|s| - 1];
      FilterMultiplicity(prefix, keep);
      FilterSnoc(prefix, last, keep);
      assert s == prefix + [last];
      assert multiset(s) == multiset(prefix) + multiset{last};
    }
  }

  /** Selecting by `p` and then by `q` is selecting once by `p && q`, which is
      how successive reassignments of `filtered` compose. */
  lemma {:induction false} FilterFusion<T>(s: seq<T>, p: T -> bool, q: T -> bool, pq: T -> bool)
    requires forall x :: pq(x) == (p(x) && q(x))
    ensures Filter(Filter(s, p), q) == Filter(s, pq)
    decreases |s|
  {
    if |s| > 0 {
      var prefix, last := s[..|s| - 1], s[|s| - 1];
      FilterFusion(prefix, p, q, pq);
      if p(last) {
        FilterSnoc(Filter(prefix, p), last, q);
      }
    }
  }

  /** `a` is `b` with some elements deleted and the rest left in order. */
  predicate IsSubsequence<T(==)>(a: seq<T>, b: seq<T>)
    decreases |b|
  {
    if a == [] then true
    else if b == [] then false
    else
      || (a[|a| - 1] == b[|b| - 1] && IsSubsequence(a[..|a| - 1], b[..|b| - 1]))
      || IsSubsequence(a, b[..|b| - 1])
  }

  /** No element occurs twice. */
  predicate Distinct<T(==)>(s: seq<T>) {
    forall i, j :: 0 <= i < j < |s| ==> s[i] != s[j]
  }

  /** `drop_duplicates()`: the first occurrence of every element, in order. */
  function DropDuplicates<T(==)>(s: seq<T>): (r: seq<T>)
    ensures |r| <= |s|
    ensures forall k :: 0 <= k < |r| ==> r[k] in s
    ensures forall k :: 0 <= k < |s| ==> s[k] in r
    ensures Distinct(r)
  {
    if |s| == 0 then []
    else
      var kept := DropDuplicates(s[..|s| - 1]);
      assert s == s[..|s| - 1] + [s[|s| - 1]];
      if s[|s| - 1] in kept then kept else kept + [s[|s| - 1]]
  }

  /** A selection keeps the survivors in their original relative order. */
  lemma {:induction false} FilterIsSubsequence<T>(s: seq<T>, keep: T -> bool)
    ensures IsSubsequence(Filter(s, keep), s)
    decreases |s|
  {
    if |s| > 0 {
      FilterIsSubsequence(s[..|s| - 1], keep);
    }
  }

  /** Deleting elements twice is deleting elements once. */
  lemma {:induction false} SubsequenceTransitive<T>(a: seq<T>, b: seq<T>, c: seq<T>)
    requires IsSubsequence(a, b) && IsSubsequence(b, c)
    ensures IsSubsequence(a, c)
    decreases |c|
  {
    if a == [] {
    } else if IsSubsequence(b, c[..|c| - 1]) {
      SubsequenceTransitive(a, b, c[..|c| - 1]);
    } else {
      assert b[|b| - 1] == c[|c| - 1] && IsSubsequence(b[..|b| - 1], c[..|c| - 1]);
      if a[|a| - 1] == b[|b| - 1] && IsSubsequence(a[..|a| - 1], b[..|b| - 1]) {
        SubsequenceTransitive(a[..|a| - 1], b[..|b| - 1], c[..|c| - 1]);
      } else {
        SubsequenceTransitive(a, b[..|b| - 1], c[..|c| - 1]);
      }
    }
  }

  /** The rows `drop_duplicates()` keeps appear in the input in the same order. */
  lemma {:induction false} DropDuplicatesIsSubsequence<T>(s: seq<T>)
    ensures IsSubsequence(DropDuplicates(s), s)
    decreases |s|
  {
    if |s| > 0 {
      DropDuplicatesIsSubsequence(s[..|s| - 1]);
    }
  }

  /** The rows kept from the first `n` input rows come first, in the same
      order: every row sits at the position its first occurrence earns it. */
  lemma {:induction false} DropDuplicatesOfPrefix<T>(s: seq<T>, n: nat)
    requires n <= |s|
    ensures DropDuplicates(s[..n]) <= DropDuplicates(s)
    decreases |s|
  {
    if n < |s| {
      var p := s[..|s| - 1];
      DropDuplicatesOfPrefix(p, n);
      assert p[..n] == s[..n];
    } else {
      assert s[..n] == s;
    }
  }

  /** A sequence without repetitions has as many elements as its set. */
  lemma {:induction false} DistinctCardinality<T>(s: seq<T>)
    requires Distinct(s)
    ensures |set x | x in s| == |s|
    decreases |s|
  {
    if |s| > 0 {
      var p := s[..|s| - 1];
      DistinctCardinality(p);
      assert (set x | x in s) == (set x | x in p) + {s[|s| - 1]};
      assert s[|s| - 1] !in p;
    }
  }

  /** `drop_duplicates()` leaves exactly one row per distinct row value: a row
      occurring k + 1 times loses k copies. */
  lemma DropDuplicatesLength<T>(s: seq<T>)
    ensures |DropDuplicates(s)| == |set x | x in s|
  {
    var r := DropDuplicates(s);
    DistinctCardinality(r);
    assert (set x | x in r) == (set x | x in s);
  }
}
