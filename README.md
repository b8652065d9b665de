# Netflix day-1 cleaning script, modelled in Dafny

`src/day1_netflix_clean.py` is a single top-level pandas script. It reads a
table of Netflix titles, normalises the column labels and drops repeated rows.
It converts `date_added` to timestamps and narrows the table to movies released
since 2015 that have a title. It then counts the genres listed in `listed_in`
and keeps the ten most frequent, computes a small KPI record, and lists the
lines of a text summary.

This project models that table logic and proves what it computes:

- A table is a sequence of column labels plus a sequence of positional rows. A
  cell is missing, text as read from the file, or a timestamp produced by date
  conversion. Rows are positional rather than keyed by label, so two columns
  that normalise to the same label stay two columns, as they do in pandas.
- The stages are pure functions with lemmas:
  - `Labels`: the label normaliser;
  - `Tables`: column lookup, boolean-mask selection and `drop_duplicates`;
  - `Cleaning`: date coercion and the three row predicates;
  - `Genres`: `get_dummies`, `sum`, sort and `head(10)`;
  - `Kpis`: the KPI record.
- The script body is `Report.RunReport`, a method that threads `df`,
  `filtered`, `top_genres`, `kpis` and `summary_lines` through the script's
  reassignments. It is split into one method per section of the script:
  `Clean`, `SelectMovies`, `Analyse` and `Summarize`.
- `Scenario` proves, on three concrete rows, that only the 2016 movie
  survives the selection and that its two genres tie at one row each.

The script has no exception handling. It stops in two ways the model
represents as `Crashed`:

- A label it reads as a single column (`date_added`, `type`, `release_year`,
  `listed_in`, `country`) is shared by several columns after normalisation.
  `df[name]` is then a DataFrame, and the `.str` accessor, `pd.to_datetime`,
  `pd.to_numeric` or `int(...)` applied to it raises.
- No column is labelled `title`. `dropna(subset=["title"])` then raises
  `KeyError`.

`RunReport` proves that it crashes exactly in these cases. A missing `title`
column is not tolerated (`KeyError`), and labels that collide after
normalisation stay separate columns.

The input table is the frame `read_csv` produces: every row holds one cell per
column, short records having been padded with missing cells. `Clean` and
`RunReport` require this, so comparing rows as sequences of cells is what
`drop_duplicates` compares.

Date parsing (`pd.to_datetime(..., errors="coerce")`) and number parsing
(`pd.to_numeric(..., errors="coerce")`) are library code. They enter as
parameters of type `string -> Option<int>`, where `None` stands for NaT or NaN.

## Model

| member | source | states |
|---|---|---|
| `Text.Lower` | src/day1_netflix_clean.py:29 | `str.lower()` keeps the length, maps each ASCII capital to its small letter (code + 32) and leaves every other character alone |
| `Text.FindSep` | src/day1_netflix_clean.py:62 | finds no position exactly when the text has no ", "; otherwise finds a ", " with none starting earlier |
| `Text.FindSepLeftmost` | src/day1_netflix_clean.py:62 | conversely, a ", " with none before it is the one found |
| `Text.Split` | src/day1_netflix_clean.py:62 | splitting on ", " gives at least one piece, and no piece contains ", " |
| `Text.JoinSplit` | src/day1_netflix_clean.py:62 | joining the pieces with ", " gives back the original text (split and join are inverse) |
| `Labels.Strip` | src/day1_netflix_clean.py:28 | `str.strip()` returns a contiguous slice of the label that neither starts nor ends with whitespace, and everything cut off on either side is whitespace |
| `Labels.ReplaceSpaces` | src/day1_netflix_clean.py:30 | `replace(" ", "_")` keeps the length, turns every space into `_`, leaves no space, and keeps every other character in place |
| `Labels.KeepLabelChars` | src/day1_netflix_clean.py:31 | the regex deletion keeps exactly the characters of `[a-z0-9_]`, never lengthens the label, and leaves an all-`[a-z0-9_]` label unchanged |
| `Labels.KeepLabelCharsConcat` | src/day1_netflix_clean.py:31 | the deletion of a concatenation is the concatenation of the deletions, and one character is kept exactly when it is in `[a-z0-9_]`; so the kept characters keep their order and number |
| `Labels.Normalize` | src/day1_netflix_clean.py:27-32 | a normalised label consists of `[a-z0-9_]` only and is never longer than the original |
| `Labels.NormalizeAll` | src/day1_netflix_clean.py:27-32 | the new `df.columns` has one label per original label, at the same position: the normalised form of that label, which consists of `[a-z0-9_]` only and is never longer |
| `Labels.NormalizeFixedPoints` | src/day1_netflix_clean.py:27-32 | a label is left unchanged by normalisation if and only if it is already normalised |
| `Labels.NormalizeIdempotent` | src/day1_netflix_clean.py:27-32 | normalising a normalised label changes nothing |
| `Labels.NormalizeAllIdempotent` | src/day1_netflix_clean.py:27-32 | normalising the normalised label sequence changes nothing |
| `Tables.Find` | src/day1_netflix_clean.py:43-51 | `name in df.columns` fails exactly when no label matches; a unique match gives the only position carrying the label; the lookup is ambiguous exactly when two positions carry it |
| `Tables.Filter` | src/day1_netflix_clean.py:49 | boolean-mask selection never adds rows; every kept row is an input row satisfying the condition, and every input row satisfying it is kept |
| `Tables.FilterMultiplicity` | src/day1_netflix_clean.py:49-54 | a mask keeps every copy of a row that satisfies the condition and no copy of one that does not |
| `Tables.FilterFusion` | src/day1_netflix_clean.py:47-54 | selecting by one condition and then another is the same as one selection by their conjunction |
| `Tables.FilterIsSubsequence` | src/day1_netflix_clean.py:49-54 | a selection keeps its rows in their original relative order |
| `Tables.DropDuplicates` | src/day1_netflix_clean.py:40 | no two kept rows are equal, every kept row is an input row, and every input row equals a kept row |
| `Tables.DropDuplicatesIsSubsequence` | src/day1_netflix_clean.py:40 | the kept rows appear in the input in the same order |
| `Tables.DropDuplicatesOfPrefix` | src/day1_netflix_clean.py:40 | the rows kept from any prefix of the input come first, in the same order: rows stay in order of first occurrence |
| `Tables.DropDuplicatesLength` | src/day1_netflix_clean.py:40 | one row is kept per distinct row value, so a row occurring k + 1 times loses exactly k copies |
| `Cleaning.CoerceDate` | src/day1_netflix_clean.py:44 | after conversion a cell is never text; text becomes the parsed timestamp when it parses and missing when it does not; missing cells and timestamps are unchanged |
| `Cleaning.CoerceDates` | src/day1_netflix_clean.py:43-44 | the assignment to `df["date_added"]` converts every cell of that column and changes no other cell and no row count |
| `Cleaning.CoerceDatesIdempotent` | src/day1_netflix_clean.py:44 | converting an already converted column changes nothing |
| `Cleaning.Narrow` | src/day1_netflix_clean.py:47-54 | the kept rows are in their original order, and a row is kept if and only if it satisfies all three checks. Its lowercased `type` is "movie" and its `release_year` parses to at least 2015, each only when that column exists. Every `title` column holds a value. Every copy of a kept row survives, so `total_rows_filtered` counts repeated rows |
| `Cleaning.OnlyTitleStepWithoutTypeOrYear` | src/day1_netflix_clean.py:48-54 | when neither `type` nor `release_year` exists, the only rows removed are those missing a title |
| `Cleaning.NarrowOfDeduplicated` | src/day1_netflix_clean.py:40-54 | without date conversion, the filtered rows appear in the table as read, in the same order |
| `Genres.Insert` | src/day1_netflix_clean.py:63 | inserting one count into a list sorted by count keeps it sorted and adds exactly that entry |
| `Genres.SortByCount` | src/day1_netflix_clean.py:63 | `sort_values(ascending=False)` returns a permutation of the counts that is non-increasing by count |
| `Genres.AllTokensListed` | src/day1_netflix_clean.py:62 | a genre occurs among all rows' tokens exactly when some row lists it |
| `Genres.GenresAreListed` | src/day1_netflix_clean.py:62 | `get_dummies` creates exactly one indicator column per genre that some row lists |
| `Genres.ColumnSumCountsRows` | src/day1_netflix_clean.py:62-63 | the sum of a genre's indicator column is the number of rows listing that genre, a row repeating it counting once |
| `Genres.GenreCountsExact` | src/day1_netflix_clean.py:62-63 | `genre_dummies.sum()` pairs each distinct genre with the number of rows listing it, which is at least 1 |
| `Genres.SumCountsConserved` | src/day1_netflix_clean.py:62-63 | over distinct genres covering every row's tokens, the counts add up to the number of (row, distinct genre) pairs |
| `Genres.GenreCountConservation` | src/day1_netflix_clean.py:62-63 | the genre counts add up to the number of (row, genre) pairs, so a row listing three genres contributes three |
| `Genres.RankedPrefix` | src/day1_netflix_clean.py:63-64 | `sort_values(...).head(10)` has min(10, n) entries taken from the counts, sorted by count, and no entry left out counts more than one kept |
| `Genres.TopGenresRanked` | src/day1_netflix_clean.py:62-64 | `top_genres` has min(10, number of genres) entries, is non-increasing, holds only genuine (genre, count) pairs with counts of at least 1, and leaves out nothing larger than what it keeps |
| `Kpis.NUniqueBound` | src/day1_netflix_clean.py:82 | `nunique()` never exceeds the number of rows |
| `Kpis.Least` | src/day1_netflix_clean.py:83 | `min()` is absent only for no values; otherwise it is one of the values and no value is smaller |
| `Kpis.Greatest` | src/day1_netflix_clean.py:84 | `max()` is absent only for no values; otherwise it is one of the values and no value is larger |
| `Kpis.ComputeKpis` | src/day1_netflix_clean.py:79-85 | the row counts are recorded as given. `unique_countries` is present exactly when `country` names one column, and is then the number of distinct present values. The year entries are present together, only when `release_year` exists; they are then the least and the greatest year the column holds, so `year_min <= year_max` |
| `Kpis.YearsOfFilteredRows` | src/day1_netflix_clean.py:52 | on rows that passed the year step every row yields one year, each at least 2015 |
| `Kpis.FilteredYearRange` | src/day1_netflix_clean.py:83-84 | on the filtered table, the year range is absent exactly when `release_year` is absent or no row is left; otherwise 2015 <= `year_min` <= `year_max` |
| `Kpis.NarrowedKpis` | src/day1_netflix_clean.py:79-85 | for the table lines 47-54 leave, `total_rows_filtered <= total_rows_original`, `unique_countries <= total_rows_filtered`, and the year range is as above |
| `Report.Clean` | src/day1_netflix_clean.py:27-44 | on the rectangular frame `read_csv` yields, returns the normalised labels and the de-duplicated rows, with one row per distinct input row and `date_added` converted when it exists; fails exactly when `date_added` is ambiguous |
| `Report.SelectMovies` | src/day1_netflix_clean.py:47-54 | the successive reassignments of `filtered` leave exactly `Narrow` of the table. The run fails exactly when `type` or `release_year` is ambiguous or `title` is absent |
| `Report.Analyse` | src/day1_netflix_clean.py:57-85 | `top_genres` exists exactly when `listed_in` does and is then the ranking of that column; the KPI record is that of the filtered table; fails exactly when `listed_in` or `country` is ambiguous |
| `Report.Summarize` | src/day1_netflix_clean.py:96-104 | `summary_lines` holds the heading, the two row counts, the year range and the country count, plus the genre section appended exactly when there is a ranking |
| `Report.RunReport` | src/day1_netflix_clean.py:27-104 | on the rectangular frame `read_csv` yields, the script crashes exactly when a label it reads as one column is ambiguous or `title` is absent. Otherwise `total_rows_original` counts the distinct input rows and `filtered` is `Narrow` of the cleaned table. The KPIs satisfy the bounds and year range above, and the summary lists them |
| `Scenario.KeepsOnlyRecentMovies` | src/day1_netflix_clean.py:47-54 | a 2016 movie passes every step, a TV show fails the `type` step, and a 2010 movie fails the `release_year` step |
| `Scenario.ThreeRows` | src/day1_netflix_clean.py:47-54 | of those three rows only the 2016 movie is left |
| `Scenario.SplitTwoGenres` | src/day1_netflix_clean.py:62 | "Comedies, Dramas" splits into "Comedies" and "Dramas" |
| `Scenario.GenresOfRowA` | src/day1_netflix_clean.py:62-64 | that row's ranking is Comedies 1, Dramas 1 |
| `Scenario.ExampleReport` | src/day1_netflix_clean.py:47-64 | the ranking of the filtered three-row table is Comedies 1, Dramas 1 |

## Left out

- Path setup, the existence check with `sys.exit`, and `pd.read_csv` (lines 9-20) are file-system I/O and a library parser. The model starts from the table they produce.
- Records with more fields than the header make `read_csv` raise or shift the index; the model starts from the rectangular frame it yields otherwise, with short records padded by missing cells.
- Type inference by `read_csv` is not modelled. Every present cell is text. A column that pandas would read as all-NaN floats is therefore not modelled, and on such a column the `.str` accessor at line 49 or 62 raises.
- The date and number parsers are library code and enter as parameters. Years are whole numbers, so a fractional `release_year` such as 2015.5 is not represented.
- Kpis.ComputeKpis: `year_min` and `year_max` are the least and greatest parsed numbers of the column. This matches the numeric column `read_csv` gives a year column. A text year column, where pandas would compare strings and `int()` could raise, is not modelled.
- Text.Lower: only ASCII letters are lowercased. Python's Unicode `lower()` also changes other characters, such as the Kelvin sign and the capital I with dot above.
- `get_dummies(sep=", ")` is modelled as membership of the token among the non-empty pieces of the split. pandas tests whether ", token, " occurs in ", value, ". The two agree because ", " cannot overlap itself; that equivalence is argued, not proved.
- Genres.SortByCount: pandas leaves the order of equal counts to its sort implementation. The model keeps equal counts in order of first appearance. Every property proved about the ranking holds for any order of ties.
- Console output is not modelled: the head and shape prints, the NA summary (computed only to be printed), and the KPI and genre prints (lines 22-24, 35-37, 55, 65-66, 86-88).
- The bar chart (lines 69-76) is rendering and file output.
- `to_csv` and `write_text` (lines 91-93, 106-110) are file output.
- Report.Summarize: the summary lines are kept as structured values. The f-string rendering is not modelled, nor is the empty-line filter at line 107, which removes nothing because no summary line is empty.

