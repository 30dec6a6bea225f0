# Movie recommendation pipeline — a Dafny model

This project models the self-contained logic of a one-script movie
recommender (`movie.py`). The script loads a table of movies. It fills the
missing values of five text columns and joins them into one feature string
per movie. It then ranks every movie by its similarity to a movie the user
names and shows the 30 best as a table of (movie name, genre, overview).

The model has six modules:

- `Wrappers` (`wrappers.dfy`): `Option`. A missing (NaN) table cell is `None`.
- `Table` (`table.dfy`): cells, columns, the five feature column names,
  `fillna('')`, and pandas string `+` on cells of object (string) columns.
  There, a missing operand gives a missing result.
- `Features` (`features.dfy`): the composite feature string of one movie,
  the `combined_features` column, and a reference `Join` (Python's
  `str.join`) to state the composite against.
- `Ranking` (`ranking.dfy`): `enumerate` of a similarity row, and the
  stable descending sort by score as a pure specification. It also holds the
  in-place insertion sort over an array that is proved equal to that
  specification, and the `[:30]` cut.
- `Query` (`query.dfy`): input validation (`str.strip()` with Python's
  whitespace set), `dropna` of the titles, the first-row title lookup, the
  result entries, and `Resolve`, the whole query path as one function.
  `Resolve` returns an `Outcome`: nothing, one of the two messages, or the
  rows of the table.
- `App` (`app.dfy`): class `MovieFrame`, the table as a mutable object. It
  has the in-place fill loop, the loop that appends the result rows, and
  `Recommend`, the query path run step by step and proved equal to
  `Resolve`.

Inputs that come from libraries are parameters:

- The similarity matrix is a square `seq<seq<real>>` with one row per movie.
- The fuzzy matcher is a function `(name, titles) -> candidates`. The only
  thing assumed of it is that each candidate is one of the titles it was
  given (`MatcherSound`).

Behaviour worth knowing, as the code runs:

- The queried movie is listed first only if its score is a maximum of its
  similarity row and every earlier row scores strictly less
  (`Ranking.FirstIsQueried`). Two movies with identical feature text both
  score 1.0. In that case the one in the earlier row is listed first, even
  when the user matched the later one. A movie whose five feature fields are
  all missing has an all-zero row, so row 0 comes first.
- The genre shown is taken from the `genres` column after the fill, so a
  missing genre is shown as `""` (`Query.ResolveOnFilledTable`,
  `App.MovieFrame.Recommend`). The `overview` column is never filled, so
  a missing overview stays missing. `"Not available"` appears only when the
  table has no `overview` column at all.
- The title lookup uses `.index[0]`, which is a row label. The table loaded
  from CSV has the default labels 0, 1, 2, …, so a label equals a row
  position. The model uses positions.

## Model

| member | source | states |
|---|---|---|
| `Table.FillCell` | movie.py:26 | `fillna('')` on one cell: a present value is kept, a missing one becomes `""` |
| `Table.FillFeatureColumns` | movie.py:25-26 | the table after the fill loop: the same column names, each of the five feature columns replaced by its `fillna('')` with no missing cell left, every other column unchanged |
| `Table.FillNa` | movie.py:26 | `fillna('')` keeps the column length; a present cell is unchanged and a missing one becomes `""` |
| `Table.Plus` | movie.py:29 | pandas string `+` on two cells of object (string) columns is present exactly when both operands are present, and is then their concatenation |
| `Features.Composite` | movie.py:25-29 | the composite string is 4 characters longer than the five filled fields together; a movie missing all five fields gets exactly four spaces |
| `Features.CompositeIsJoin` | movie.py:22-29 | the composite string equals the space-join of genres, keywords, tagline, cast and director, in that order, each missing one taken as `""` |
| `Features.JoinLength` | movie.py:29 | a join of k parts with a separator is the parts' total length plus k - 1 separators |
| `Features.CombinedColumn` | movie.py:29 | `combined_features` has one cell per movie |
| `Features.CombinedAfterFill` | movie.py:25-29 | once the five feature columns are filled, every movie's combined cell is present and equals its composite string |
| `Features.CombinedWithoutFill` | movie.py:29 | had the fill not run, a movie's combined cell (over object columns) would be missing exactly when one of its five feature cells is missing; the script always fills first, so this only shows what the fill prevents |
| `Ranking.Enumerate` | movie.py:58 | `enumerate` pairs each position j with the row's score at j, positions ascending |
| `Ranking.Ranked` | movie.py:58-61 | the ranked list is ordered (scores non-increasing, ties in ascending position) and holds exactly the enumerated pairs |
| `Ranking.InsertByScore` | movie.py:61 | one insertion step of the stable sort adds exactly the inserted element |
| `Ranking.SortByScoreDescending` | movie.py:61 | the sort returns a permutation of its input |
| `Ranking.InsertKeepsOrder` | movie.py:61 | inserting an element whose position is above all others keeps scores non-increasing, with ties in ascending position |
| `Ranking.SortIsOrdered` | movie.py:58-61 | sorting a list in ascending position order gives non-increasing scores, with equal scores in ascending position (stability) |
| `Ranking.HeadPrecedes` | movie.py:61 | the head of an ordered list precedes every other element |
| `Ranking.OrderedTail` | movie.py:61 | the tail of an ordered list is ordered and holds the remaining elements |
| `Ranking.OrderedPermutationUnique` | movie.py:61 | two ordered lists with the same elements are equal, so the ranking is fully determined by the row |
| `Ranking.RankedEntries` | movie.py:58-61 | the ranked list has one entry per movie, each position appears once with its own score, and the list is ordered |
| `Ranking.Top` | movie.py:65 | the selection is a prefix of the ranked list of length min(30, N) |
| `Ranking.TopIndicesInRange` | movie.py:58-65 | the selection has min(30, N) entries, each naming a row of the table |
| `Ranking.TopRanked` | movie.py:58-65 | the selection is ordered, names distinct rows each with its own score, and starts with a maximal score |
| `Ranking.TopFirstIsMaximal` | movie.py:61-65 | the first selected entry carries a maximal score of the row |
| `Ranking.FirstIsQueried` | movie.py:58-65 | position q is ranked first exactly when its score is a maximum and every earlier position scores strictly less |
| `Ranking.InsertionPointOrdered` | movie.py:61 | placing an element after the entries scoring at least its own and before the smaller ones keeps the list ordered |
| `Ranking.MovedElementPermutes` | movie.py:61 | moving one element within the list keeps the same elements |
| `Ranking.InsertionStep` | movie.py:61 | one pass of the in-place insertion sort keeps the elements, orders the prefix one longer, and leaves the rest untouched |
| `Ranking.InsertAt` | movie.py:61 | the array pass swaps the new element leftwards past smaller scores; the array keeps its elements and its prefix gets one longer and stays ordered |
| `Ranking.RankBySimilarity` | movie.py:58-61 | the in-place ranking of an enumerated row equals the stable descending sort, and is ordered and a permutation of the enumeration |
| `Query.IsSpace` | movie.py:47 | the characters Python's `str.isspace()` accepts, which `strip()` removes |
| `Query.StripLeft` | movie.py:47 | `lstrip` removes only whitespace, and what remains is a suffix starting with a non-space |
| `Query.StripRight` | movie.py:47 | `rstrip` removes only whitespace, and what remains is a prefix ending with a non-space |
| `Query.Strip` | movie.py:47 | `strip()` is empty exactly when the name is whitespace only |
| `Query.NonMissingTitles` | movie.py:44 | the title list holds exactly the titles that are present in the table |
| `Query.Candidates` | movie.py:44-49 | the matcher's candidates for the name against the present titles; under a sound matcher each candidate is the title of some row |
| `Query.MatcherSound` | movie.py:49 | the only assumption about the fuzzy matcher: every candidate it returns is one of the titles it was given |
| `Query.FirstIndexOf` | movie.py:55 | the lookup returns the smallest row whose title equals the candidate |
| `Query.MatchedRow` | movie.py:49-55 | a candidate proposed from the present titles always has a row, and that row's title is the candidate |
| `Query.EntryFor` | movie.py:66-69 | a result entry copies the row's title and genre, and its overview when the column exists, otherwise `"Not available"` |
| `Query.Entries` | movie.py:64-75 | one entry per selected pair, in ranked order, with the title and genre of that pair's row |
| `Query.RankedRows` | movie.py:58-75 | the table has min(30, N) rows, every overview is `"Not available"` when the overview column is absent, and no genre is missing when the genre column has no missing cell |
| `Query.Resolve` | movie.py:42-87 | the four outcomes: an empty name shows nothing; a whitespace-only name gives the invalid-name message; no candidate gives the no-match message; otherwise a table of min(30, N) rows |
| `Query.ResolvedRowsRanked` | movie.py:58-75 | each row shown is the entry of a distinct movie, in non-increasing similarity to the matched movie with ties in table order, the first of maximal similarity |
| `Query.ResolveOnFilledTable` | movie.py:25-87 | on the table after the fill (which keeps the title column), every shown genre is present: a missing genre is shown as `""` |
| `Query.ResolvedFirstIsMatch` | movie.py:52-67 | when the matched movie is strictly most similar to itself, the first row shows the matched title |
| `App.MovieFrame.constructor` | movie.py:17 | the frame holds the loaded table, which has a title column and the five feature columns |
| `App.MovieFrame.FillFeatures` | movie.py:25-29 | the loop fills exactly the five feature columns in place and leaves the others; afterwards no feature cell is missing and every combined cell is the movie's composite string |
| `App.MovieFrame.CollectRows` | movie.py:64-75 | the loop appends, per selected pair, the movie's title and genre, and its overview or `"Not available"` |
| `App.MovieFrame.Recommend` | movie.py:42-87 | on the filled table, running the query path step by step, with the in-place ranking and the row loop, gives exactly `Resolve`'s outcome, and no shown genre is missing |

## Left out

- Loading the CSV (`pd.read_csv` with latin-1 encoding) and its `st.cache_data` memoisation: file I/O and a foreign parser. The table is given to the `MovieFrame` constructor.
- The TF-IDF vectoriser and `cosine_similarity`: library numerics in floating point. The similarity matrix is an input, and scores are `real`, so NaN and rounding are not modelled.
- `difflib.get_close_matches` (sequence ratio, cutoff 0.6, at most 3 results): a library heuristic. It is a function parameter, assumed only to return titles from its list.
- The Streamlit calls (`st.title`, `st.text_input`, `st.subheader`, `st.table`, `st.write`). The messages and the table are returned as an `Outcome`, and the text input is a `string` parameter, so `isinstance(movie_name, str)` always holds.
- `.astype(str)` on the titles. Titles are strings or missing, so the coercion is the identity. A non-string title that pandas would coerce is not modelled.
- Building the display `DataFrame` from the result rows, and the unused row counter `i` of `enumerate(..., start=1)`.
- Missing columns: the script raises `KeyError` at the fill loop when one of the five feature columns is absent, and when `title` is absent and the name is non-empty. The model requires all six columns (`WellFormed`) instead of modelling the crash, so it does not cover an empty name on a table without a `title` column, where the script shows nothing.
- Feature columns that pandas reads with a non-string dtype, such as a column that is entirely missing and so read as float64. `Plus` models `+` on object (string) columns only.
