# Content-based recommendations of an e-commerce demo, modelled in Dafny

The application (a Flask shop demo) recommends products "similar" to a named
product. The routine `content_based_recommendations` does the following:

1. It returns nothing when the name is not in the catalog's `Name` column.
2. It takes the first catalog row with that name as the query row.
3. It pairs every row index with that row's similarity to the query row.
4. It sorts the pairs by similarity, highest first, with Python's stable sort.
5. It drops the first sorted pair and keeps the next `top_n`.
6. It returns the columns `Name, ReviewCount, Brand, ImageURL, Rating` of those rows.

Page templates also use a small display helper, `truncate`.

The similarity matrix comes from TF-IDF vectors and cosine similarity. Both are
floating-point library calls, so the model takes the matrix as an input: an
N by N matrix of exact `real` scores for a catalog of N rows.

Modules:

- `PythonSlice` (python_slice.dfy): Python's `s[start:stop]`. Negative and
  out-of-range bounds follow Python's rules.
- `Display` (display.dfy): `truncate` and its properties.
- `Ranking` (ranking.dfy): `list(enumerate(row))`, and
  `sorted(..., key=lambda x: x[1], reverse=True)` as a stable insertion sort.
  Its lemmas show the result is a permutation of the row indices in
  `RankedOrder`: scores never increase, and equal scores are in ascending index
  order. This order fixes the ranking uniquely.
- `Recommender` (recommender.dfy): lookup, selection, projection, the whole
  routine `Recommend`, and the finding below.

Everything is a pure function. The catalog is a value, so the routine cannot
modify it.

Points where the code's behaviour is easy to misread:

- The code does not leave out the query row by identity. It drops the first
  ranked entry, whichever row that is. The query row is dropped only when it
  ranks first (`Recommender.QueryExcludedIff`). See "Findings".
- A negative `top_n` is not clamped to 0. The code slices `[1:top_n + 1]`, so
  `top_n = -1` gives nothing, and `top_n <= -2` gives all but the last
  `-top_n - 1` ranked entries after the first (`Recommender.Select`,
  `Recommender.Recommend`).
- The code excludes no row by name. Once the name is found, and for
  `top_n >= 0`, the result has `min(top_n, N - 1)` rows whatever the other
  rows are called (`Recommender.Recommend`).

## Model

| member | source | states |
|---|---|---|
| `PythonSlice.Bound` | app.py:38 | where a slice bound lands in a sequence of length `n`: a non-negative bound is clamped to `n`, and a negative one counts from the end, clamped to 0 |
| `PythonSlice.Slice` | app.py:60 | `s[start:stop]`: `max(stop' - start', 0)` elements, where `start'` and `stop'` are the normalised bounds; element `k` is `s[start' + k]` |
| `PythonSlice.Prefix` | app.py:38 | `text[:length]` is the first `length` characters for `length >= 0`; a negative `length` cuts that many characters off the end, and nothing is left once it exceeds the length |
| `Display.Truncate` | app.py:36-40 | text no longer than `length` comes back unchanged; for `0 <= length < len(text)` the result has `length + 3` characters: the text's first `length`, then `"..."`; a negative `length` keeps all but the last `-length` characters (none at all when `-length` exceeds the length), followed by `"..."` |
| `Display.TruncateIdempotent` | app.py:36-40 | for `length >= 0`, truncating an already truncated text changes nothing |
| `Ranking.Enumerate` | app.py:56 | `list(enumerate(row))`: entry `k` pairs index `k` with `row[k]`, so the indices ascend; `SortRanked` relies on this |
| `Ranking.Insert` | app.py:57 | one insertion step of the sort: the result holds exactly the inserted pair and the list's entries; `InsertRanked` states where the pair goes |
| `Ranking.SortByScoreDesc` | app.py:57 | `sorted(..., key=lambda x: x[1], reverse=True)`: the result is a rearrangement of its input (same multiset, same length); `SortRanked` states its order |
| `Ranking.ConsRanked` | app.py:57 | a pair that ranks ahead of every entry of a ranked list can head it |
| `Ranking.HeadBeforeRest` | app.py:57 | the head of a ranked list ranks ahead of every later entry |
| `Ranking.InsertRanked` | app.py:57 | inserting a pair whose index is below every index already in a ranked list keeps it in `RankedOrder` (ties go behind the lower index) |
| `Ranking.SortRanked` | app.py:57 | stability: sorting pairs whose indices ascend gives `RankedOrder`, i.e. non-increasing scores with equal scores in ascending index order, although the sort compares scores only |
| `Ranking.Rank` | app.py:56-57 | the ranked list has one entry per row; its indices are distinct, in range and cover every row, so it is a permutation of `0..N-1`; each index carries its own row's score; the list is in `RankedOrder` |
| `Ranking.RankMembers` | app.py:56-57 | any rearrangement of `enumerate(row)` pairs each row index with its own score and contains every row |
| `Ranking.HeadsAgree` | app.py:57 | two rankings of the same pairs, both in `RankedOrder`, begin with the same pair |
| `Ranking.RankedOrderUnique` | app.py:57 | two rearrangements of the same pairs that are both in `RankedOrder` are equal |
| `Ranking.RankIsDeterminedByOrder` | app.py:56-57 | any rearrangement of `enumerate(row)` in `RankedOrder` is exactly the stable sort's result, i.e. the sort is ordering by (score descending, index ascending) |
| `Ranking.FirstRankedIff` | app.py:56-57 | row `q` ranks first if and only if no row scores higher and no lower-indexed row ties with it |
| `Recommender.NameColumn` | app.py:46 | `train_data['Name'].values`: one name per catalog row, in row order |
| `Recommender.InCatalog` | app.py:46 | the membership test holds exactly when some row has the name |
| `Recommender.FindFirst` | app.py:46-47 | the search finds nothing exactly when no row has the name; otherwise it finds the lowest row with the name, and earlier rows have other names |
| `Recommender.QueryRow` | app.py:55 | the query row holds the name and no earlier row does, so later duplicates are ignored |
| `Recommender.Select` | app.py:60 | entry `k` of the selection is ranked entry `k + 1`; for `top_n >= 0` the length is `min(top_n, N - 1)` (0 for an empty list, and 0 for `top_n = 0`); `top_n = -1` selects nothing; `top_n <= -2` selects `max(N + top_n, 0)` entries |
| `Recommender.TopSimilar` | app.py:55-60 | the selection is ranked positions `1 .. min(top_n, N - 1)` of the query's similarity row: indices distinct and in range, each with its own score, and never the index of the dropped first entry |
| `Recommender.IndicesOf` | app.py:61 | `[x[0] for x in ...]`: the row index of each selected pair, in ranked order |
| `Recommender.DetailsOf` | app.py:62 | the five display columns `Name, ReviewCount, Brand, ImageURL, Rating` of one catalog row, copied unchanged |
| `Recommender.Rows` | app.py:62 | the `iloc` projection: one result row per index, in the order of the indices, holding that catalog row's five display columns |
| `Recommender.Recommend` | app.py:44-64 | `top_n` defaults to 10; an unknown name gives no rows, whatever `top_n`; `top_n = 0` and `top_n = -1` give no rows; a known name gives `min(top_n, N - 1)` rows for `top_n >= 0` and `max(N + top_n, 0)` rows for `top_n <= -2` |
| `Recommender.RecommendIsRankedTail` | app.py:55-62 | result row `k` holds the five display columns of the catalog row ranked at position `k + 1` by the first row with the name, so the results come in ranked order |
| `Recommender.SelectedOutscoreTheRest` | app.py:57-61 | every row is the dropped first entry, or selected, or ranks behind every selected row (a lower score, or the same score and a higher index) |
| `Recommender.DroppedIsTopScore` | app.py:57-60 | the dropped first entry has the highest score in the row |
| `Recommender.QueryExcludedIff` | app.py:55-60 | the query row is left out whenever it ranks first; when `top_n >= N - 1`, it is left out exactly then, and included otherwise |
| `Recommender.TieExampleRanking` | app.py:56-57 | in the tie example, the query's similarity row `[1.0, 1.0, 0.0]` ranks rows 0, 1, 2: row 0 wins the tie with row 1 by its lower index |
| `Recommender.QueryRecommendedToItself` | app.py:55-62 | a three-row catalog where row 0 ties with the query row 1: the result for `top_n = 2` is the query's own row, then row 2; the identical row 0 is the one dropped |
| `Recommender.RecommendExcludingQuery` | app.py:59-62 | corrected routine: no rows for an unknown name or for `top_n <= 0`, and `min(top_n, N - 1)` rows otherwise |
| `Recommender.RecommendExcludingQueryRows` | app.py:59-62 | corrected routine: result row `k` holds the display columns of entry `k` of the corrected selection, which is never the query row |
| `Recommender.TopOthers` | app.py:59-60 | corrected selection: never the query row, no row twice, each with its own score, in `RankedOrder`, `min(top_n, N - 1)` entries (none for a negative `top_n`) |
| `Recommender.OthersOutscoreTheRest` | app.py:59-60 | corrected selection: every row other than the query is selected or ranks behind every selected row (a lower score, or the same score and a higher index), so a tie at the cut keeps the lower-indexed row |
| `Recommender.TieExampleTopOthers` | app.py:59-60 | the corrected selection for the tie example is rows 0 and 2 |
| `Recommender.CorrectedOnTieExample` | app.py:59-62 | the corrected routine recommends `B`, then `C` for the tie example |
| `Recommender.Without` | app.py:59-60 | removing row `q` keeps exactly the entries with another index |
| `Recommender.WithoutRanked` | app.py:59-60 | removing row `q` from a list in `RankedOrder` leaves a list in `RankedOrder` |
| `Recommender.WithoutLength` | app.py:59-60 | on a list with distinct indices, removing row `q` shortens it by one when `q` is present, and not at all otherwise |
| `Recommender.CorrectedAgreesWhenQueryFirst` | app.py:59-60 | when the query row ranks first, the corrected and as-written selections are equal |
| `Recommender.WithoutHead` | app.py:59-60 | removing the index that stands first and nowhere else leaves the tail |
| `Recommender.WithoutKeepsAll` | app.py:59-60 | removing an index absent from the list returns the list unchanged |

## Left out

- TF-IDF vectorisation, stop-word removal and cosine similarity are not modelled (app.py:50-52). They are floating-point library computations. The model takes the resulting N by N matrix as an input (`Recommender.IsSquare`).
- Floating-point score values: scores are exact reals, so rounding that makes two mathematically equal similarities differ is not modelled.
- The difference between the two empty results is not modelled. An unknown name returns a frame without columns; a known name with nothing selected returns a frame with the five columns and no rows. Both are the empty sequence here.
- pandas indexing: the catalog is assumed to have the default positional index. The row label found at app.py:55 is then a position into the similarity matrix at app.py:56. The `iloc` at app.py:62 is given enumerate positions, which are positions under any index.
- The Flask routes and templates, including the "No recommendations available" message (app.py:80-163), are not modelled. They are web plumbing.
- The signup and signin models and their database commits (app.py:14-32, 114-137) are persistence I/O.
- Loading the CSV files into module-level frames (app.py:11-12) is file I/O. The catalog is a parameter instead.
- Random images and prices (app.py:67-77, 83-84, 103-104) are random display decoration.
- Parsing the `nbr` form field into `top_n` (app.py:146) is request plumbing. `top_n` is any integer here.
- The `Tags` column is carried in `Product` but only the similarity matrix depends on it.

## Findings

| source | as written | input that shows it | evidently intended | confidence | as-written member | corrected member |
|---|---|---|---|---|---|---|
| app.py:60 | `similar_items[1:top_n + 1]` drops the first ranked entry, assuming it is the query row. A lower-indexed row that ties the query's top score ranks first instead: that row is dropped and the query row is recommended to itself. With an all-zero similarity row (for example, tags made only of stop words), every row ties at 0 and the ranking is `0..N-1`, so a query row `q` with `1 <= q <= top_n` is recommended to itself. | catalog names `B, A, C`, where `B` and `A` have the same tags; the similarity row of `A` is `[1.0, 1.0, 0.0]`; query `"A"`, `top_n = 2`; the result is `[A, C]` | leave the query row out of its own recommendations. The comment at app.py:59 speaks of the top N similar products, and the `1` in `[1:` exists only to skip the query's own entry | medium, not executed | `Recommender.QueryRecommendedToItself` | `Recommender.RecommendExcludingQuery` |
