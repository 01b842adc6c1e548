# Content-based product recommendation, modelled in Dafny

This project models the recommendation core of a small product-recommendation
web app (`app.py`). Given a product name, the app looks the product up in the
product table and takes that product's row of the item-by-item similarity
matrix. It pairs every catalog position with its score and sorts the pairs
stably by descending score. It then drops the first pair, keeps the next
`top_n` positions, and returns the display columns (`Name`, `ReviewCount`,
`Brand`, `ImageURL`, `Rating`) of those rows in rank order. The app also
builds the list of names offered in its drop-down: the `Name` column with
missing cells dropped and repeated names removed, in first-seen order.

Modules:

- `Wrappers` (`wrappers.dfy`): `Option`, used for a name cell that may be missing, and `Min`.
- `Catalog` (`catalog.dfy`): table rows (`Item`), the display projection (`Details`,
  `Project`, `Rows`), lookup of the first row with a given name (`FirstIndex`), and
  the option list (`Options`).
- `Ranking` (`ranking.dfy`): the ranking of one score row. It covers `Enumerate`,
  the stable descending sort (`Insert`, `SortDesc`), `Ranked`, Python's slice
  (`Slice`), `TopSimilar` and `RecommendedPositions`.
- `Recommender` (`recommender.dfy`): the request as a whole (`Recommend`). Its
  result is `Outcome.NotFound` or `Outcome.Recommended(rows)`, and `Frame()` gives
  the data frame the caller sees. The file also holds the corrected selection
  described under Findings.

Modelling choices:

- Similarity scores are opaque, totally ordered `real` values. The similarity
  matrix is an input: an n-by-n `seq<seq<real>>` with one row per catalog row.
  Everything the model proves holds for any such matrix.
- Row labels and row positions are the same thing. The table is read with a
  default range index, so the label taken from `.index[0]` (app.py:28) equals the
  position that `iloc` uses (app.py:37).
- An unknown name returns `NotFound` before any ranking happens. In the code this
  path shows an error message with `st.error` and returns an empty data frame
  (app.py:18-19). The caller at app.py:88 tests only `recommendations.empty`, so it
  cannot tell this case from "no recommendations". `Outcome.Frame()` gives that
  empty frame, and the message is UI.
- Python's `sorted(..., reverse=True)` is modelled as a stable insertion sort on
  score. `Ranking.RankedUnique` shows that the result is the only ordering of the
  enumerated row by descending score with ties in ascending position. So it
  matches any stable descending sort.
- The comment at app.py:30 says the row is scored "with all other items", so the
  query item should be left out. The slice at app.py:33 starts at 1, which shows
  the code expects place 0 of the sorted list to hold the query. In fact it drops
  whatever ranks first. The model follows the code, and the gap is recorded under
  Findings.

## Model

| member | source | states |
|---|---|---|
| `Catalog.Names` | app.py:28 | the `Name` column: one entry per row, entry i being row i's name (missing or present) |
| `Catalog.Options` | app.py:81 | the option list is no longer than the column and holds only names present in it |
| `Catalog.Project` | app.py:38 | the display record carries the row's name, review count, brand, image URL and rating unchanged |
| `Ranking.TopSimilar` | app.py:33 | the slice `[1:top_n+1]` of the ranked list: min(top_n, n-1) candidates (none for an empty row), the k-th being the candidate ranked at place k+1, still in ranked order with their own scores |
| `Ranking.Positions` | app.py:34 | the positions of the candidates, one per candidate, in the same order |
| `Recommender.RecommendedPositionsExcludingSelf` | app.py:33-34 | the corrected selection is the prefix, of length min(top_n, remaining), of the ranked list with the query position removed |
| `Catalog.FirstIndex` | app.py:28 | the position returned carries the query name, and no earlier position does: it is the first match |
| `Catalog.OptionsSpec` | app.py:81 | the options have no duplicates, hold exactly the names present (none missing), and are ordered by each name's first occurrence |
| `Catalog.OptionsUnique` | app.py:81 | any list holding exactly the present names in first-seen order is the option list, so the three properties determine it |
| `Catalog.Rows` | app.py:37-39 | one display record per requested position, the k-th being the projection of the row at the k-th position: `iloc` keeps list order |
| `Ranking.Enumerate` | app.py:31 | every position 0..n-1 appears once, paired with its own score, in position order |
| `Ranking.Insert` | app.py:32 | inserting into the sorted list adds exactly the one candidate (multiset) |
| `Ranking.SortDesc` | app.py:32 | the sorted list is a permutation of its input |
| `Ranking.SortDescRanked` | app.py:32 | on input with ascending positions the sort gives descending scores with equal scores in ascending position order (stability under `reverse=True`) |
| `Ranking.Ranked` | app.py:31-32 | the sorted candidate list has n entries, is a permutation of the enumerated row, holds every position with its own score, and is in ranked order |
| `Ranking.RankedUnique` | app.py:32 | every permutation of the enumerated row in ranked order equals `Ranked`, so the order is fully determined |
| `Ranking.FirstRankedIsFirstMaximum` | app.py:32-33 | the entry that is dropped is the row's maximum, and no earlier position reaches that maximum |
| `Ranking.Slice` | app.py:33 | Python slice semantics for non-negative bounds: the length is clamped to the list, and element k is element lo + k |
| `Ranking.RecommendedPositions` | app.py:33-34 | the result is the ranked positions after the first, truncated to top_n. It has min(top_n, n-1) entries, none exactly when top_n = 0 or n = 1. They are distinct and in range, never the first-ranked position, with non-increasing scores and ties in ascending position |
| `Recommender.Recommend` | app.py:16-40 | NotFound exactly when the name is absent. Otherwise min(top_n, n-1) records, the k-th being the projection of the row ranked at place k+1 in the score row of the name's first row. The frame the caller sees is empty exactly when the name is absent, top_n = 0, or n = 1 |
| `Recommender.QueryExcludedOnlyWithoutEarlierTie` | app.py:32-33 | when the query's own score is the row maximum, the query position is returned only if an earlier position ties it. With top_n >= n-1 it then is returned |
| `Recommender.QueryRecommendedToItself` | app.py:28-34 | a two-row catalog whose queried second row has an all-zero score row gets only itself recommended |
| `Recommender.ExcludingSelfSpec` | app.py:33 | the corrected selection never returns the query position. It returns min(top_n, n-1) positions, in range and in ranked order, and every other position it leaves out ranks after every position it returns |
| `Recommender.ExcludingSelfAgrees` | app.py:32-34 | when the query's score is a maximum not tied by any earlier position, the corrected selection equals the code's |
| `Recommender.RecommendExcludingSelf` | app.py:16-40 | NotFound exactly when the name is absent. Otherwise min(top_n, n-1) records projected from the corrected positions, which exclude the query row |

## Findings

| source | as written | input that shows it | evidently intended | confidence | as-written member | corrected member |
|---|---|---|---|---|---|---|
| app.py:33 | `similar_items[1:top_n+1]` drops whatever ranks first, expecting it to be the query item | catalog rows "A" (tags "red shoe") and "B" (tags empty); querying "B" gives an all-zero score row. The stable sort puts position 0 first, so "A" is dropped and "B" is recommended to itself. Two rows with identical tags, querying the later one, do the same | exclude the query row by identity, then take top_n | not executed; high for the empty-tags case, medium for identical tags (relies on equal floating-point self-scores) | `Recommender.QueryRecommendedToItself` | `Recommender.ExcludingSelfSpec` |

`Recommender.Recommend` models the code as written. `Recommender.RecommendExcludingSelf`
uses the corrected selection (`RecommendedPositionsExcludingSelf`).
`Recommender.ExcludingSelfAgrees` shows that the two agree whenever the query's
self-score is a maximum that no earlier row ties.

## Left out

- TF-IDF fitting with English stop words (app.py:21-22): it is library code whose internals are not shown, and it uses floating point. Scores are an input instead.
- Catalogs on which fitting TF-IDF fails (app.py:22) are not modelled. These are catalogs whose `Tags` cells are all empty or all stop words (an empty vocabulary), and catalogs with a missing `Tags` cell. In the code the call raises there and no frame is returned, while the model, given any matrix, returns `Recommended` when the name is present. When the name is absent the code returns at app.py:17-19, before fitting, and the model's `NotFound` agrees. For the same reason, the all-zero score row in `Recommender.QueryRecommendedToItself` needs at least one other row with real tags. `EmptyTagsCatalog` has one: row "A", tagged "red shoe".
- Cosine similarity (app.py:25): floating-point numerics inside a library call. The score matrix is an abstract n-by-n input, so score bounds such as [0, 1] are not modelled.
- Loading the CSV file and caching it (app.py:8-13): file I/O and framework caching.
- The error message shown for an unknown name (app.py:18), and all other UI (app.py:57-107): page styling, the drop-down, the button, the `if item_name_input` check, the column layout and card rendering.
- Random images and prices (app.py:43-54, 96-97): random decoration that plays no part in the ranking.
- Negative `top_n`: `top_n` is a natural number here. The app always passes 10, and Python's slicing with negative bounds is not modelled.
- NaN scores: scores are totally ordered reals. Python's sort with a NaN key is not modelled.
- Display attributes (`ReviewCount`, `Brand`, `ImageURL`, `Rating`) have fixed types here. In the table they are whatever the file holds, and they are carried through unchanged.
