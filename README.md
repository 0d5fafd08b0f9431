# Hindi song recommender — catalog normalisation and recommendation, in Dafny

`project1_final.py` is a Streamlit app that recommends Hindi songs. It does
two things, and both are modelled here.

1. Once, at start-up, it normalises the song catalog:
   - drops rows whose (track, artist, album) repeats, keeping the first;
   - renumbers the rows;
   - fills missing text with `""`;
   - turns every track URI into an `open.spotify.com` link;
   - adds an `m:ss` rendering of every duration.
2. On each search, `get_recommendations` runs:
   - it fuzzy-matches the typed text against every track, artist and album name;
   - it hints at the top match ("Did you mean …?");
   - it joins the matches into one query;
   - it scores every row against that query;
   - it returns the ten best rows, best first.

The model has five modules, one file each:

| file | module | what it holds |
|---|---|---|
| `wrappers.dfy` | `Wrappers` | `Option`, standing for a cell that may be missing (NaN) |
| `strings.dfy` | `Strings` | The Python string operations the script relies on: `split`/`join`, `split(':')[-1]`, ASCII `lower()` and `strip()`, decimal rendering and `:02d` padding, each with its round trip or characterisation |
| `catalog.dfy` | `Catalog` | The rows and the normalisation. The DataFrame that the script changes in place is the class `Frame`, one method per step. Each step is specified by functions, and lemmas prove what the steps promise. `FirstOccurrenceScan` is the pass with a seen-set that `drop_duplicates(keep='first')` performs |
| `ranking.dfy` | `Ranking` | `argsort()[0][-k:][::-1]`, proved to select the k best positions for every ascending argsort, whatever its tie order |
| `recommend.dfy` | `Recommender` | The candidate pool, query resolution (the no-match path, the hint, the joined query), `get_recommendations` and the blank-input guard |

Three pieces of library code are parameters of `GetRecommendations`:
- `extract` is rapidfuzz `process.extract`.
- `similarity` is the TF-IDF transform followed by `cosine_similarity`, with integer scores (only their order matters).
- `argsort` is numpy `argsort`. It is required to be some ascending argsort. `Ranking.StableArgsort` shows that one exists.

## Model

| member | source | states |
|---|---|---|
| Catalog.FirstOccurrenceScan | project1_final.py:23 | The single pass with a set of seen keys keeps exactly the positions `KeptPositions` names: a row is kept iff its (track, artist, album) was not seen before |
| Catalog.KeptPositions | project1_final.py:23 | The kept positions are in range and strictly increasing, i.e. the original row order is kept |
| Catalog.KeptPositionsAreFirstOccurrences | project1_final.py:23 | A row is kept if and only if no earlier row has the same (track, artist, album) — `keep='first'` |
| Catalog.FirstOccurrenceOf | project1_final.py:23 | Every row has a first occurrence of its key at or before it |
| Catalog.DeduplicateSpec | project1_final.py:23 | After `drop_duplicates` no two rows share a key and every key of the loaded table is still present |
| Catalog.Frame.DropDuplicates | project1_final.py:23 | In place: the rows become the de-duplicated rows, and index labels travel with their rows |
| Catalog.Frame.ResetIndex | project1_final.py:24 | In place: rows unchanged, index becomes 0..n-1 |
| Catalog.Frame.FillMissingText | project1_final.py:27-29 | In place: every track, artist and album cell is filled with `""` where missing and kept otherwise; afterwards no text cell is missing |
| Catalog.Frame.ConvertLinks | project1_final.py:32 | In place: only the link column changes, each URI replaced by its link |
| Catalog.Frame.Table | project1_final.py:40 | The table with the `formatted_duration` column: one item per row, the row's filled cells plus its formatted duration |
| Catalog.Normalize | project1_final.py:20-40 | Running the in-place steps in the script's order yields exactly `Normalized(raw)` |
| Catalog.NormalizedRows | project1_final.py:20-40 | Row j of the normalised table comes from the j-th first occurrence: text filled with `""`, duration kept, link and `m:ss` derived from that row |
| Catalog.NormalizedTriplesDistinct | project1_final.py:23-29 | When no loaded text cell is `""`, the filled (track, artist, album) triples of the result are pairwise distinct |
| Catalog.FillAfterDeduplicateKeepsBoth | project1_final.py:23-29 | A missing track name and an empty one are different keys to `drop_duplicates`, so both rows survive and the fill makes their triples equal |
| Catalog.SpotifyLinkSpec | project1_final.py:32 | The link is `https://open.spotify.com/track/` followed by a `:`-free suffix of the URI that is the whole URI or follows its last `:` |
| Catalog.SpotifyLinkAfterColon | project1_final.py:32 | A URI ending in `:` + id (id without `:`) links to the base URL + id |
| Catalog.SpotifyLinkExample | project1_final.py:32 | `spotify:track:abc123` becomes `https://open.spotify.com/track/abc123` |
| Catalog.FormatDurationSpec | project1_final.py:40 | `m:ss` round trip: the text is minutes, `:`, two digits; seconds < 60; the duration lies within the second named; non-negative durations give non-negative minutes |
| Catalog.FormatDurationExamples | project1_final.py:40 | 225000 ms renders as `3:45`, 59000 ms as `0:59` |
| Catalog.CombinedTextWords | project1_final.py:36 | The space-separated pieces of a row's indexed document are those of its track, then artist, then album; no piece spans two fields |
| Strings.JoinSplit | project1_final.py:53 | Joining the pieces of a split gives the text back |
| Strings.SplitJoin | project1_final.py:53 | Splitting a joined list at the separator gives the pieces of each text, in order |
| Strings.SplitJoinWithoutSep | project1_final.py:53 | Texts without the separator come back unchanged from join then split |
| Strings.LastSegmentSpec | project1_final.py:32 | `split(sep)[-1]` is the longest separator-free suffix |
| Strings.LowerSpec | project1_final.py:51 | `lower()` keeps the length, leaves no capital, changes only capitals, and is idempotent |
| Strings.StripSpec | project1_final.py:129 | `strip()` returns the part of the text between its leading and its trailing whitespace, with only whitespace cut away, no whitespace left at either end, and an empty result iff the text is blank |
| Strings.ParseNatToString | project1_final.py:40 | Decimal rendering of a natural number reads back to the number |
| Strings.IntToStringRoundTrip | project1_final.py:40 | Rendering of the minutes (possibly negative) reads back to the number |
| Strings.TwoDigitsSpec | project1_final.py:40 | `:02d` of 0..99 is two digits that read back to the number, with a leading `0` below 10 |
| Ranking.TopIndicesSelectsTopK | project1_final.py:63 | For k > 0 and any ascending argsort, `[-k:][::-1]` gives min(k, n) distinct positions, best first, and no position left out scores above one chosen |
| Ranking.TopIndicesWithZero | project1_final.py:63 | With k = 0, `[-0:]` is the whole argsort: all n positions, scores never rising |
| Ranking.StableArgsortIsArgsort | project1_final.py:63 | A stable argsort exists for every score list, so the argsort requirement can be met |
| Ranking.StableTopIndicesTies | project1_final.py:63 | With a stable argsort, tied rows come out later-row-first after the reversal |
| Recommender.CandidatePool | project1_final.py:45 | The choices are 3n texts: all track names, then all artist names, then all albums, each from its row |
| Recommender.CandidatePoolRows | project1_final.py:45 | Row i supplies choices i, n+i and 2n+i, so every name of the table is a choice |
| Recommender.ResolveSpec | project1_final.py:49-56 | No match iff the matcher returns nothing; the hint is the first match and appears iff the lower-cased texts differ (never for the exact text); the query's words are the matches' words in order |
| Recommender.ResolvedQueryWords | project1_final.py:53 | When no match text holds a space, splitting the query gives back the match texts |
| Recommender.HintIsCatalogName | project1_final.py:45-52 | When the matcher returns choices from the pool, the hint is a track, artist or album name of some row |
| Recommender.GetRecommendations | project1_final.py:43-67 | Empty iff nothing matches; otherwise hint and query are the resolution's, and for k > 0 the positions are a top-k selection by similarity to the query, and the rows are the table's rows at those positions (`iloc`), in that order, restricted to the track, artist, album, formatted duration and link columns |
| Recommender.NoMatchSkipsRanking | project1_final.py:49-56 | With no match the result is empty whatever the scoring and the argsort are |
| Recommender.SearchSpec | project1_final.py:129-134 | A search runs iff the typed text is not blank; it gets stripped text and returns min(10, n) rows, the ten best |

## Left out

- CSV loading and the column rename and selection (lines 8-20): the model starts from the selected columns as `Catalog.Row` values. A missing duration or URI cell is not modelled, because the script would fail on it (`x.split` of NaN, `int` of NaN) if that row survives de-duplication; in a dropped duplicate it is harmless, which the model does not capture. Durations are integers, not floats.
- TF-IDF fitting and transform, and cosine similarity (lines 35-37, 59-60): floating-point library code. They are the `similarity` parameter, with one integer score per row. Only the document text they are fitted on (`Catalog.CombinedText`) is modelled.
- rapidfuzz scoring (line 46): library code. It is the `extract` parameter. What the call promises (at most 5 matches, each scoring at least 70, each a choice) is the predicate `Recommender.WellFormedMatches`, assumed only where a lemma needs it.
- numpy `argsort` (line 63): the `argsort` parameter, constrained to be an ascending argsort. Its tie order is implementation-defined and left open.
- Lower and Strip: `Strings.Lower` and `Strings.Strip` follow Python only on ASCII text. Unicode case mapping and Unicode whitespace are not modelled.
- The Streamlit UI (lines 52, 55 and 70-165): layout, messages, animation and the button. The hint message is the `hint` field and the no-match message is `NoCloseMatches`. The button press is the call to `Recommender.Search`.
- Catalog.FormatDurationSpec: the code has no check for negative durations, so the model renders them as Python's floor division does, with a negative minute count.
- Ranking.TopIndicesSelectsTopK: ties are not broken by lower row first; the code leaves tie order to numpy's argsort, so the lemma holds for every tie order. `Ranking.StableTopIndicesTies` shows that even a stable argsort puts the later row first.
- Catalog.NormalizedTriplesDistinct: holds only when no loaded text cell is `""`. `drop_duplicates` runs before `fillna`, so a missing cell and an empty one survive as two rows with equal text (`Catalog.FillAfterDeduplicateKeepsBoth`). `read_csv` reads empty fields as missing, so this does not arise from a CSV file.
