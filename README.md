# Synopsis-based movie recommender, modelled in Dafny

The system recommends movies from the plot synopsis a user likes, without
showing any titles. It runs as three offline stages and one app:

- **Enrichment** (`enrich_data.py`) sends every synopsis of the movie table
  to a chat model. The reply, stripped of surrounding whitespace, becomes the
  row's enriched synopsis. A failed call keeps the original synopsis.
- **Training** (`train_model.py`) removes the ranking prefix ("12. ") from
  the English titles and embeds the enriched synopses. It then clusters them
  into five groups with K-Means and labels each row with its cluster.
- **The app** (`streamlit_app.py`) offers five random enriched synopses and
  maps the picked one back to its row. It then recommends the best-rated,
  most recent other movies of that row's cluster.
- **Metadata** (`tmdb_fetcher.py`) fills a movie card from the movie
  database: poster, director, three leading cast names, budget, revenue and
  a YouTube trailer. Each of its three requests sits in its own `try`
  block, so a failure affects only that block's fields.

The Dafny modules follow those files:

- `recommender.dfy` models the app's logic.
- `tmdb.dfy` models the metadata client.
- `enrichment.dfy` models the enrichment script.
- `training.dfy` models the training script.
- `dataset.dfy` holds the row type of each stage.
- `text.dfy` holds the Python string operations the code relies on:
  `str.isspace`, `str.strip`, `in` on strings, and `str.join`.
- `wrappers.dfy` holds `Option`.

External services are parameters of the model:

- The chat model is a sequence of replies, one per row, in call order.
  `EnrichData` requires exactly one reply per row.
- The sentence encoder together with K-Means is a function `fit` from the
  synopsis column to the labels. K-Means is seeded with a fixed value, so the
  labels are a function of that column.
- Each HTTP request to the movie database is its parsed JSON answer, or a
  failure. A missing JSON key is an `Option` field.
- The random sample of offered synopses is an arbitrary choice (`:|`) among
  the allowed ones.

Two consequences of the code are worth stating:

- An enriched synopsis can be empty. Stripping a reply that is only
  whitespace gives the empty string (`BlankReplyGivesEmptySynopsis`), and
  the fallback copies an empty original unchanged.
- The details, credits and videos requests run one after another, each in
  its own `try` block, so a failure affects only that block's fields
  (`CreditsFailureIsolated`). A failed details request leaves poster,
  budget and revenue out of the record (`AlwaysPresentKeys`). A failed
  credits request, or a missing key in the crew scan or among the first
  three cast entries, sets both director and cast to "N/A"
  (`NamelessLeadBlanksCredits`), so a nameless leading actor also blanks a
  director that was found.

## Model

| member | source | states |
|---|---|---|
| Recommender.SortedPairwise | streamlit_app.py:57 | rank order of neighbours extends to any two positions of a sorted list |
| Recommender.InsertPermutes | streamlit_app.py:57 | inserting a row index adds exactly that index: the result is a permutation of the list plus the index |
| Recommender.InsertSorted | streamlit_app.py:57 | inserting a row into a list in (rating desc, year desc) order keeps it in that order |
| Recommender.InsertKeepsDistinct | streamlit_app.py:57 | inserting a new row index keeps the list free of repeats |
| Recommender.SortByRank | streamlit_app.py:57 | `sort_values(by=['rating', 'year'], ascending=[False, False])` on row indices: the result holds valid row indices (its order, permutation and tie order are the lemmas below) |
| Recommender.SortSorted | streamlit_app.py:57 | `sort_values(['rating','year'], ascending=[False, False])` yields rank order: better rating first, the more recent year first on equal ratings |
| Recommender.SortPermutes | streamlit_app.py:57 | sorting is a permutation of its input (same indices, same multiplicities) |
| Recommender.SortKeepsMembers | streamlit_app.py:57 | every sorted index is one of the input indices |
| Recommender.SortKeepsDistinct | streamlit_app.py:57 | sorting repeat-free row indices keeps them repeat-free |
| Recommender.InsertKeepsTieOrder | streamlit_app.py:57 | inserting an index smaller than all others keeps rows that tie on rating and year in index order |
| Recommender.SortKeepsTieOrder | streamlit_app.py:57 | the sort is stable: from indices in increasing order, rows tying on rating and year stay in index order |
| Recommender.EligibleFrom | streamlit_app.py:51-54 | the cluster filter then the exclusion of the chosen row, scanned from a given row on in index order |
| Recommender.EligibleFromSound | streamlit_app.py:50-54 | every row the filters keep is in the cluster and is not the chosen row |
| Recommender.EligibleFromComplete | streamlit_app.py:50-54 | every row of the cluster other than the chosen row is kept |
| Recommender.EligibleFromIncreasing | streamlit_app.py:50-54 | the kept rows stay in increasing index order |
| Recommender.EligibleFromExact | streamlit_app.py:50-54 | the two filters keep exactly the rows of the cluster other than the chosen one, in index order |
| Recommender.Eligible | streamlit_app.py:50-54 | a row index is kept iff its row is in the cluster and is not the chosen row; no repeats |
| Recommender.Head | streamlit_app.py:60 | `head(n)` is a prefix of length min(n, size), or for negative n all but the last -n rows |
| Recommender.RecommendIds | streamlit_app.py:50-60 | the recommended indices are valid row indices of the table |
| Recommender.RecommendIdsRanked | streamlit_app.py:50-60 | the recommended indices are repeat-free, in rank order, and all name rows of the cluster other than the chosen row |
| Recommender.RecommendedTiesInIndexOrder | streamlit_app.py:50-60 | recommended rows that tie on rating and year come out in index order, as pandas' stable two-key sort leaves them |
| Recommender.RecommendMoviesFromCluster | streamlit_app.py:43-62 | the records returned are the rows of those indices: all of cluster `cluster_id`, none the chosen row, best rating then most recent first |
| Recommender.RecommendationCountIsMin | streamlit_app.py:59-60 | for n >= 0 exactly min(n, number of other rows in the cluster) are returned; an empty cluster gives an empty list |
| Recommender.RecommendationsAreTopN | streamlit_app.py:56-60 | an eligible row that was left out ranks no higher than any recommended row |
| Recommender.SixRowEligible | streamlit_app.py:50-54 | on a six-row, two-cluster table the filter keeps rows 1, 2, 3, 5 for chosen row 0 |
| Recommender.SixRowSorted | streamlit_app.py:57 | on that table the sort puts rows 1, 2, 3, 5 in the order 1, 3, 2, 5 |
| Recommender.SixRowExample | streamlit_app.py:43-62 | on that table the recommendation order is rows 1, 3, 2, 5: rating first, year breaking the 8.1 tie |
| Recommender.GetRandomSynopsisOptions | streamlit_app.py:36-41 | `n` distinct valid rows with their enriched synopses; a negative `n` or one above the table size is an error |
| Recommender.FindSynopsisFrom | streamlit_app.py:171 | the first row from `from` on with the given enriched synopsis, or none iff no such row |
| Recommender.ChosenId | streamlit_app.py:171 | the smallest row index whose enriched synopsis equals the picked text; none (the `IndexError`) iff no row matches |
| Recommender.SelectSynopsis | streamlit_app.py:164-180 | the error notice iff no row has the text; otherwise the first matching row, its cluster, and that cluster's top recommendations without the chosen row: exactly min(5, other rows in the cluster) of them |
| Recommender.OfferedSynopsisIsFound | streamlit_app.py:146-176 | picking an offered synopsis always finds a row at or before the offered one, and its recommendations share that row's cluster |
| Recommender.DuplicateSynopsisSelectsFirstRow | streamlit_app.py:171 | when two rows share an enriched synopsis, picking the second selects the first |
| Text.IsSpace | enrich_data.py:44 | Python's `str.isspace` for one code point, the set `strip()` and `\s` use |
| Text.LeadingSpaces | enrich_data.py:44 | the count of leading characters `lstrip` removes: all whitespace, and the next character is not |
| Text.TrailingSpaces | enrich_data.py:44 | the count of trailing characters `rstrip` removes: all whitespace, and the character before them is not |
| Text.Strip | enrich_data.py:44 | `strip`: a whitespace-bounded piece of the input with only whitespace cut off; empty iff the input is all whitespace |
| Text.StripsAgree | enrich_data.py:44 | two whitespace-bounded pieces of a string with only whitespace around them are equal |
| Text.StripIsUnique | enrich_data.py:44 | any whitespace-bounded piece with only whitespace around it is the strip |
| Text.Contains | tmdb_fetcher.py:25 | `sub in s` holds iff `sub` occurs at some index of `s` |
| Text.Join | tmdb_fetcher.py:88 | `', '.join([])` is empty; a non-empty join starts with its first piece |
| Text.JoinContainsEach | tmdb_fetcher.py:88 | every piece occurs in the joined string |
| Tmdb.Next | tmdb_fetcher.py:22-26 | `next(gen, default)`: the default iff every element tests false; otherwise the projection of the first hit, or the `KeyError` |
| Tmdb.IsYouTubeTrailer | tmdb_fetcher.py:25 | the filter `video['site'] == 'YouTube' and 'Trailer' in video['type']`, short-circuiting, with the `KeyError` of a missing key |
| Tmdb.TrailerUrl | tmdb_fetcher.py:13-32 | a trailer URL exists only for a successful answer and is the watch prefix followed by a non-empty key |
| Tmdb.TrailerIsFirstYouTubeTrailer | tmdb_fetcher.py:22-29 | the URL carries the key of the first YouTube video whose type contains "Trailer" |
| Tmdb.NoTrailerNoUrl | tmdb_fetcher.py:22-30 | without a YouTube trailer there is no URL |
| Tmdb.EmptyFirstKeyHidesLaterTrailer | tmdb_fetcher.py:22-30 | an empty key on the first trailer gives no URL even when a later trailer has a key |
| Tmdb.SearchMovie | tmdb_fetcher.py:34-58 | an id only with a non-empty API key, a successful answer and at least one result; then it is the first result's `id` |
| Tmdb.PosterUrl | tmdb_fetcher.py:76 | a URL iff `poster_path` is present and non-empty; the path is recovered after the image base |
| Tmdb.IsDirector | tmdb_fetcher.py:85 | the filter `crew['job'] == 'Director'`, with the `KeyError` of a missing job |
| Tmdb.CastNames | tmdb_fetcher.py:87 | the list of names, element by element, or the `KeyError` iff some entry has no name |
| Tmdb.LeadingCast | tmdb_fetcher.py:87 | `cast[:3]`: a prefix of length min(3, size) |
| Tmdb.Credits | tmdb_fetcher.py:83-91 | a failed credits request gives "N/A" for both fields; an empty cast list gives an empty cast line (the full cast line is `CastLineJoinsLeadingNames`) |
| Tmdb.DirectorIsFirstDirector | tmdb_fetcher.py:85 | the director is the first crew member whose job is "Director" |
| Tmdb.NoDirectorGivesNotAvailable | tmdb_fetcher.py:85 | without any director in the crew (and with named leading cast) the director is "N/A" |
| Tmdb.CastLineListsLeadingNames | tmdb_fetcher.py:87-88 | each of the first three cast names occurs in the cast line |
| Tmdb.CastLineJoinsLeadingNames | tmdb_fetcher.py:87-88 | the cast line is exactly the leading three names, in order, joined by ", " |
| Tmdb.FourthCastMemberLeftOut | tmdb_fetcher.py:87-88 | four named cast members A, B, C, D give the cast line "A, B, C" |
| Tmdb.NamelessLeadBlanksCredits | tmdb_fetcher.py:83-91 | a nameless entry among the first three cast members sets both director and cast to "N/A" |
| Tmdb.FetchMovieDetails | tmdb_fetcher.py:60-96 | `{}` for a falsy id; otherwise poster, budget and revenue (defaulting to 0) exactly when the details request succeeded, plus director, cast and trailer |
| Tmdb.AlwaysPresentKeys | tmdb_fetcher.py:71-96 | director, cast and trailer are always present; a failed details request leaves out poster, budget and revenue |
| Tmdb.CreditsFailureIsolated | tmdb_fetcher.py:74-94 | a failed credits request changes only director and cast, to "N/A" |
| Tmdb.GetFullMovieData | tmdb_fetcher.py:98-110 | the all-default record when the search gives no truthy id; otherwise the details record of that id |
| Enrichment.RequestFor | enrich_data.py:35-42 | the request: model gpt-4o-mini, the screenwriter system prompt, "Sinopse original: " plus the synopsis, temperature 0.7 |
| Enrichment.RequestCarriesSynopsis | enrich_data.py:35-42 | the user message is the fixed label followed by the original synopsis, which can be read back |
| Enrichment.EnrichedSynopsis | enrich_data.py:23-48 | a failed call or missing content keeps the original; otherwise the result is the strip of the reply |
| Enrichment.EnrichedSynopsisIgnoresOriginal | enrich_data.py:44 | a completed reply alone decides the result, which is empty iff the reply is all whitespace |
| Enrichment.BlankReplyGivesEmptySynopsis | enrich_data.py:44 | an all-whitespace reply gives an empty enriched synopsis |
| Enrichment.EnrichData | enrich_data.py:50-75 | a missing input file gives nothing; otherwise one request per row in order, and each row keeps its columns and gets the enriched synopsis of its reply |
| Enrichment.AllFailuresKeepSynopses | enrich_data.py:46-48 | when every call fails the enriched column equals the original synopses |
| Training.DigitRun | train_model.py:58 | the greedy `\d+` at the start: never longer than the title |
| Training.DigitRunIsMaximal | train_model.py:58 | that run is all digits and is not followed by a digit |
| Training.RankPrefixLength | train_model.py:58 | the length of the `^\d+\.\s*` match: 0 exactly when the title has no digits-and-full-stop prefix |
| Training.StripRankPrefix | train_model.py:58 | titles without `\d+\.` at the start are unchanged; titles with it get shorter |
| Training.RankPrefixRemoved | train_model.py:58 | with the prefix, what is removed is digits, a full stop and whitespace, the rest follows it, and the rest does not start with whitespace |
| Training.LeadingSpacesOf | train_model.py:58 | `\s*` consumes exactly the whitespace in front of a piece that does not start with whitespace |
| Training.StripRankPrefixUndoesRanking | train_model.py:57-58 | removing the prefix gives back any title that does not start with whitespace from "rank. title" |
| Training.UnrankedTitleKept | train_model.py:58 | a title whose leading digits are not followed by a full stop is kept as it is |
| Training.DigitsOnlyTitleKept | train_model.py:58 | "300" is kept |
| Training.YearColonTitleKept | train_model.py:58 | "2001: Up" is kept |
| Training.OnlyFirstPrefixRemoved | train_model.py:58 | "r1.r2.title" becomes "r2.title", which a second pass turns into "title": the fix is not idempotent |
| Training.FixTitle | train_model.py:58 | one row with the fix applied to its `title_en` and every other column kept |
| Training.NormaliseTitles | train_model.py:58 | in place, every row becomes `FixTitle` of its old value: its `title_en` gets the fix and no other column changes |
| Training.SynopsisColumn | train_model.py:27 | the list of enriched synopses, row by row |
| Training.TrainAndSaveModel | train_model.py:15-37 | fewer rows than the 5 clusters is K-Means' error; otherwise every row keeps its columns and gets its label from the fit, in 0..4 |
| Training.ClustersDependOnSynopsesOnly | train_model.py:27-37 | tables with the same enriched synopses get the same clusters, whatever their titles |
| Training.TrainingScript | train_model.py:52-68 | a missing file is reported; otherwise the result rows have fixed titles, the same synopses, and clusters fitted on the synopses |

## Left out

- The Streamlit interface, its session state, the radio labels (first 80
  characters), the reset button and the rendering of movie cards are not
  modelled.
- The one-day cache around the metadata lookup and its guard against
  missing titles or years (`streamlit_app.py:67-71`) are not modelled.
- The formatting of budget and revenue on the card is not modelled.
- HTTP, the chat API, `.env` loading and the exit when the API key is
  missing (`enrich_data.py:11-13`) are not modelled. Each call is its
  answer, given as a parameter.
- Reading and writing the CSV files, pickling the model, the one-second
  pause between calls and all console output are not modelled.
- The embedding and K-Means numerics are not modelled. They appear only
  through the `fit` parameter and its contract: one label in 0..4 per row.
  Only the K-Means error for fewer rows than clusters is modelled.
- The random seed of `df.sample` is not modelled. Which rows are offered
  is an arbitrary valid choice.
- The app's check that the data and model files exist
  (`streamlit_app.py:17-19`) and the loading of the pickled model are not
  modelled.
- RecommendIds: the ordering of missing ratings or years (NaN, placed
  last by pandas) is not modelled. Ratings are exact `real` numbers.
- EnrichData: a missing `sinopse` cell (NaN) is not modelled. The source
  sends the request with "nan" in it and then raises a `TypeError` when it
  slices the synopsis for its progress line (`enrich_data.py:72`, or
  `enrich_data.py:47` when the call failed), so the stage ends without an
  output file, whereas the model's synopses are always strings and every
  row gets an enriched synopsis.
- StripRankPrefix: a missing `title_en` cell (NaN), which the regex
  replacement passes through as NaN, is not modelled. Titles are strings.
- ChosenId: a missing synopsis (NaN, never equal to anything) is not
  modelled. Synopses are strings.
- StripRankPrefix: `\d` covers every Unicode decimal digit in Python, but
  the model treats only the ASCII digits 0-9 as digits.
- Tmdb.FetchMovieDetails: JSON values are modelled as present or absent.
  Explicit `null` values and values of unexpected types are not modelled.
- Tmdb.SearchMovie: the title and year only shape the request, so they are
  not parameters of the model.
- The `__main__` examples of the metadata client and the training script's
  final read-back and count of clusters are not modelled.
