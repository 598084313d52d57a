# homeScroller catalog, search, paging and streaming — a Dafny model

homeScroller serves a directory tree of video files as a scrolling feed.
At start-up it walks the root and builds a catalog (`build_index`). The
catalog holds one record per video file, newest first, and the sorted list
of folders that hold videos. The HTTP handlers work over that catalog:

- `/api/feed` and `/api/suggest` filter the catalog by folder subtree and
  file-name prefix, rank it against a search query (`score_match`,
  `filter_items`), and hand out one window of the result (`make_page`).
- `/v/<id>` looks an item up by id (`get_item_by_id`) and streams it, with
  basic support for a `Range: bytes=first-[last]` header.
- `/file/<path>` serves a file below the root.

Both file routes refuse any path that does not resolve inside the root
(`is_within_root`).

The model is pure functions over immutable values. Each file is one module:

| file | module | what it holds |
|---|---|---|
| options.dfy | `Options` | `Option<T>` |
| text.dfy | `Text` | `str.isspace`, `strip`, `lower`, `startswith`, the `in` substring test, code-point order |
| decimal.dfy | `Decimal` | `str(n)` and `int()` on runs of ASCII digits |
| paths.dfy | `Paths` | `safe_norm`, the `pathlib` parent of a relative path, the item folder, the containment test |
| sorting.dfy | `Sorting` | comprehensions with a condition, and the stable `sort(key=…, reverse=True)` |
| catalog.dfy | `Catalog` | the video-extension test, item records, the folder list, `build_index`, `get_item_by_id` |
| ranking.dfy | `Ranking` | query tokens, `score_match`, `filter_items` |
| paging.dfy | `Paging` | Python slices, `make_page`, reading the feed page after page |
| ranges.dfy | `Ranges` | the `Range` header pattern, the range decision, `Content-Range` / `Content-Length` |
| routes.dfy | `Routes` | the argument clamps and the four handlers over a filesystem given as a parameter |

The docstring of `score_match` (app.py:131-136) ranks a substring of the
file name highest, a substring of the relative path next, and token matches
last. The model follows the code, which keeps that order only in part:

- **The token tier can outscore the other tiers.** An exact name scores
  1000, but the token tier adds 120 for each token found in the name, so a
  query of nine or more tokens can score more than an exact match
  (`Ranking.TokenTierCanExceedExact`).
- **"Exact" means the whole file name.** The exact tier compares the query
  with the whole file name, extension included. So `vacation` against
  `vacation.mp4` is a file-name substring match (796), not an exact one.
- **A file-name match can rank below a path match.** The file-name tier
  scores `800 - (len(name) - len(q))`, which falls below the path tier's
  score when the name is more than 300 characters longer than the other
  item's path (`Ranking.LongNameBelowPath`).

## Model

| member | source | states |
|---|---|---|
| Paths.SafeNorm | app.py:38-43 | The result has no backslash, no doubled slash and no leading slash, and keeps every non-separator character of the input, in order |
| Paths.SafeNormKeepsShape | app.py:38-43 | A separator stands between two name characters of the result exactly when one or more separators stood between them in the input, none stands before the first, and the result ends in a slash exactly when the input ends in a separator after some name character |
| Paths.SafeNormRebuilt | app.py:38-43 | The result is the input's name characters, one slash for each run of separators between two of them, and one trailing slash when the input ends in a separator, so `a\b` gives `a/b` and `//a//b/` gives `a/b/` |
| Paths.SafeNormFixedPoints | app.py:38-43 | `safe_norm` leaves a string unchanged exactly when the string already has the normalised shape |
| Paths.SafeNormIdempotent | app.py:38-43 | Normalising twice gives the same as normalising once |
| Paths.FolderOf | app.py:72-74 | An item's folder is normalised and is never the `.` marker |
| Paths.FolderOfTopLevel | app.py:72-74 | A file directly under the root (no slash in its relative path) is filed under the root folder `""` |
| Paths.FolderIsDirectoryPart | app.py:72-74 | For a normalised path of real names with a slash, the folder is non-empty, the path starts with `folder + "/"`, and what follows holds no slash: the folder is exactly the directory part |
| Paths.RootDirectoryRejectedAsWritten | app.py:49 | The containment test as written rejects `/movie.mp4` when the root is `/` (see Findings) |
| Paths.ChildWithinRoot | app.py:49 | The corrected containment test accepts every path that extends the root by a separator, the filesystem root included |
| Paths.WithinRootAgreesAsWritten | app.py:49 | For every root not ending in a separator, the corrected test accepts exactly what the written test accepts |
| Paths.SiblingOutsideRoot | app.py:49 | A sibling whose name merely starts with the root's text (`/videos2` for `/videos`) is rejected |
| Paths.WithinRootIsBelow | app.py:49 | Anything accepted is the root itself or strictly longer and prefixed by it |
| Catalog.VideoNameShape | app.py:67 | A name counts as a video exactly when, ignoring case, it is a non-empty stem followed by one of `.mp4`, `.mov`, `.m4v`, `.webm` |
| Catalog.DotFileNotVideo | app.py:67 | A hidden file named only by an extension (`.mp4`) has no suffix and is not indexed |
| Catalog.MakeItem | app.py:70-84 | The record keeps the name, time and size, has the normalised relative path and its folder, and its id is the id function of (path, time, size) |
| Catalog.VideoItemsMembers | app.py:64-85 | A record is in the walk's item list exactly when some walked file is a video and yields that record |
| Catalog.VideoItemsWellFormed | app.py:70-75 | Every record has a normalised path and the folder derived from it |
| Catalog.FolderList | app.py:94 | The folder list contains `""` and every item's folder, holds nothing else, has no duplicates, and is ordered by (slash count, lowered text) |
| Catalog.FoldersByDepth | app.py:94 | A shallower folder never follows a deeper one |
| Catalog.RootFolderFirst | app.py:94 | The folder list starts with the root folder `""` |
| Catalog.VideoItemsInWalkOrder | app.py:64-85 | The a-th record is made from the a-th video file of the walk, and the positions of the video files are exactly the walk positions whose names are videos, in increasing order |
| Catalog.BuildIndex | app.py:60-95 | The items are a permutation of the walked records, sorted newest first; for every modification time, the items with that time are exactly the walked records with that time, in the same order; every record is well formed; the folder facts of `FolderList` hold |
| Catalog.BuildIndexKeepsWalkOrder | app.py:64-88 | For every modification time, the index's items with that time are the walked video records with that time, in walk order, and form a subsequence of the walked records: the newest-first sort is stable |
| Catalog.FindById | app.py:206-210 | The lookup is absent exactly when no item has the id; otherwise it returns the first item with that id |
| Sorting.Where | app.py:168 | A conditional comprehension keeps every occurrence of what satisfies the condition and drops every other element |
| Sorting.WhereMembers | app.py:168 | An element is kept exactly when it is in the input and satisfies the condition |
| Sorting.CollectMembers | app.py:64-85 | A mapped comprehension produces an element exactly for each input element that passes |
| Sorting.PositionsEnumerate | app.py:168 | The positions of the elements that satisfy a condition are strictly increasing, each one satisfies it, and no other position does |
| Sorting.CollectInOrder | app.py:64-85 | The a-th result of a mapped comprehension is the image of the a-th element that passes |
| Sorting.WhereInOrder | app.py:168 | The a-th kept element of a conditional comprehension is the a-th element of the input that satisfies the condition |
| Sorting.WhereSubsequence | app.py:168 | A conditional comprehension's result is a subsequence of its input |
| Sorting.WhereWhere | app.py:167-173 | Filtering by one condition and then another is filtering once by both |
| Sorting.SortDesc | app.py:88 | The sort is a permutation in non-increasing key order, and for each key it keeps the elements of that key in their input order (stability) |
| Sorting.SortDescUnique | app.py:88 | Any key-descending arrangement with the same per-key subsequences is the sort's result, so the stable sort is fully determined |
| Sorting.RankByPositive | app.py:175-184 | Scoring then sorting keeps exactly the positive-key elements, in non-increasing key order, each key's elements in input order |
| Ranking.TokensSplit | app.py:151 | `re.split` on runs of `[\s_\-\.]` writes the query as its tokens joined by its separator runs: no token holds a separator, every run is a non-empty stretch of separators, and only the first and the last token may be empty |
| Ranking.SplitsIntoUnique | app.py:151 | Any way of writing the query as tokens joined by maximal separator runs is the split `re.split` gives |
| Ranking.TokensKeepText | app.py:151 | The tokens run together are the query with every separator removed |
| Ranking.TokenScore | app.py:151-160 | The token tier is a multiple of 60 between 0 and 120 per non-empty token |
| Ranking.TokenScoreCounts | app.py:151-160 | The token tier is 120 times the number of non-empty tokens the lowered name holds, plus 60 times the number of other non-empty tokens the lowered path holds, counting repeated tokens each time |
| Ranking.ScoreMatch | app.py:130-160 | An empty stripped query scores 0; an exact name scores 1000; a name-substring match scores `800 - (len(name) - len(q))`, at most 799; a path-only match scores `500 - (len(path) - len(q))`, at most 500; otherwise the token tier's count over the query's tokens and the lowered name and path |
| Ranking.TiersCover | app.py:139-160 | Every non-empty query falls in one of the four tiers |
| Ranking.ExactOutranksSubstrings | app.py:143-148 | An exact name match scores above every name- or path-substring match of the same query |
| Ranking.ShorterNameRanksHigher | app.py:145-146 | Within the name-substring tier, the shorter name ranks higher |
| Ranking.LongNameBelowPath | app.py:145-148 | A name-substring match ranks below a path-only match exactly when its name is more than 300 characters longer than the other's path |
| Ranking.TokenTierCanExceedExact | app.py:139-160 | Nine one-letter words score 1080 against a one-letter name, above the exact tier's 1000 |
| Ranking.ExactQueryScores1000 | app.py:143-144 | A file named exactly like a lower-case, stripped query scores 1000 |
| Ranking.SelectedCounts | app.py:164-173 | The folder and prefix filters keep every occurrence of each item in the subtree whose lowered name starts with the lowered, stripped prefix, and drop the rest |
| Ranking.Rank | app.py:175-184 | The ranked list holds exactly the positive scorers, each score positive, scores non-increasing, equal scores in catalog order |
| Ranking.FilterItems | app.py:162-184 | An empty stripped query returns the filtered list unchanged, in catalog order; otherwise the ranked list; in both cases it keeps exactly the occurrences that pass the filters and, for a query, score above 0 |
| Ranking.RankedCounts | app.py:175-184 | The ranking branch keeps every occurrence of what passes the filters and scores above 0, and drops the rest |
| Ranking.SelectedInOrder | app.py:164-173 | The folder filter followed by the prefix filter is one conditional comprehension over both conditions, so the passing items keep their catalog order |
| Ranking.FilterItemsInOrder | app.py:162-184 | With no query the result is the passing items in catalog order; with a query, for each positive score the items with that score are the passing items with that score, in catalog order, and no item with a score of 0 or less remains |
| Ranking.FilterItemsSubsequence | app.py:162-184 | With no query the result is a subsequence of the catalog; with a query, the items of each score form a subsequence of the catalog |
| Ranking.FilterItemsMembers | app.py:162-184 | An item is returned exactly when it is in the catalog, in the folder subtree, has the name prefix, and (for a non-empty query) scores above 0 |
| Ranking.OwnFolderFindsItem | app.py:164-176 | Filtering by an item's own folder with no query and no prefix returns that item |
| Paging.PySlice | app.py:187 | `s[start:stop]` clamps both bounds into the list; the slice is empty when the bounds cross |
| Paging.WindowSlice | app.py:187 | A non-negative window `s[o:o+l]` has `min(l, len(s) - o)` elements, none when `o >= len(s)`, and its k-th element is `s[o + k]` |
| Paging.SliceSplit | app.py:187 | Two adjacent windows concatenate to the window spanning both |
| Paging.MakePage | app.py:186-204 | The page reports the total count, the offset and limit it was given, and the entries of the window |
| Paging.PageContents | app.py:186-204 | A page holds `max(0, min(limit, total - offset))` entries, and its k-th entry is the projection of item `offset + k` |
| Paging.EntryKeepsItem | app.py:192-200 | An entry keeps the item's id, name, folder, path, time and size, and its url is `/v/` followed by the id |
| Paging.ScrollShowsRest | app.py:186-204 | Fetching pages at `o`, `o + L`, `o + 2L`, … until past the end yields the entries of every item from `o` on, once each, in order |
| Paging.ScrollShowsAll | app.py:186-204 | Scrolling from offset 0 reproduces the whole result list |
| Ranges.MatchRange | app.py:889 | A match requires the `bytes=` prefix followed by at least one digit |
| Ranges.MatchRangeExactly | app.py:889-894 | A header matches with groups F and L exactly when it is `bytes=`, a non-empty digit run worth F, a dash, a digit run worth L (no L when the run is empty), and text that does not start with a digit |
| Ranges.MatchRangeHeader | app.py:889-894 | Reading a written header `bytes=F-[L]`, followed by any text that does not start with a digit, gives back F and L: trailing text is ignored |
| Ranges.SuffixRangeNotMatched | app.py:889-891 | The suffix form `bytes=-N` does not match the route's pattern, so the request is handed to `send_file(conditional=True)` |
| Ranges.DecideRange | app.py:884-899 | An absent, empty or non-matching header, and only such a header, hands the request to `send_file(conditional=True)`; a partial reply stays inside the file and has `length == end - start + 1` |
| Ranges.DecideMatched | app.py:893-897 | A matched range is refused exactly when it starts at or past the end of the file or its last byte precedes its first; otherwise it starts at the first byte and ends at `min(last, size - 1)` |
| Ranges.EmptyFileNeverPartial | app.py:894-897 | No header yields a partial reply on an empty file |
| Ranges.DecideWrittenHeader | app.py:889-899 | For every written header and file size, the decision is 416 exactly in the refused cases and otherwise the clamped range |
| Ranges.ThousandByteExamples | app.py:893-899 | On a 1000-byte file, `200-299` gives 100 bytes, `900-` gives bytes 900..999, `950-1200` is cut to 950..999, and `500-100` is refused |
| Ranges.ContentRangeReadsBack | app.py:905 | The `Content-Range` value reads back as the start, end and size it was made from |
| Decimal.Show | app.py:905-907 | `str(n)` is a non-empty run of digits whose value is `n`, without leading zeros |
| Routes.ClampLimit | app.py:845 | `max(1, min(limit, most))` lies in `[1, most]`, leaves an allowed limit unchanged, raises a limit below 1 to 1 and cuts one above `most` to `most` |
| Routes.ClampLimitMonotone | app.py:845 | Clamping keeps the order of limits and is idempotent |
| Routes.FeedOffset | app.py:838-844 | The offset is 0 when absent and never negative; a given non-negative offset is kept and a negative one becomes 0 |
| Routes.FeedLimit | app.py:839-845 | The page size is 12 when absent and always in `[1, 50]`; a given allowed size is kept, one below 1 becomes 1 and one above 50 becomes 50 |
| Routes.FeedFor | app.py:837-848 | A malformed offset or limit, and only that, gives a 400; otherwise the page reports the result count and the clamped offset and limit, and holds the results from the offset on, at most `limit` of them, in order |
| Routes.ApiFeed | app.py:833-848 | The feed answers 400 exactly when an integer argument is malformed |
| Routes.FeedUrlsResolve | app.py:196-210 | Every url a feed page hands out leads, through the id lookup, to a catalog item with that id |
| Routes.UrlResolves | app.py:206-210 | The id lookup finds an item with the id of every catalog item |
| Routes.SuggestLimit | app.py:855-859 | The suggestion count is 8 when absent or malformed, and always in `[1, 20]`; an allowed count is kept, one below 1 becomes 1 and one above 20 becomes 20 |
| Routes.SuggestFor | app.py:863-869 | The suggestions are the first `min(limit, total)` results, in order, at most 20 of them |
| Routes.FilterItemsStripped | app.py:852 | Stripping the query before the filter changes nothing, because the filter strips it again |
| Routes.ApiSuggest | app.py:851-869 | At most 20 suggestions, and they are the first results of the search for the query as given |
| Routes.PageOneMatches | app.py:863-868 | The suggestions agree field by field with the first feed page of the same search asked for the same number of entries |
| Routes.Child | app.py:878 | `root / rel` as `pathlib` joins on POSIX: a relative name lands inside the root; a name starting with a slash keeps its `/` or `//` anchor (the exact pieces are stated by `Routes.ChildParts`) |
| Routes.ChildParts | app.py:878 | For every `rel`, the join is the root's directory prefix (for an absolute `rel`, its anchor) followed by text that splits into exactly the pieces of `rel` that are neither empty nor `.`, in order; with no such piece the join is the root (or the anchor) |
| Routes.ProperPartsIsWhere | app.py:878 | The pieces `pathlib` keeps are exactly the pieces that are neither empty nor `.`, in their order, as one conditional comprehension |
| Routes.ChildOfNormalName | app.py:878 | A normalised path of real names (no empty or `.` component) joins as the root's directory prefix followed by the path unchanged |
| Routes.ChildDropsDots | app.py:914 | A `.` component and a trailing slash, which `safe_norm` keeps, vanish in the join: `a/./b/` lands at `a/b` below the root |
| Routes.AbsoluteChildIgnoresRoot | app.py:914 | A path starting with a slash replaces the root in the join, whatever the root is, which is why the file route strips leading slashes first |
| Routes.WithinRootOfResolved | app.py:45-49 | When resolving is idempotent, resolving the already resolved root and target again inside the containment test changes nothing |
| Routes.VideoTarget | app.py:873-880 | A file it gives lies inside the root and exists; an unknown id gives none; otherwise the file is the resolved join of the root and the item's path, given exactly when the containment test accepts it and it exists |
| Routes.ServeRange | app.py:885-908 | The file is handed to `send_file` exactly for the hand-over decision and 416 exactly for the refused one; a range that needs the path opened gives a 500 exactly when the path is not a regular file, and otherwise a partial reply, which holds bytes `start..end` of the file, at least one, with `Content-Range` for the file size and `Content-Length` equal to the body length |
| Routes.StreamVideo | app.py:872-908 | 404 exactly when the id is unknown or its file is outside the root or missing; any file sent lies inside the root and exists; a partial reply carries the requested bytes of a regular file; a 500 comes exactly when a partial range is asked of a path that is not a regular file |
| Routes.CatalogItemStreams | app.py:872-880 | In a catalog whose relative paths are normalised, without symbolic links and with every file present, no catalog item's id gives a 404 |
| Routes.OpenFile | app.py:911-917 | A sent file lies inside the root and is an existing regular file; it is sent exactly when the normalised path resolves inside the root to an existing regular file; otherwise 404 |
| Routes.OpenFileStaysBelowRoot | app.py:913-915 | Leading slashes or backslashes cannot lift a request out of the root: the model's join of the root and the normalised path, before resolution, is the root itself or lies inside it with a name character, not a slash, right after the root's directory prefix (a `..` component is left to the containment test on the resolved path) |

## Left out

- The directory walk (`rglob`, `is_file`, `stat`) is I/O. `Catalog.BuildIndex` takes the walked files, with their relative paths and `stat` data, as a list in walk order.
- `compute_id` hashes with SHA-1. The model takes the id as an arbitrary function of (relative path, modification time, size).
- The build time `time.time()` is a parameter of `Catalog.BuildIndex`.
- The JSON cache (`save_index`, `load_index`, `ensure_index`, `refresh_index_if_requested`) and the global `INDEX` are file I/O and mutable state. The handlers take the catalog's item list as an argument.
- Flask routing, `jsonify`, the embedded HTML page, `home`, `api_folders`, `shutdown` and `main` are framework plumbing, UI, threading and process exit.
- Modification times are floats in the source. They are only compared by the newest-first sort, so the model uses integers.
- `Text.Lower`: lowers ASCII capitals only. Python's `str.lower` is full Unicode case mapping, which has no counterpart here.
- `Ranges.MatchRange`: `\d` is read as the ASCII digits `0`-`9`. Python's `\d` on text also matches other Unicode decimal digits.
- `int()` on query-string arguments is not modelled. `Routes.IntArg` says whether an argument was absent, read as an integer, or refused with `ValueError`. Which texts `int()` accepts (signs, spaces, underscores) is left to the caller.
- `unquote` in `open_file` is not modelled. `Routes.OpenFile` takes the path after it.
- `Path.resolve()`, `exists()` and `is_file()` depend on the filesystem and its symbolic links. They are fields of the `Routes.Fs` parameter, which also gives each file's bytes.
- `Catalog.FolderList`: Python collects folders in a `set` before sorting, so two distinct folders with the same key (for example `A` and `a`) come out in an unspecified order. The model fixes the order of first appearance before its stable sort.
- `Routes.StreamVideo`: `send_file` for a path that exists but is a directory is not modelled; the reply only names the path. The mime type and the `Accept-Ranges` header of the 206 reply are constants and not modelled.
- Routes.ServeRange: the file's bytes are a fixed, readable field of `Routes.Fs`. A regular file that `open()` refuses (no permission) gives a 500 in the program and a 206 here, and a file that shrinks between `stat()` and `read()` gives the program a body shorter than its `Content-Length`; neither is modelled.
- `Routes.ServeRange`: states the header values through `Ranges.ContentRange` and `Ranges.ContentLength`. That they read back as the numbers they carry is proved separately (`Ranges.ContentRangeReadsBack`, `Decimal.Show`).
- Routes.VideoTarget: uses the corrected containment test `Paths.IsWithinRoot`, so under a root of `/` it gives files that the program refuses with 404 (see Findings).
- Routes.StreamVideo: streams files under a root of `/` that the program refuses with 404, because it uses the corrected containment test.
- Routes.OpenFile: serves files under a root of `/` that the program refuses with 404, because it uses the corrected containment test.
- Routes.CatalogItemStreams: holds for a root of `/` only because of the corrected containment test; the program as written answers 404 for every item there.
- Routes.StreamVideo: Werkzeug's own `Range` and conditional handling inside `send_file(conditional=True)` is not modelled. A request handed over there may still be answered with a 206 (for example for `bytes=-N`), a 416 or a 304; the model only records that it is handed over.
- The model is POSIX-only. `os.sep` is `/` in `Paths.DirPrefix` and `Paths.IsWithinRoot`, and in the as-written test `Paths.IsWithinRootAsWritten`. `Paths.ParentText` and `Routes.Child` read and join paths as `PurePosixPath` does. On Windows the resolved paths use `\` and drive roots, the backslash replacement of `safe_norm` (app.py:40) and the re-normalised folder (app.py:72) act on native separators, and the app.py:49 flaw also refuses everything under a drive root such as `C:\`. None of that is modelled.
- Routes.Child: models `PurePosixPath`'s join on text. A `..` component is kept, as in `pathlib`, and only `resolve()` (a field of `Routes.Fs`) interprets it.
- `is_within_root` catches any exception from `resolve()` and answers `False`. In the model, `resolve` is a total function of the `Routes.Fs` parameter and never fails.
- Ranges.DecideRange: Python's `int()` refuses a digit run longer than 4300 characters with `ValueError`, which the handler does not catch, so such a header gives a 500. The model reads a digit run of any length.
- `Routes.ApiFeed`: its contract states only the 400 case. The page contents are stated by `Routes.FeedFor`, which it applies to the search results.

## Findings

| source | as written | input that shows it | evidently intended | confidence | as-written member | corrected member |
|---|---|---|---|---|---|---|
| app.py:49 | The containment test always appends a separator to the resolved root before the prefix test | Root `/` and target `/movie.mp4`: the test asks for the prefix `//`, so every file under a root at `/` is refused with 404 | Append the separator only when the root does not already end in one | not executed | Paths.RootDirectoryRejectedAsWritten | Paths.ChildWithinRoot |

The handlers use the corrected test `Paths.IsWithinRoot`. For every other
root it accepts exactly what the written test accepts
(`Paths.WithinRootAgreesAsWritten`).
