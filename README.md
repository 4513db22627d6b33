# Blog log page: verified model of the string and list logic of `log.js`

The log page of the personal site lists blog posts from a hard-coded
catalog (`POSTS`), newest first. Selecting a post fetches its markdown,
rewrites the asset links and renders it. A search box filters the list, and
a URL fragment can deep-link to one post. This project models the
deterministic core of that script in Dafny and proves what it promises:

- `Catalog` (`catalog.dfy`): the post record, with tags that may be missing.
- `Text` (`text.dfy`): JavaScript's `includes`, `trim` and `toLowerCase` on strings.
- `Escape` (`escape.dfy`): `escapeHtml`, the five-character HTML escaping.
- `MarkdownPaths` (`markdown_paths.dfy`): `rewriteMarkdownPaths`, two global
  literal replacements that turn `](./assets/` and `](assets/` into
  `](log/assets/`.
- `Search` (`search.dfy`): the query normalisation and the filter predicate of
  `wireSearch`.
- `DateOrder` (`date_order.dfy`): the date comparator and the in-place sort of
  the post array, newest first, and the fact that on ISO dates string order is
  calendar order.
- `Session` (`session.dfy`): `setActive`, the `findIndex` lookup of
  `tryLoadFromHash`, start-up (`init`) and the search input handler, as methods
  over arrays.

The pure parts (`escapeHtml`, `rewriteMarkdownPaths`, the filter) are
functions with lemmas. The parts that update state in place are methods with
loop invariants: the sort works on an array, and `setActive` flips the flags
of the rows.

One might expect the date sort to be stable, keeping posts with the same
date in catalog order. The code does not promise that. Its comparator
answers -1 for two equal dates in both argument orders (see Findings), so the
model promises only "newest first and a permutation" and no order among ties.

## Model

| member | source | states |
|---|---|---|
| `Catalog.TagsOrEmpty` | log.js:163 | definition of `p.tags ?? []`; used by `Search.Matches` |
| `Text.Contains` | log.js:162-164 | definition of `includes`, scanning from the left; specified by `Text.ContainsIffOccurs` |
| `Text.Lower` | log.js:157 | definition of `toLowerCase` (ASCII letters); it keeps the length |
| `Escape.EscapeHtml` | log.js:20-32 | definition of `escapeHtml`; specified by the `Escape` lemmas below |
| `MarkdownPaths.ReplaceAll` | log.js:61-62 | definition of a global literal `replace`; specified by `ReplaceAllAbsent`, `ReplaceAllCopiesPrefix` and `ReplaceAllLeftmost` |
| `MarkdownPaths.RewriteMarkdownPaths` | log.js:57-63 | definition of `rewriteMarkdownPaths`; specified by the `Rewrite` lemmas below |
| `Search.NormalizeQuery` | log.js:157 | definition of the query `input.value.trim().toLowerCase()`; specified by `Search.SearchEmptyQuery` |
| `Search.Matches` | log.js:161-164 | definition of the filter predicate: title, some tag or the raw date contains the query |
| `Search.Filter` | log.js:160-165 | definition of `filter`; specified by `FilterCounts`, `FilterMembership` and `FilterIsSubsequence` |
| `Search.SearchPosts` | log.js:157-165 | definition of the list handed to the renderer; specified by `SearchEmptyQuery` and `SearchNonEmptyQuery` |
| `DateOrder.StrLess` | log.js:71 | definition of `<` on strings; specified by `StrLessIrreflexive`, `StrLessTransitive`, `StrLessTotal` and `IsoDateOrder` |
| `DateOrder.CompareDatesAsWritten` | log.js:71 | definition of the comparator as written; specified by `AsWrittenTieIsInconsistent` and `CompareDates` |
| `Session.StripFirstHash` | log.js:172 | definition of `hash.replace("#", "")`; specified by `StripFirstHashNone` and `StripFirstHashAt` |
| `Text.ContainsIffOccurs` | log.js:162-164 | `s.includes(p)` holds exactly when p occurs in s at some index |
| `Text.TrimStart` | log.js:157 | the result is the suffix of the input that starts at its first non-whitespace character; everything cut off is whitespace |
| `Text.TrimEnd` | log.js:157 | the result is the prefix of the input that ends at its last non-whitespace character; everything cut off is whitespace |
| `Text.Trim` | log.js:157 | the trimmed query is a slice of the input with only whitespace cut off before and after it; it is empty exactly when the input is all ECMAScript whitespace, and otherwise starts and ends with a non-whitespace character |
| `Escape.EscapeHtmlConcat` | log.js:20-32 | escaping works character by character: the escape of a concatenation is the concatenation of the escapes, so the input order is kept |
| `Escape.EscapeRoundTrip` | log.js:20-32 | escaping loses nothing: reading the five entities back recovers the original text |
| `Escape.EscapeHasNoMarkup` | log.js:21-30 | the output contains no `<`, `>`, `"` or `'` |
| `Escape.EscapeAmpersandsStartEntities` | log.js:21-30 | every `&` in the output starts one of `&amp;` `&lt;` `&gt;` `&quot;` `&#039;` |
| `Escape.EscapeHtmlLength` | log.js:20-32 | escaping never shortens the text, and keeps its length exactly when none of the five characters occurs |
| `Escape.EscapeHtmlIdentity` | log.js:20-32 | text is its own escape exactly when it holds none of `& < > " '` |
| `Escape.EscapeTag` | log.js:20-32 | a tag name free of the five characters, between angle brackets, is shown with the brackets as entities and the name as it is, so a title `<script>` shows as `&lt;script&gt;` |
| `MarkdownPaths.ReplaceAllAbsent` | log.js:61-62 | a global replacement leaves text without the pattern unchanged |
| `MarkdownPaths.ReplaceAllLeftmost` | log.js:61-62 | the leftmost match is replaced and the scan resumes after it; with ReplaceAllAbsent this fixes the result for every input |
| `MarkdownPaths.ReplaceAllCopiesPrefix` | log.js:61-62 | the text before the first match is copied unchanged |
| `MarkdownPaths.ReplaceAllGrows` | log.js:61-62 | with a longer replacement, the text grows whenever it held a match |
| `MarkdownPaths.ReplaceAllRemoves` | log.js:61-62 | no occurrence of the pattern survives a global replacement whose replacement cannot recreate it |
| `MarkdownPaths.ReplaceAllCreatesNone` | log.js:60-62 | the second replacement cannot create a `](./assets/` that the first one removed |
| `MarkdownPaths.RewriteLeavesNoRelativeLinks` | log.js:57-63 | after the rewrite neither `](./assets/` nor `](assets/` occurs |
| `MarkdownPaths.RewriteUnchangedIff` | log.js:57-63 | the rewrite leaves a text unchanged exactly when it holds neither relative spelling |
| `MarkdownPaths.RewriteIdempotent` | log.js:57-63 | rewriting twice gives the same text as rewriting once |
| `MarkdownPaths.RewriteDotLink` | log.js:57-63 | for any following text, `](./assets/<rest>` becomes `](log/assets/` followed by the rewrite of `<rest>` |
| `MarkdownPaths.RewriteBareLink` | log.js:57-63 | for any following text, `](assets/<rest>` becomes `](log/assets/` followed by the rewrite of `<rest>` |
| `MarkdownPaths.RewriteKeepsOtherLinks` | log.js:60-62 | for any following text, `](/assets/` and `](../assets/` are kept as they are and only `<rest>` is rewritten |
| `Search.SomeTagContains` | log.js:163 | true exactly when some tag, lower-cased, contains the query |
| `Search.FilterCounts` | log.js:160-165 | every matching post is kept as often as it occurs in the input, and no other post is kept |
| `Search.FilterMembership` | log.js:160-165 | a post is in the result exactly when it is in the input and matches on title, a tag or the raw date |
| `Search.FilterIsSubsequence` | log.js:160-165 | the result keeps the input's order |
| `Search.SearchEmptyQuery` | log.js:157-159 | the query is empty exactly when the input is all whitespace, and then the full list is returned unchanged |
| `Search.SearchNonEmptyQuery` | log.js:157-165 | for any other query the result is the order-preserving subsequence of exactly the matching posts |
| `DateOrder.StrLessIrreflexive` | log.js:71 | no string is `<` itself |
| `DateOrder.StrLessTransitive` | log.js:71 | string `<` is transitive |
| `DateOrder.StrLessTotal` | log.js:71 | any two different strings are ordered by `<` one way or the other |
| `DateOrder.AsWrittenTieIsInconsistent` | log.js:71 | for two posts with the same date the comparator as written answers -1 in both argument orders |
| `DateOrder.CompareDates` | log.js:71 | the consistent comparator answers positive exactly when the comparator as written does |
| `DateOrder.CompareDatesConsistent` | log.js:71 | the consistent comparator answers 0 exactly on equal dates and flips sign when its arguments are swapped |
| `DateOrder.IndexOfLatest` | log.js:70-71 | finds a post in the unsorted part that no later post there outranks |
| `DateOrder.SortByDateDesc` | log.js:70-71 | after the in-place sort the array is a permutation of its input, and no post is followed by a later-dated one |
| `DateOrder.DigitsOrder` | log.js:7 | equal-length digit strings compare as the numbers they denote |
| `DateOrder.IsoDateOrder` | log.js:71 | on `YYYY-MM-DD` dates, string `<` is calendar order (year, then month, then day) |
| `DateOrder.DescendingIsChronological` | log.js:70-71 | a list sorted by date string with ISO dates is in calendar order, newest first |
| `DateOrder.NewestDateAgrees` | log.js:185-190 | two newest-first orders of the same posts start with posts of the same date, which need not be the same post |
| `Session.SetActive` | log.js:38-42 | exactly row idx is active and every other row inactive; at most one row is active, and none when idx is out of range |
| `Session.StripFirstHashNone` | log.js:172 | a fragment without `#` is kept as it is |
| `Session.StripFirstHashAt` | log.js:172 | otherwise exactly the first `#` is removed |
| `Session.FindIndexByFile` | log.js:174 | returns the first index whose post has the file, or -1 exactly when there is none |
| `Session.TryLoadFromHash` | log.js:171-181 | loads a post exactly when the stripped fragment is non-empty and some post's file equals it, and then loads the first such post |
| `Session.Init` | log.js:183-192 | the rows are drawn in the order of the first in-place sort (`drawn`, newest first, a permutation of the catalog). A deep-linked post is opened at its first position in that order, with the list unchanged. Otherwise the list is sorted again and its first post is opened, if there is one; row 0 then holds a post with the opened post's date, not necessarily the same post. Only the row at the opened position is active |
| `Session.OnSearchInput` | log.js:154-167 | the shown list is the search result sorted newest first and redrawn with no active row; an empty query sorts the full list itself in place, any other query leaves it unchanged |

## Findings

| source | as written | input that shows it | evidently intended | confidence | as-written member | corrected member |
|---|---|---|---|---|---|---|
| log.js:71 | the comparator `(a, b) => (a.date < b.date ? 1 : -1)` answers -1 for equal dates in both argument orders, so it is not a consistent comparator; ECMAScript then leaves the resulting order to the engine | two posts both dated `2026-01-01` | answer 0 on equal dates, so the sort is well defined (and, by ECMAScript, stable on ties) | not executed; visible impact: start-up sorts the catalog twice (log.js:185 and log.js:190), so with tied dates the engine may order the ties differently each time, and the post opened by default can differ from the one drawn in the active row 0. `Session.Init` promises only that they share a date | `DateOrder.AsWrittenTieIsInconsistent` | `DateOrder.CompareDatesConsistent` |

## Left out

- `loadPost` (log.js:89-151) is left out apart from its first step, marking the row active (modelled by `Session.SetActive`). Its `fetch`, HTTP status check, `await`, error pane and the race between overlapping loads are network I/O and event-loop concurrency.
- The `marked` and `hljs` configuration and calls (log.js:116-138) are left out: they are foreign libraries whose behaviour is not visible here.
- `formatDate` and `setYear` (log.js:34-52) are left out: they depend on `Date`, the clock and locale-dependent formatting.
- The HTML templates of `renderPostList` and `loadPost` (log.js:73-80, 96-104) are left out, and so are all `innerHTML`, `createElement`, `addEventListener` and `location.hash` effects. Rows are modelled by their active flags, and at start-up by the order in which they are drawn. The escaping lemmas cover the text that the templates insert.
- `decodeURIComponent` and `encodeURIComponent` are left out. `Session.TryLoadFromHash` takes the fragment as already-decoded text. The model therefore does not capture that `decodeURIComponent` throws on a malformed escape.
- `Text.Lower`: lower-cases the ASCII letters only; full Unicode `toLowerCase` (special casings, non-Latin scripts) is not modelled.
- `DateOrder.StrLess`: compares Unicode code points, whereas JavaScript compares UTF-16 code units. The two agree on every character below U+D800, which includes all ISO dates.
- `DateOrder.SortByDateDesc`: the JavaScript engine's sorting algorithm is not visible. The model is a selection sort, and its contract promises only what any correct sort gives: newest first and a permutation. It says nothing about the order of posts with equal dates.
- The concrete catalog contents (`POSTS`, log.js:3-17) are not fixed. Every operation is modelled for an arbitrary list of posts.
- script.js is not part of this model. It only sets the footer year and toggles the avatar image on load and error events.
