# Book classifier: a Dafny model of its decision logic

The system classifies a book into a reading level (jenjang) of the
Indonesian ministry's levelling scheme. A web page sends a title to a
FastAPI route. The route looks the title up in the Google Books API,
captures preview screenshots, asks a Gemini vision model for a verdict
and returns the result, which the page renders with a coloured badge.

This project models the deterministic logic that sits between those calls:

- `google_books.dfy` (module `GoogleBooks`): picking and rewriting the cover
  link, the id-based fallback thumbnail, and reading the first volume of a
  search response with its defaults.
- `ai_engine.dfy` (module `AiEngine`): the API-key guard, the metadata text,
  the three-part message sent to the model, the clean-up of the model's
  reply, and the fallback record returned on any failure.
- `page.dfy` (module `Page`): the search form as a class whose methods change
  its state as `handleSearch` does, the panels shown for a state, and the
  badge class for a colour name.
- `route.dfy` (module `Route`): the one-line decisions of the route (404 on
  missing metadata, the screenshot used as evidence, the dictionary the
  analysis receives), and what they imply across the modules.
- `strings.dfy` (module `Strings`): Python's `str.replace` (one
  left-to-right pass over non-overlapping matches), Python's `strip` and
  JavaScript's `trim` with their two different whitespace sets, and the
  facts about occurrences that the services need.
- `models.dfy` and `wrappers.dfy`: the records exchanged, and Option/Result.

The HTTP calls, the environment variables, the model call and the JSON
parse are inputs to the model. A failing call is a `Failure` value, which
stands for the exception the source catches.

Some behaviours of the code, as the proofs show them:

- The fallback thumbnail is exactly the documented URL only when the volume
  id contains no "&zoom=1". The final zoom rewrite runs over the whole URL,
  so it also rewrites such an id (`GoogleBooks.FallbackZoomOut`).
- Deleting "&edge=curl" in a single pass can splice a new "&edge=curl"
  together (`GoogleBooks.StripEdgeCanLeaveOne`). The cover rewrite therefore
  promises no "&zoom=1", but not the absence of "&edge=curl".
- The metadata dictionary always holds a `page_count` key, possibly None.
  Through the route, the analysis therefore never prints "Tidak diketahui";
  a book without a page count is described as having "None" pages
  (`Route.RouteNeverReportsUnknownPages`).
- The badge lookup upper-cases the colour name, so "bıru" (dotless i)
  selects the blue badge (`Page.BadgeColorIgnoresCase`).

## Model

| member | source | states |
|---|---|---|
| Strings.ReplaceAll | backend/app/services/google_books.py:19 | definition of Python's `str.replace` for a non-empty pattern: one left-to-right pass over non-overlapping matches; its properties are the lemmas below |
| Strings.DeleteShortensIff | backend/app/services/google_books.py:19 | deleting a pattern never lengthens a string, and shortens it exactly when the pattern occurs |
| Strings.Strip | backend/app/services/ai_engine.py:128 | the result is the slice of the input between a leading and a trailing run of whitespace, and has no whitespace at either end (so those runs are maximal); empty exactly when the input is all whitespace |
| Strings.StripKeepsTrimmed | backend/app/services/ai_engine.py:128 | a string without whitespace at either end is its own strip |
| GoogleBooks.StripEdge | backend/app/services/google_books.py:19 | definition: `url.replace('&edge=curl', '')`; see `DeleteShortensIff` and `StripEdgeCanLeaveOne` |
| GoogleBooks.ZoomOut | backend/app/services/google_books.py:19 | definition: `url.replace('&zoom=1', '&zoom=0')`; its properties are the next four lemmas |
| GoogleBooks.ZoomOutPointwise | backend/app/services/google_books.py:19 | the zoom rewrite keeps the length, and each character it changes becomes '0' |
| GoogleBooks.ZoomOutChangesOnlyMatchEnds | backend/app/services/google_books.py:19 | nothing else changes: a character differs after the rewrite only where it ends an "&zoom=1" of the input |
| GoogleBooks.ZoomOutClears | backend/app/services/google_books.py:19 | no "&zoom=1" is left after the zoom rewrite |
| GoogleBooks.ZoomOutRewritesEvery | backend/app/services/google_books.py:19 | every "&zoom=1" of the input is "&zoom=0" at the same position afterwards |
| GoogleBooks.StripEdgeCanLeaveOne | backend/app/services/google_books.py:19 | one pass of deleting "&edge=curl" can leave an "&edge=curl" behind |
| GoogleBooks.RewriteCoverUrl | backend/app/services/google_books.py:19 | the rewritten link has no "&zoom=1"; it is shorter than the original exactly when the original held "&edge=curl" |
| GoogleBooks.FirstCover | backend/app/services/google_books.py:16-20 | the chosen link, after the rewrite, has no "&zoom=1" |
| GoogleBooks.HighResCover | backend/app/services/google_books.py:11-20 | an empty map gives ""; a cover never holds "&zoom=1" |
| GoogleBooks.HighResCoverPicksLargest | backend/app/services/google_books.py:16-19 | the cover is the rewritten link under the first present key of extraLarge, large, medium, thumbnail, smallThumbnail |
| GoogleBooks.HighResCoverNoneFound | backend/app/services/google_books.py:16-20 | with none of the five keys present the cover is "" |
| GoogleBooks.CoverZoomIdempotent | backend/app/services/google_books.py:56-57 | the second zoom rewrite leaves a cover unchanged |
| GoogleBooks.FallbackCoverUrl | backend/app/services/google_books.py:54 | definition: the fallback URL with the id spliced between its fixed head and tail |
| GoogleBooks.FallbackSuffixUnchanged | backend/app/services/google_books.py:54 | the fixed tail of the fallback URL survives the zoom rewrite unchanged |
| GoogleBooks.FallbackZoomOut | backend/app/services/google_books.py:54-57 | the zoom rewrite of the fallback URL touches only the id spliced into it |
| GoogleBooks.ThumbnailFor | backend/app/services/google_books.py:50-57 | the thumbnail has no "&zoom=1", and is "" exactly when there is no cover and no truthy id |
| GoogleBooks.FallbackThumbnailExact | backend/app/services/google_books.py:52-57 | without a cover, an id free of "&zoom=1" yields exactly the documented fallback URL |
| GoogleBooks.DeriveThumbnail | backend/app/services/google_books.py:50-57 | the step-by-step derivation ends in the thumbnail `ThumbnailFor` describes |
| GoogleBooks.MetadataOf | backend/app/services/google_books.py:39-57 | the thumbnail is the one `ThumbnailFor` gives for the volume's image links (or none) and id, and never holds "&zoom=1" |
| GoogleBooks.MetadataDefaults | backend/app/services/google_books.py:41-49 | missing fields default to "Unknown Title", [], [], "" and no cover; a missing page count stays absent |
| GoogleBooks.MetadataCarriesPresentFields | backend/app/services/google_books.py:43-49 | each field the volume has is carried over unchanged, and the page count is passed through as it is |
| GoogleBooks.ExtractMetadata | backend/app/services/google_books.py:36-39 | no metadata exactly when `items` is missing or empty; otherwise a thumbnail without "&zoom=1" |
| GoogleBooks.ExtractMetadataUsesFirstOnly | backend/app/services/google_books.py:39 | two responses with the same first volume give the same metadata |
| GoogleBooks.SearchBookMetadata | backend/app/services/google_books.py:22-69 | a missing or empty key or a failed request gives None; with a key and a response, the result is what `ExtractMetadata` reads from it |
| AiEngine.NatToStringRoundTrip | backend/app/services/ai_engine.py:107 | the decimal text of a number reads back as that number |
| AiEngine.IntToString | backend/app/services/ai_engine.py:107 | a minus sign exactly for negatives, then digits without a leading zero (except for "0" itself) that read back as the magnitude |
| AiEngine.PageCountText | backend/app/services/ai_engine.py:107 | the text is "Tidak diketahui" exactly when the `page_count` key is missing |
| AiEngine.CategoriesText | backend/app/services/ai_engine.py:108 | the text is "[]" exactly when the key is missing or the list is empty |
| AiEngine.MetadataInfo | backend/app/services/ai_engine.py:104-109 | definition of the metadata f-string; the varying parts are stated by `PageCountText` and `CategoriesText` |
| AiEngine.BuildContentMessage | backend/app/services/ai_engine.py:110-121 | three parts in order: prompt, metadata text, then the screenshot as a PNG data URL or the fixed warning |
| AiEngine.DeleteFences | backend/app/services/ai_engine.py:128 | definition: `s.replace("```", "")`; see `DeleteFencesClears` |
| AiEngine.DeleteFencesClears | backend/app/services/ai_engine.py:128 | deleting "```" leaves no "```" |
| AiEngine.CleanReply | backend/app/services/ai_engine.py:128 | the cleaned reply holds neither "```" nor "```json" and has no whitespace at either end |
| AiEngine.CleanReplyKeepsPlainReply | backend/app/services/ai_engine.py:128 | a reply without backticks and without whitespace at either end comes back unchanged |
| AiEngine.CleanReplyUnwrapsJsonFence | backend/app/services/ai_engine.py:128 | a reply "```json" + body + "```", with no backtick in the body, cleans to the stripped body |
| AiEngine.CleanReplyUnwrapsPlainFence | backend/app/services/ai_engine.py:128 | a reply "```" + body + "```", with no backtick in the body and the body not opening with "json", cleans to the stripped body |
| AiEngine.CleanReplyUnwrapsFence | backend/app/services/ai_engine.py:128 | a reply "```" + body + "```", with no backtick in the body, cleans to the stripped body, less a leading "json" which the first replacement takes with the fence |
| AiEngine.AnalyzeBookWithAi | backend/app/services/ai_engine.py:10-141 | a falsy key fails with the fixed message before anything is sent; otherwise the three-part message is sent, the cleaned reply is parsed, and any failure yields the fallback record carrying its text |
| AiEngine.FallbackAnalysis | backend/app/services/ai_engine.py:135-141 | definition of the fallback record; see `FallbackAnalysisFields` |
| AiEngine.FallbackAnalysisFields | backend/app/services/ai_engine.py:133-141 | the fallback record's level, zero confidence, reason prefix, "-" advice and "ABU" colour |
| Page.ToUpper | frontend/src/app/page.tsx:73 | definition of `toUpperCase` as far as it can give an upper-case ASCII letter; `ToUpperMatches` relates it to the case-insensitive reference |
| Page.BadgeColor | frontend/src/app/page.tsx:65-74 | gray exactly when the upper-cased name is none of the five keys; otherwise one of the five class lists |
| Page.BadgeColorIgnoresCase | frontend/src/app/page.tsx:65-73 | a colour's class list is chosen exactly for the spellings of its name that differ only in case |
| Page.BadgeColorDefault | frontend/src/app/page.tsx:65-73 | gray is chosen exactly when the name spells none of the five colours in any case |
| Page.UnknownColourIsGray | frontend/src/app/page.tsx:73 | "ABU" and "abu" show as gray |
| Page.ErrorVisible | frontend/src/app/page.tsx:112 | definition: the banner shows for a non-empty error |
| Page.SkeletonVisible | frontend/src/app/page.tsx:120 | definition: the skeleton shows while loading |
| Page.ResultVisible | frontend/src/app/page.tsx:137 | definition: the card shows when not loading and there is a result |
| Page.PanelsExclusive | frontend/src/app/page.tsx:112-137 | in a state a search can leave, at most one of error banner, skeleton and result card is shown |
| Page.ErrorMessage | frontend/src/app/page.tsx:55-57 | the server's detail unless it is missing or empty, else the default text; never empty |
| Page.SearchForm.constructor | frontend/src/app/page.tsx:31-35 | empty query, not loading, no result, no error |
| Page.SearchForm.SetQuery | frontend/src/app/page.tsx:97 | only the query changes, so a consistent view stays consistent |
| Page.SearchForm.Submit | frontend/src/app/page.tsx:37-43 | a query that trims to nothing changes nothing and sends nothing; otherwise the untrimmed query is sent, loading starts and error and result are cleared |
| Page.SearchForm.Complete | frontend/src/app/page.tsx:51-61 | loading ends; success sets the result with no error, failure sets the error message with no result; exactly one of result card and banner is shown |
| Page.SearchForm.HandleSearch | frontend/src/app/page.tsx:37-62 | the whole search: nothing for a blank query, else the final state of a success or a failure, keeping the panels consistent |
| Route.RequireMetadata | backend/app/main.py:28-30 | a 404 with "Buku tidak ditemukan" exactly when there is no metadata |
| Route.EvidenceImage | backend/app/main.py:36 | the first screenshot, or "" when there is none |
| Route.MetadataForAi | backend/app/services/google_books.py:59-66 | the analysis receives the title, the categories and a `page_count` key that is always present |
| Route.RouteNeverReportsUnknownPages | backend/app/services/ai_engine.py:107 | through the route the page count text is never "Tidak diketahui"; a missing count prints as "None" |
| Route.NotFoundShownOnPage | backend/app/main.py:30 | the page shows the 404 detail verbatim |
| Route.FallbackBadgeIsGray | backend/app/services/ai_engine.py:140 | a failed analysis reaches the page with the gray badge |

## Left out

- HTTP requests, environment variables, the Gemini call and `json.loads` are inputs (a `Result` or an `Option`), not modelled behaviour.
- The prompt text is a parameter of `AiEngine.AnalyzeBookWithAi`; its wording is not modelled.
- The Playwright scraper (`backend/app/services/scraper.py`) and the server set-up in `backend/app/main.py` (CORS, logging, event loop) are not part of this model.
- JSON values of unexpected types (a non-string title, a null list, a non-string `detail` such as a validation error list) are not modelled; each field has the type the code expects.
- `AiEngine.CategoriesText`: Python's `repr` is modelled for strings that need no escaping; quotes and backslashes inside a category are not escaped in the model.
- `Page.BadgeColor`: JavaScript's `toUpperCase` is modelled only as far as it can produce an upper-case ASCII letter (a-z, dotless i, long s); other characters are kept, and expansions such as "ß" to "SS" are not modelled because no colour name contains their results.
- `Page.BadgeColor`: the colour name is a string; `color?.` on an undefined name is not modelled.
- `Page.SearchForm.Complete`: requires the loading state; overlapping searches are not modelled, since the submit button is disabled while loading. React's batched, asynchronous state updates are modelled as direct assignments.
- The query text sent to Google Books is not URL-encoded in the source; building that URL is part of the HTTP call and is not modelled.
- The rendering of the result card (authors, page count, screenshot evidence) is not modelled beyond its visibility.
