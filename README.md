# Amazon product extractor: a verified model of its core

The application reads a public Google Sheet of Amazon product links and works out which
column holds the links and which one groups them into palettes. It turns each qualifying row
into a product record, then asks a language-model service for the title, images and cited
sources of each product, two products at a time. The dashboard groups the products by palette.

This project models that core in Dafny and proves properties of the model:

- `SheetService` (services/sheetService.ts):
  - The share-URL analysis of `getCsvUrl`. This is the `/d/<id>` segment, found as the regular
    expression finds it, plus the `gid` precedence: query, then fragment, then `"0"`.
  - The `parseCsvLine` tokenizer, as a loop proved equal to a state machine `Scan`.
  - `fetchSheet` from the fetched text onward: line splitting, dropping blank lines, the
    bounded header search, and zipping each data line against the headers. The outcome of the
    fetch is an input.
- `GeminiService` (services/geminiService.ts): the parsing of the service's reply.
  - The `/TITLE:\s*(.+)/i` and `/IMAGES:\s*(.+)/i` matches are modelled with the regular
    expression's real semantics: leftmost match, ASCII case folding, and a greedy `\s*` that
    backtracks. `.` stops at a line terminator.
  - Also modelled: splitting and cleaning the image list, the URL filter, order-preserving
    de-duplication, the mapping of citation chunks to sources, and rethrowing the error.
- `App` (App.tsx):
  - The two column heuristics and the row-to-product mapping.
  - The state the component keeps, as the class `App.AppState`: products, error message and
    the extracting flag.
  - `processProduct`'s two updates by id.
  - `startExtraction`'s loop over batches of two pending products.
- `Dashboard` (components/Dashboard.tsx): the `groupedProducts` grouping, a loop that pushes
  each product onto its group, and the `Palette` heading rule.
- `Text`, `Types` and `Wrappers`: JavaScript's `trim` (its whitespace set), ASCII case
  mapping, `split`/`includes`, the record types of types.ts, and `Option`/`Result`.

Some behaviour comes straight from the code:

- The reply patterns are not anchored to a line. The `\s*` after a marker can cross line
  breaks, so an empty `TITLE:` line takes its title from the next line (`TitleAfterSpaces`).
- A `TITLE:` followed only by blanks to the end of the reply, at least one of them not a line
  break, gives the empty title, not `"Unknown Product"` (`BlankTitleAtEnd`). Blanks that are all
  line breaks give `"Unknown Product"` (`LineBreaksTitleAtEnd`).
- The prompt (services/geminiService.ts:16-18) asks for a reply of two lines, one per
  marker, but the patterns at services/geminiService.ts:28-29 do not anchor the marker to the
  start of a line or keep the capture on the marker's line. The model follows the patterns.

## Model

| member | source | states |
|---|---|---|
| SheetService.SheetId | services/sheetService.ts:7-9 | no identifier exactly when no `/d/` followed by an identifier character occurs; an identifier is non-empty and made of `[A-Za-z0-9-_]` |
| SheetService.SheetIdAtLeftmost | services/sheetService.ts:7-9 | the identifier is the run of `[A-Za-z0-9-_]` after the leftmost `/d/` that an identifier character follows, up to the first character outside the class |
| SheetService.SheetIdOfShareUrl | services/sheetService.ts:7-9 | a URL `prefix/d/<id><rest>` yields exactly `id` when the prefix has no earlier segment and `rest` does not continue the identifier |
| SheetService.GidOf | services/sheetService.ts:18-27 | a non-empty query `gid` wins; otherwise a non-empty fragment `gid`; otherwise `"0"`; never empty |
| SheetService.ParamGetEncoded | services/sheetService.ts:18-21 | looking a name up in an encoded `name=value&...` query yields the value of the first pair with that name, and nothing when no pair has it, except that the empty name finds `''` in the empty query |
| SheetService.GetCsvUrl | services/sheetService.ts:5-34 | the empty result exactly when there is no identifier segment; otherwise the captured identifier, with no tab exactly when the URL cannot be parsed, and otherwise the tab `GidOf` picks from its query and fragment |
| SheetService.ParseCsvLine | services/sheetService.ts:36-59 | the index loop, including its skip over a doubled quote, returns exactly the state machine's fields |
| SheetService.FieldsWithoutQuotes | services/sheetService.ts:41-58 | a line without `"` gives its comma-separated pieces, each trimmed, one more than its commas |
| SheetService.QuotedThenPlain | services/sheetService.ts:43-52 | a quoted first field keeps its commas and reads each doubled `"` as one; the unquoted rest splits at every comma |
| SheetService.RecordRoundTrip | services/sheetService.ts:43-57 | a record with every field quoted and its quotes doubled reads back as its fields, each trimmed |
| SheetService.ScanUnterminated | services/sheetService.ts:43-57 | after an opening quote that never closes, the rest of the line, commas included, is the last field, trimmed |
| SheetService.SplitLines | services/sheetService.ts:69 | one line per `\n`-separated piece, each but the last without the `\r` before its `\n`; no line holds a `\n` |
| SheetService.SplitLinesWithoutCR | services/sheetService.ts:69 | without carriage returns the lines are the `\n` pieces, and joining them with `\n` gives back the text |
| SheetService.NonBlank | services/sheetService.ts:70 | keeps exactly the lines that are not blank after trimming, as a subsequence of the lines |
| SheetService.NonBlankAppend | services/sheetService.ts:70 | a line added at the end is kept, after the earlier kept lines, exactly when it is not blank, so order and repeats are kept |
| SheetService.TokenizeAll | services/sheetService.ts:71 | every kept line tokenized, in order |
| SheetService.LooksLikeHeaderIffTwoCells | services/sheetService.ts:80-81 | a line qualifies as header exactly when two distinct cells are non-empty |
| SheetService.HeaderIndex | services/sheetService.ts:78-85 | the first of the first five lines with more than one non-empty cell, and 0 when there is none |
| SheetService.FindHeaderRow | services/sheetService.ts:78-85 | the bounded loop with its early exit computes that header index |
| SheetService.ColumnKeys | services/sheetService.ts:100 | the returned headers: each blank header replaced by `Column_<i>`, never empty, same count |
| SheetService.RecordShape | services/sheetService.ts:90-98 | a record's keys are exactly the column keys; each column that is the last with its key holds the cell at its position, or `''` when the line is shorter |
| SheetService.BuildRow | services/sheetService.ts:91-97 | the `forEach` that fills one record builds exactly that record |
| SheetService.BuildRows | services/sheetService.ts:90-98 | one record per data line, in order |
| SheetService.TableShape | services/sheetService.ts:87-100 | the headers are the header line's column keys; row `k` is the record of line `h+1+k` for header index `h`, one per line after the header; each row is keyed by exactly the returned headers |
| SheetService.SheetFromText | services/sheetService.ts:68-100 | "Sheet is empty." exactly when no non-blank line remains; otherwise the table of the tokenized non-blank lines |
| SheetService.LoadSheet | services/sheetService.ts:61-101 | the invalid-URL error when there is no identifier; otherwise the access error, the request's own error, or the table of the body |
| SheetService.FetchSheet | services/sheetService.ts:61-101 | the step-by-step computation agrees with that outcome on every input |
| GeminiService.CaptureStartIsLargestCandidate | services/geminiService.ts:28-29 | the capture starts at the furthest position that `\s*` can reach and still leave `.+` a character; there is none exactly when no position qualifies |
| GeminiService.FindMatchIsLeftmost | services/geminiService.ts:28-29 | the match found is a match and no earlier position matches; there is none exactly when no position matches |
| GeminiService.Capture | services/geminiService.ts:28-29 | the group is present exactly when a match exists, and is then a non-empty run within one line |
| GeminiService.CaptureAfter | services/geminiService.ts:28-29 | for a marker, blanks, then a line, with no earlier match, the group is exactly that line |
| GeminiService.TitleOf | services/geminiService.ts:28-31 | `"Unknown Product"` without a match; otherwise a trimmed text within one line |
| GeminiService.TitleAfterSpaces | services/geminiService.ts:28-31 | `TITLE:` then blanks, which may include line breaks, then a line gives that line, trimmed |
| GeminiService.BlankTitleAtEnd | services/geminiService.ts:28-31 | `TITLE:` followed only by blanks to the end of the reply, at least one of them not a line break, gives the empty title |
| GeminiService.LineBreaksTitleAtEnd | services/geminiService.ts:28-31 | `TITLE:` followed only by line breaks to the end of the reply does not match, so the title is `"Unknown Product"` |
| GeminiService.StripBrackets | services/geminiService.ts:33 | exactly the characters other than `[` and `]` are kept |
| GeminiService.RawImageUrls | services/geminiService.ts:32-34 | URL `i` is the `i`-th comma-separated piece, trimmed and with every bracket removed; one per piece |
| GeminiService.UsableImages | services/geminiService.ts:37-46 | keeps exactly the URLs starting with `http` whose lower-case form has no `thumb`, `icon`, `sprite` or `pixel`, as a subsequence |
| GeminiService.UsableImagesAppend | services/geminiService.ts:37-46 | a URL added at the end is kept, after the earlier kept URLs, exactly when it is usable, repeats included |
| GeminiService.Dedup | services/geminiService.ts:56 | the same URLs, each once |
| GeminiService.DedupFromOrder | services/geminiService.ts:56 | the de-duplicated URLs keep first-occurrence order |
| GeminiService.ImagesOf | services/geminiService.ts:29-56 | no images without an `IMAGES:` match; every image is usable; no image repeats |
| GeminiService.ImagesExact | services/geminiService.ts:32-56 | the images are exactly the usable raw URLs, a subsequence of the filtered list, in first-occurrence order |
| GeminiService.WidgetTitle | services/geminiService.ts:28-31 | the reply `TITLE: Widget\nIMAGES: ...` has the title `Widget` |
| GeminiService.WidgetImages | services/geminiService.ts:29-46 | the same reply keeps `http://a.com/1.jpg` and drops the `thumb` image |
| GeminiService.SourceOf | services/geminiService.ts:50-53 | title defaults to `Source` and uri to `''` |
| GeminiService.SourcesOf | services/geminiService.ts:48-53 | at most one source per chunk, every title non-empty, none when no chunk has `web` |
| GeminiService.SourcesAllWeb | services/geminiService.ts:48-53 | chunks that all have `web` map one to one, in order |
| GeminiService.SourcesAppend | services/geminiService.ts:48-53 | the mapping distributes over concatenation, so chunks without `web` are skipped in place |
| GeminiService.ExtractProductInfo | services/geminiService.ts:24-63 | fails exactly when the call raised, with the same error; otherwise the images, title and sources parsed from the reply's text (empty when missing) and chunks, the images distinct and usable |
| GeminiService.MissingTextDefaults | services/geminiService.ts:24-31 | a reply without text gives no images and `"Unknown Product"` |
| GeminiService.WidgetExtract | services/geminiService.ts:24-59 | the whole sample reply yields title `Widget` and images `[http://a.com/1.jpg]` |
| App.HasLinkCellMeans | App.tsx:23-26 | `rows.some` holds exactly when some row's lower-cased cell in that column looks like an Amazon link |
| App.FirstLinkColumn | App.tsx:22-28 | none exactly when no candidate has a link cell; otherwise a candidate that has one |
| App.FirstLinkColumnIsEarliest | App.tsx:29-35 | the earliest column with a link cell is the one returned |
| App.KeywordSearchFindsEarliest | App.tsx:20-28 | the first pass returns the earliest header naming a keyword that has a link cell |
| App.KeywordSearchEmpty | App.tsx:20-28 | the first pass returns nothing when no keyword header has a link cell |
| App.AmazonColumn | App.tsx:19-37 | the result is `''` or one of the headers |
| App.AmazonColumnPrefersKeyword | App.tsx:19-28 | a qualifying keyword header wins, the earliest one |
| App.AmazonColumnFallsBackToAnyHeader | App.tsx:29-35 | without one, the earliest header of any name with a link cell |
| App.AmazonColumnDefault | App.tsx:36 | without either, the first header, or `''` when there are none |
| App.PaletteColumn | App.tsx:39-44 | `''` exactly when no header names PALETTE, PALETE, GROUP or ITEM; otherwise such a header |
| App.PaletteColumnIsEarliest | App.tsx:39-44 | it is the earliest such header |
| App.MappedProductsKeep | App.tsx:67-78 | a row's product is kept exactly when its trimmed link cell looks like a product link, and row order is kept |
| App.MissingLinkDropsRow | App.tsx:70-78 | a row whose link cell is missing or blank is dropped |
| App.MappedProductsShape | App.tsx:68-74 | every mapped product is pending with no images, title, error or sources, and has no palette when no group column was found |
| App.MappedIdsDistinct | App.tsx:69 | the positional ids `product-<row>` are pairwise distinct |
| App.Outcome | App.tsx:99-107 | success completes the record with the result's images, title and sources; failure marks it failed with the error's message, or "Extraction failed" when that is empty; id, url and palette are kept |
| App.UpdatesTouchOnlyTheMatch | App.tsx:96-107 | both updates change only the record with the given id, keep every id and position, and keep ids unique; on a record not yet settled they keep every record consistent |
| App.SettleCommutes | App.tsx:118 | two settlements for different ids give the same list in either order |
| App.StagedKeepsValid | App.tsx:114-119 | every intermediate state of a run over a list with unique ids and consistent records has them too |
| App.MarkStep | App.tsx:96 | marking a pending member of the batch moves it to `processing` in the staged view |
| App.SettleStep | App.tsx:99-107 | settling a started member gives it its final record in the staged view |
| App.PendingOfFacts | App.tsx:114 | the pending list keeps unique ids and holds every pending product |
| App.ExtractedMovesForward | App.tsx:111-121 | after extraction every pending product is completed or failed, every other product is unchanged (failed ones are not retried), ids stay unique, and every record stays consistent: only completed ones have a title, sources and images, only failed ones an error |
| App.BatchAdvance | App.tsx:116-117 | each slice `pending[i..i+2]` is a non-empty batch of fresh, distinct pending ids, and afterwards exactly the first `i+2` are done |
| App.AppState.constructor | App.tsx:13-17 | no products, no error, not extracting |
| App.AppState.MapProducts | App.tsx:66-86 | the products are the mapped rows; the error names the searched column exactly when none was kept and is cleared otherwise |
| App.AppState.StartProcessing | App.tsx:96 | the matching record becomes `processing`; a valid state whose record had not settled stays valid |
| App.AppState.FinishProcessing | App.tsx:97-108 | the matching record takes the outcome of the reply; a valid state whose record had not settled stays valid |
| App.AppState.ProcessProduct | App.tsx:94-109 | mark, then settle, keeping ids unique, and keeping records consistent when the product had not settled |
| App.AppState.RunBatch | App.tsx:117-118 | the products afterwards are the staged view with the whole batch settled, so all of its members are done; the flags are unchanged; the state is valid when the run's starting list was |
| App.AppState.StartExtraction | App.tsx:111-121 | nothing happens while already extracting; otherwise every pending product is settled, in `ceil(n/2)` batches of two for `n` pending products |
| Dashboard.GroupKey | components/Dashboard.tsx:14 | the palette when present and non-empty, else `Uncategorized`; never empty |
| Dashboard.Group | components/Dashboard.tsx:13-17 | a group holds exactly the products with its key, in input order |
| Dashboard.GroupKeysFacts | components/Dashboard.tsx:12-18 | the keys are distinct and are exactly the keys of the products |
| Dashboard.GroupAppend | components/Dashboard.tsx:15-16 | one more product grows its own group by it and leaves the others alone |
| Dashboard.GroupProducts | components/Dashboard.tsx:11-19 | the loop's dictionary has exactly the keys in first-seen order, each mapped to its group |
| Dashboard.EachProductInOneGroup | components/Dashboard.tsx:13-17 | every product lies in exactly one group, the one its key names, and that key is listed |
| Dashboard.GroupSizesSum | components/Dashboard.tsx:12-18 | the group sizes add up to the number of products |
| Dashboard.Heading | components/Dashboard.tsx:28 | every heading starts with `Palette` |
| Dashboard.HeadingKeepsKey | components/Dashboard.tsx:28 | the heading is the key exactly when the key starts with `Palette`, otherwise `Palette`, a space, then the key; labelling twice changes nothing |

## Left out

- The HTTP request and the `response.ok` test (services/sheetService.ts:65-68). The fetch outcome is an input: a body, a non-success status, or a rejected request.
- The WHATWG `URL` parser and the percent-encoding of `URLSearchParams` (services/sheetService.ts:13, 20, 25-30). Whether the URL parses, and its query and fragment, are an input. Query lookup splits on `&` and `=` but does not percent-decode. The export URL string itself is not built.
- The `GoogleGenAI` client, API key, prompt and search tool (services/geminiService.ts:1-22). The reply is an input, either its text and grounding chunks or the error it raised. The `console.error` logging is left out too.
- `toUpperCase`, `toLowerCase` and the regular expression's `/i` map only ASCII letters here. JavaScript's full Unicode case mapping (ligatures, dotless i, long s) is not modelled.
- Strings are sequences of `char`. UTF-16 surrogate pairs are not distinguished from code points.
- React state hooks, re-render timing and the real concurrency of `Promise.all` (App.tsx:118). Each batch is modelled as all members marked, then all settled, in an order chosen by the `secondFirst` input. The service's reply to each product is the input `replies`, keyed by product id.
- The stale `isExtracting` and `products` closure a real re-render could expose, and `mapProducts` replacing the products while an extraction runs. The model runs one operation at a time.
- `handleLoadSheet` and `handleColumnChange` (App.tsx:46-64, 88-92). They only wire `fetchSheet`, the two column heuristics and `mapProducts` to the UI, and each of those is modelled.
- The order of `Object.entries` (components/Dashboard.tsx:24). JavaScript lists integer-like keys first. The model lists groups in first-seen order.
- The JSX of App.tsx, Dashboard.tsx and ProductCard.tsx. The item count shown beside a heading (components/Dashboard.tsx:32) is `groupProducts.length`, which is the length of the group `GroupProducts` returns.
- Duplicate header names overwrite one another in a row record (services/sheetService.ts:94-95). Records are maps, and `RecordShape` speaks only of the last column carrying each key.
- App.AppState.ProcessProduct: keeps records consistent only when the product's record has not settled yet. The source calls it only for pending products (App.tsx:114-118). Processing a completed record again would mark it `processing` while it keeps its images.
- ParamGet: an empty query piece counts as a pair with the empty name, whereas `URLSearchParams` skips it. Only `gid` is ever looked up, so the difference does not show.
- App.AppState.RunBatch: that every member of the batch is marked `processing` before any settles, and that the two settlements may come in either order, is shown by the body's sequence of steps and `SettleCommutes`, not stated by the contract, which gives only the state after the batch.
- Dashboard.GroupProducts: the grouping object inherits from `Object.prototype` in the source, and the model's dictionary does not. A palette named `constructor`, `toString`, `valueOf`, `hasOwnProperty`, `__proto__` or another inherited member finds that member at components/Dashboard.tsx:15. It is truthy, so no array is created, and the `push` at line 16 throws a TypeError, so the dashboard does not render. The model instead gives such a key a group like any other.
- SheetService.RecordShape: a record is a plain object in the source. A column key `__proto__` is assigned through the prototype setter at services/sheetService.ts:95, which ignores a string, so no record has that key. The model's record, and the keys `RecordShape` and `TableShape` state, include it. Other inherited names such as `constructor` become own keys, as in the model.
- SheetService.TableShape: states that each row is keyed by exactly the returned headers; in the source a header `__proto__` is not a key of any row, as the line above explains.
- App.AppState.StartExtraction: the number of batches is a ghost out-parameter. The order of batches is carried by the loop invariant, not by a recorded trace of events.
