# GDELT news tracker — a Dafny model of its decision logic

The GDELT news tracker is a web application in three tiers:

- a browser client (`script.js`) shows recent news articles on a world map and in a paged feed;
- a PHP endpoint (`get_news.php`) validates the query and runs a Python script;
- the Python script (`src/gdelt.py`) queries the GDELT document API, then de-duplicates, cleans, scores and sorts the articles.

A translation add-on (`translate.js`) guesses the language of the articles on the page.

This project models the decision logic of those four files. The DOM, the Leaflet map, the network, processes and JSON libraries are left out. The project then proves what the code promises.

- **`App.NewsApp`** (`app.dfy`) models the client's `state` object as a class. Each handler is a method that updates its fields. The handlers cover:
  - the visualization-mode toggle and the layer rule of the map refresh;
  - the country grouping filtered by the capitals table;
  - the sorted, paged feed and the country modal;
  - the export and the `isLoading` fetch gate;
  - the seeding of the query from the URL.
- **`Articles`, `Pagination`, `Csv`** model the pure parts of the client:
  - the three sort comparators;
  - `Array.prototype.slice` and the page-button window;
  - the CSV encoder, with a reader that gives the round trip.
- **`Grouping`** holds the first-occurrence grouping loop. The client (articles by country) and the translation scan (elements by text prefix) both use it.
- **`Language`** models:
  - the ordered script-range table of `fallbackLanguageDetection`;
  - the short-text guard of `detectLanguage`;
  - `getLanguageName`;
  - the content grouping and confidence filter of `scanPageForMultiLanguageContent`.
- **`Gdelt`** models the script's steps:
  - argument defaults and the window whitelist;
  - `drop_duplicates` by url and by title;
  - text cleaning;
  - `calculate_relevance`, counted in half-points so that its 0.5 steps stay exact, with a cap of 20 half-points (10 points);
  - the final sort.
- **`Endpoint`** models the method check, the parameter defaults, the argument list and the ordered chain of checks that chooses the response envelope.
- **`Pipeline`** connects the tiers: the request the client sends, the arguments the script parses, and the envelope built from what the script prints.

`Text` (trimming, substring, ASCII lower-casing, splitting, code-point order), `Sorting` (an insertion sort proved sorted and a permutation), `Timespan` (the whitelist the three tiers share) and `Wrappers` (`Option`) are shared helpers.

Three behaviours of the code worth noting:

- The client does not check the time window it sends; only the endpoint and the script fall back to `24h`. `App.NewsApp.ProcessUrlParams` and `Pipeline.TimespanReachesScript` show this.
- The script does de-duplicate articles, by url and then by title.
- When the search finds nothing, the script prints `[]`. The endpoint reports that as `success` with no results, not as `empty`.

## Model

| member | source | states |
|---|---|---|
| `Text.Compare` | script.js:1106-1109 | `localeCompare` as code-point order: zero exactly for equal strings, negative or zero exactly when the first sorts no later |
| `Text.Contains` | src/gdelt.py:81 | substring test: true exactly when the needle occurs at some position |
| `Text.Lower` | src/gdelt.py:69 | the result keeps the length, holds no ASCII capital, and every character that is not an ASCII capital is kept in place |
| `Text.LowerIdempotent` | src/gdelt.py:69 | lower-casing a lower-cased keyword changes nothing |
| `Text.Trim` | get_news.php:25 | the result is the input with only white space removed before and after it: a slice with nothing but white space on either side and no white space at either of its ends; empty exactly when the input is all white space |
| `Text.Words` | src/gdelt.py:71 | `split()` yields non-empty words without white space, each occurring in the text; the text is laid out as white space, the first word, white space, …, the last word, white space, with white space between any two words (`LaidOut`); written one after the other the words are the text with its white space removed |
| `Text.LaidOutIsWords` | src/gdelt.py:71 | the converse: any layout of the text into non-empty words without white space is the result of `split()`, so the words are exactly the maximal runs of non-space characters |
| `Text.WordsOfSingleWord` | src/gdelt.py:71 | a non-empty keyword without white space is its own only term |
| `Sorting.Sort` | script.js:1105-1145 | the sort result is a permutation of its input |
| `Sorting.SortSorted` | src/gdelt.py:120 | under a total preorder the sort result is ordered |
| `Grouping.KeysInOrder` | script.js:695 | the group keys are distinct and are exactly the keys that occur |
| `Grouping.MembersNonEmpty` | script.js:629-632 | a key's group is non-empty exactly when some element has that key |
| `Grouping.MembersAppend` | script.js:625-633 | the grouping of a concatenation is the concatenation of the groupings, so input order is kept |
| `Grouping.GroupBy` | script.js:623-635 | the loop yields one group per key that occurs, holding exactly that key's elements in input order; group sizes sum to the number of elements with a key |
| `Articles.Comparator` | script.js:1105-1145 | time: newer first; relevance: the higher score first, or the newer one on equal scores; country: ascending by country, or the newer one within a country |
| `Articles.ComparatorIsTotalPreorder` | script.js:1105-1145 | each of the three comparators is total and transitive |
| `Articles.SortArticles` | script.js:1098-1145 | the sorted copy is a permutation; time is newest first; relevance is highest first with time breaking ties; country is ascending with time breaking ties |
| `Articles.MissingDateSortsLast` | script.js:1107-1109 | under the time order every article after one without a date also has no date |
| `Articles.GroupArticlesByCountry` | script.js:623-635 | groups exist exactly for the non-empty source countries; each group is the country's articles in feed order; sizes sum to the articles that have a country |
| `Pagination.RelativeIndex` | script.js:1158 | `slice` clamps an index into the array and keeps an index that is already in range |
| `Pagination.TotalPagesBounds` | script.js:1250 | `ceil(len / perPage)` pages cover the list, and one page fewer would not |
| `Pagination.PageContents` | script.js:1155-1158 | page `p` holds exactly entries `(p-1)*perPage` up to `p*perPage`, clipped to the list |
| `Pagination.PageEmptyIff` | script.js:1162-1171 | a page is empty exactly when it lies past the last page |
| `Pagination.EntryOnItsPage` | script.js:1155-1158 | every entry is on the page its index gives, so the pages partition the list |
| `Pagination.WindowOrdered` | script.js:1267-1291 | the loop emits only numbered buttons and ellipses, each for a page between 1 and the last, in strictly increasing page order |
| `Pagination.WindowMembers` | script.js:1267-1291 | the loop emits a button exactly for each shown page, active exactly on the current one, and an ellipsis exactly where one is due |
| `Pagination.BarMembers` | script.js:1250-1303 | no controls for one page or fewer; prev iff current > 1; next iff current < total; buttons exactly for 1, total and current±1; ellipses only at current-2 when current > 3 and at current+2 when current < total-2 |
| `Pagination.BarTargetsInRange` | script.js:1258-1303 | on a real page every arrow and button opens a real page |
| `Pagination.RenderPagination` | script.js:1248-1307 | the button loop builds exactly the bar described above |
| `Pagination.AppendWindow` | script.js:1267-1291 | the page loop appends exactly the window for pages 1 to the last |
| `Csv.IntText` | script.js:967 | `String(n)` of a whole number is made of digits, reads back as `n` under the independent reader `DigitsValue`, and has no leading zero |
| `Csv.NumText` | script.js:967 | `String(x)` of a score holds only digits, a sign and a point, so it never needs quoting; it has the number form (`NumberForm`: a `-` only in front, digits without a leading zero, a `.5` only at the end), has a point exactly for an odd number of halves, starts with `-` exactly for a negative number, and reading back the sign, the digits and the `.5` (`HalvesValue`) gives the number |
| `Csv.NumberFormIsNumText` | script.js:967 | the converse: every text of the number form whose sign matches its value is `String(x)` of the value it reads back as, so the form pins the text down |
| `Csv.PlainDigitsAreIntText` | script.js:967 | digits without a leading zero are `String(n)` of the number they denote |
| `Csv.DoubleQuotes` | script.js:970 | doubling quotes changes no other character, never shortens the text, and leaves a text without quotes as it is |
| `Csv.ReadQuotedDoubled` | script.js:970 | a quoted cell's body reads back to the original value, up to its closing quote, so the doubling is undone exactly |
| `Csv.Escape` | script.js:969-971 | a value without quote or comma is written as is; otherwise it is wrapped in quotes |
| `Csv.CellTexts` | script.js:962-968 | one cell per header of the first record: `''` for a missing or null value, the string itself for a string, and for a number its `String` form, which reads back as that number |
| `Csv.Document` | script.js:952-976 | the file starts with the header line and its line break, and ends with a line break |
| `Csv.ExportCsv` | script.js:952-976 | the loop builds the header line plus one newline-terminated line per record |
| `Csv.DocumentLines` | script.js:957-976 | the file is the header line followed by the data lines, each ended by a line break |
| `Csv.LineRoundTrip` | script.js:962-975 | reading an escaped, comma-joined line gives back the original cells |
| `Csv.ReadCellEscaped` | script.js:969-971 | an escaped cell reads back to its value and leaves the rest of the line |
| `Csv.SplitUnlines` | script.js:975 | lines without inner line breaks are recovered from the joined text |
| `Csv.ExportRoundTrip` | script.js:952-976 | with plain headers and no line break in any value, the file reads back as the header list and each record's values under those headers |
| `Csv.PlainLine` | script.js:969-971 | a plain value is a line of one cell |
| `Csv.LineBreakSplitsRecord` | script.js:969 | a value holding a line break is not quoted, so the file reads back as one more record than was exported |
| `App.Or` | script.js:139-141 | JavaScript's `or` on a string that may be null: a non-empty value wins, and the result is empty only when both the value and the fallback are empty or null |
| `App.Toggled` | script.js:456-462 | the new mode is markers exactly when the clicked mode was active or is markers; otherwise it is the clicked mode |
| `App.ToggleTwiceFromMarkers` | script.js:456-462 | pressing the same toggle twice from markers returns to markers |
| `App.ClusterSize` | script.js:524-533 | small below 10, large from 50, medium in between |
| `App.ClusterSizeMonotone` | script.js:524-533 | a larger cluster never gets a smaller icon class |
| `App.Clustered` | script.js:544-545 | the cluster layer holds an article exactly when it is in the feed and its source country has a capital |
| `App.ClusteredAppend` | script.js:544-545 | clustering distributes over concatenation, so the layer keeps the feed's order |
| `App.WithCapital` | script.js:695-696 | the countries that get a marker are exactly the grouped countries found in the capitals table |
| `App.RequestForRoundTrip` | script.js:1022-1029 | reading the request URL back gives the client's keyword, window and country, so the URL loses nothing but the sort order |
| `App.Classify` | script.js:1032-1057 | failure exactly for a network or HTTP failure, bad JSON or `status: "error"`; articles are loaded only when the data is non-empty and the status is neither error nor empty |
| `App.IndexOfGroups` | script.js:648-746 | the index `addMarkers` builds from the groups is, for each country with a capital, its articles in feed order |
| `App.NewsApp.constructor` | script.js:8-36 | the initial `state`: markers mode, page 1, not loading, query `earthquake`/`24h`, no modal country, an empty markers layer |
| `App.NewsApp.ProcessUrlParams` | script.js:129-143 | non-empty parameters overwrite the query; the selector takes only a whitelisted window, but the query takes the raw one |
| `App.NewsApp.RenderFeed` | script.js:1154-1171 | shows page `p` of the list, or the placeholder and no buttons when that page is empty; every button opens a real page |
| `App.NewsApp.RenderModal` | script.js:776-828 | shows page `p` of the modal list, five per page, with buttons that open real pages; an empty page shows the placeholder and keeps the old modal buttons |
| `App.NewsApp.SortAndRender` | script.js:1098-1149 | renders the current page of a sorted copy; `allArticles` is unchanged |
| `App.NewsApp.ChangeSort` | script.js:265-268 | a sort change sets the order and keeps `currentPage` |
| `App.NewsApp.ClickFeedButton` | script.js:1258-1303 | an arrow or numbered button sets `currentPage` to its page and renders it; an ellipsis does nothing |
| `App.NewsApp.ClickModalButton` | script.js:841-879 | renders the chosen page but leaves `modalData.currentPage` unchanged |
| `App.NewsApp.AddMarkers` | script.js:640-746 | `articlesByCountry` is reset and then holds exactly the grouped countries that have a capital, with their groups |
| `App.NewsApp.CreateClusterVisualization` | script.js:515-566 | the cluster layer goes on the map holding, in feed order, exactly the articles whose country has a capital |
| `App.NewsApp.CreateMarkerVisualization` | script.js:504-510 | a fresh markers layer with the grouped, capital-filtered countries |
| `App.NewsApp.RefreshMapVisualization` | script.js:475-499 | the layers become `Redraw` of the old ones: all come off first; with no articles only an empty markers layer returns; otherwise the cluster layer, or the markers and country index with a warning toast in heatmap mode; the rest keeps its contents |
| `App.NewsApp.ToggleVisualization` | script.js:456-470 | sets the toggled mode, then the layers, the country index and the toasts become `Redraw` of the old ones in that mode |
| `App.NewsApp.ShowModal` | script.js:751-771 | an unknown country gives a warning and changes nothing else; otherwise the modal opens on page 1 of that country's articles |
| `App.NewsApp.CloseModal` | script.js:290-292 | closing hides the modal and keeps `modalData`, country included |
| `App.ExportSource` | script.js:925-935 | the export is the feed unless a modal country is set, and then it is the modal's list |
| `App.ExportName` | script.js:927 | the file name is `gdelt-news-`, the keyword, a dash and the window |
| `App.NewsApp.ExportData` | script.js:925-946 | exports the modal's list while a modal country is set, else all articles; an empty list gives a warning and no file |
| `App.NewsApp.BeginFetch` | script.js:1014-1029 | while loading, a fetch does nothing; otherwise it sets `isLoading` and sends the request for the current query |
| `App.NewsApp.ShowArticles` | script.js:1059-1070 | stores the list, renders the current page of the sorted list, and leaves the layers, the country index and the toasts as `Redraw` of the list in the current mode |
| `App.NewsApp.CompleteFetch` | script.js:1014-1093 | `isLoading` is false after every outcome; an error adds one toast and changes no layer; an empty result clears `allArticles` and the markers and changes nothing else on the map; data is shown as `ShowArticles` does |
| `Language.Utf16Length` | translate.js:441 | JavaScript's length lies between the number of code points and twice that |
| `Language.ScanFromCorrect` | translate.js:139-146 | the run scan answers exactly what `[class]{n,}` asks |
| `Language.Matches` | translate.js:139-146 | a pattern matches exactly when the text has `min` class characters in a row |
| `Language.FirstMatch` | translate.js:150-154 | the index found is the first entry of the table that matches, and none means no entry matches |
| `Language.PatternCodesDistinct` | translate.js:138-147 | the table's codes are distinct and none is `en` |
| `Language.Fallback` | translate.js:136-157 | the fallback answers `en` or one of the eight languages of its table |
| `Language.FallbackIsFirstMatch` | translate.js:136-157 | the answer is `en` exactly when no pattern matches; otherwise it is the language of the first pattern that matches |
| `Language.IdeographsAreChinese` | translate.js:140-142 | two adjacent CJK ideographs give `zh` (or `ru`, which is tested earlier), never `ja` |
| `Language.JapaneseClassWithoutKana` | translate.js:141-142 | a Japanese-class character that is not kana is in the Chinese class |
| `Language.JapaneseNeedsKana` | translate.js:140-142 | an answer of `ja` needs at least one kana in the text |
| `Language.NonLatinTextIsPageLanguage` | translate.js:89-91 | a text with no ASCII letter or underscore is reported as `en` with confidence 1, so it is never kept |
| `Language.FallbackAnswerAccepted` | translate.js:125-129 | without the widget, every fallback answer other than `en` passes the 0.6 threshold |
| `Language.DetectLanguage` | translate.js:87-132 | an empty text, one under 10 UTF-16 units, or one without an ASCII letter or `_` is `('en', 1)`; with the widget, its confidence is kept and its language too unless empty, where `en` stands in; a throwing widget gives `('en', 0)`; without the widget, the fallback's language at confidence 0.7 |
| `Language.AcceptedDetections` | translate.js:87-132 | which detections the scan keeps, for each widget behaviour |
| `Language.LanguageName` | translate.js:561-575 | the name differs from the code exactly when the code is listed, and a listed code's name is longer than the code |
| `Language.FallbackLanguagesNamed` | translate.js:561-575 | every language the fallback detector can answer has a name in the table |
| `Language.ContentHash` | translate.js:446 | the group key is the first 100 characters of the text, or all of a shorter text |
| `Language.LanguagesInOrder` | translate.js:466-472 | the detected languages are distinct and never `en` |
| `Language.ContentGroups` | translate.js:437-449 | a group exists exactly for each prefix of a scanned element, holding those elements in page order |
| `Language.DetectGroups` | translate.js:457-487 | the detection loop ends in the state `Scanned` describes |
| `Language.ScanPage` | translate.js:404-502 | the scan's result is the detection loop run over the content groups |
| `Language.CollectedMeans` | translate.js:466-479 | every collected element belongs to a group whose detection named that language and passed the filter |
| `Language.CollectedComplete` | translate.js:466-479 | every element of an accepted group is collected under the group's language |
| `Language.CollectedElementsKept` | translate.js:439-443 | a collected element is not ignored, has at least 20 characters once trimmed, and its language is not `en` |
| `Gdelt.Arg` | src/gdelt.py:15-17 | an argument is absent exactly when it is missing or all white space; a present one is non-empty with no white space at either end |
| `Gdelt.ParseArgs` | src/gdelt.py:12-22 | the keyword is the stripped first argument, or `earthquake` when it is missing or blank; the window is the stripped second argument when whitelisted, `24h` otherwise; the country is absent exactly when the third argument is missing or blank, and otherwise is that argument stripped |
| `Gdelt.ParseArgsStable` | src/gdelt.py:15-22 | parsing the parsed arguments again changes nothing |
| `Gdelt.DropDuplicates` | src/gdelt.py:50 | no two kept rows share a key; every kept row is an input row; every key of the input is kept |
| `Gdelt.DropDuplicatesKeepsFirst` | src/gdelt.py:49-53 | each kept row is the first of its key |
| `Gdelt.CleanCell` | src/gdelt.py:64-65 | a cell becomes empty exactly when it is missing, empty or `nan`; otherwise it is unchanged |
| `Gdelt.Clean` | src/gdelt.py:61-65 | every text column of the table is present and never holds `nan`; other columns are kept as they are |
| `Gdelt.CleanIdempotent` | src/gdelt.py:61-65 | cleaning a cleaned row changes nothing |
| `Gdelt.TermHits` | src/gdelt.py:85-87 | the number of terms found is at most the number of terms |
| `Gdelt.Relevance` | src/gdelt.py:74-110 | the score never exceeds 10 points |
| `Gdelt.KeywordInTitleScoresHalf` | src/gdelt.py:78-82 | a title holding the whole keyword earns at least 5 points |
| `Gdelt.ExcerptIgnoredWithContent` | src/gdelt.py:90-100 | the excerpt counts only when the content is missing or empty |
| `Gdelt.EmptyRowScoresNothing` | src/gdelt.py:74-110 | a row with no title, content or excerpt scores 0 |
| `Gdelt.TermHitsAll` | src/gdelt.py:85-87 | when every term occurs, each one counts |
| `Gdelt.ScatteredTermsOutscorePhrase` | src/gdelt.py:81-87 | three scattered terms in a title earn 6 points, more than the whole phrase's 5 |
| `Gdelt.CalculateRelevance` | src/gdelt.py:74-110 | the accumulating loops compute `Relevance` |
| `Gdelt.WeightedHits` | src/gdelt.py:85-87 | a term loop adds its weight once for each term found in the text, so it adds the weight times `TermHits` |
| `Gdelt.BeforeIsTotalPreorder` | src/gdelt.py:120 | the output order is total and transitive |
| `Gdelt.ByUrl` | src/gdelt.py:50 | the url step keeps input rows, no two with the same url, and every url of the input |
| `Gdelt.Deduplicated` | src/gdelt.py:49-53 | no two rows share a url or a title where the table has those columns; every title left by the url step survives, every url survives when there is no title column, and a table with neither column is kept whole |
| `Gdelt.CleanSeparates` | src/gdelt.py:61-65 | two cleaned rows with the same non-empty text had the same key before cleaning |
| `Gdelt.ScoredRows` | src/gdelt.py:47-113 | one record for each deduplicated row, cleaned and scored; no two records share a non-empty url or title; every score is at most 10 points; every record is a cleaned, scored table row |
| `Gdelt.SortedKeepsNoSharedKeys` | src/gdelt.py:120 | reordering keeps "no shared url or title" |
| `Gdelt.RunScript` | src/gdelt.py:24-134 | records are printed exactly when the search succeeds with rows, columns and a `seendate` column; an empty listing exactly when it succeeds with no rows or no columns; the script exits exactly when the search fails or the rows lack `seendate`; printed records are sorted by score then date, share no url or title, score at most 10, and are a permutation of the scored rows |
| `Gdelt.EmptyResultPrintsEmptyList` | src/gdelt.py:43-45 | an empty result prints `[]` |
| `Gdelt.MissingSeenDateFails` | src/gdelt.py:120 | a non-empty table without `seendate` makes the final sort fail and the script exit |
| `Gdelt.PrintedRecordsComeFromTable` | src/gdelt.py:47-123 | every printed record is a table row, cleaned and scored |
| `Endpoint.ErrorIffErrorCode` | get_news.php:15-108 | an envelope's status is `error` exactly when its HTTP code is not 200; the codes are 200, 405 and 500 |
| `Endpoint.Arguments` | get_news.php:25-37 | keyword, then the whitelisted window, then the country exactly when it is not PHP-empty |
| `Endpoint.Respond` | get_news.php:47-108 | start failure, then nonzero exit, then PHP-empty output, then bad JSON, each with its envelope; the raw excerpt is the first 500 characters; otherwise success with `totalResults` equal to the data's length |
| `Endpoint.HandleRequest` | get_news.php:14-108 | a non-GET request gets 405 and runs nothing; otherwise the script runs with `Arguments` and the answer is `Respond` |
| `Endpoint.BlankKeywordStaysBlank` | get_news.php:25 | a blank `q` is passed on as an empty keyword |
| `Endpoint.TimespanFallback` | get_news.php:26-28 | a whitelisted window is kept; a missing or other window becomes `24h` |
| `Timespan.Normalize` | src/gdelt.py:20-22 | the window is always whitelisted: a whitelisted one is kept and any other becomes `24h` |
| `Pipeline.TimespanReachesScript` | get_news.php:26-28 | the script searches the client's window if whitelisted, else `24h`, and the endpoint echoes that window |
| `Pipeline.EmptyKeywordSearchesDefault` | script.js:1028 | an empty keyword is left off the URL, and both the endpoint and the script use `earthquake` |
| `Pipeline.BlankKeywordSearchesDefault` | src/gdelt.py:15 | a blank keyword is echoed as `""` but searched as `earthquake` |
| `Pipeline.KeywordReachesScript` | get_news.php:25 | a keyword without surrounding white space reaches the script and the echo unchanged |
| `Pipeline.CountryZeroIsDropped` | get_news.php:35-37 | the country `0` is PHP-empty: it is left off the command line and echoed as null |
| `Pipeline.ScriptProcess` | src/gdelt.py:43-134 | exit code 0 unless the script failed; a failure has no output and carries its report on stderr; a normal run keeps its debug lines on stderr |
| `Pipeline.ScriptFailureIsServerError` | get_news.php:55-64 | a failing script becomes a 500 error carrying exit code 1 and the report |
| `Pipeline.EmptySearchIsSuccessWithoutData` | src/gdelt.py:43-45 | a search with no rows ends as `success` with `totalResults` 0, not as `empty` |
| `Pipeline.EmptyListIsSuccess` | get_news.php:67-98 | `[]` plus a newline is not PHP-empty, so it decodes to a success with no data |
| `Pipeline.EmptySuccessShowsNoResults` | script.js:1045-1057 | the browser shows a success with empty data as "no results" |

## Left out

- The DOM and all rendering: HTML templates, the loader, the dark mode, the welcome and share modals, and event wiring. The model keeps only the state that the handlers read and write.
- Leaflet: the map and `flyTo`. A layer is a flag plus the list of countries or articles it shows. The cluster plugin's pixel-radius clustering is not modelled.
- `getRadius`, `getColor` and `formatTimestamp`: they use floating-point logarithms, the clock and locale formatting.
- The heatmap layer: it is never created, because the plugin is not loaded. Heatmap mode draws markers and a warning, and the model does the same.
- `localStorage`, the clipboard, fullscreen, Blob downloads, `updateUrlParams` and `history.replaceState`. A download is recorded as a file name and its content.
- `exportJSONFile` and `JSON.stringify`: a JSON export is recorded as the list it would serialise.
- `localeCompare` is modelled as code-point order. This is exact for the timestamps and only approximate for country names.
- `Object.entries` order is modelled as insertion order. It differs for integer-like keys, which country names and text prefixes are not.
- `Articles.SortArticles`: the order of equal articles is not stated, because the engine's sort algorithm is not part of this model.
- `Articles.Score`: a `relevance_score` of `null` is read as 0. In JavaScript, `null === 0` is false, so the relevance comparator would skip the date tie-break for that pair and return 0. The script never writes a null score, so the model does not keep this case.
- `Gdelt.RunScript`: the order of records with equal score and date is not stated. The first sort by `seendate` only affects ties, so it is not modelled separately.
- pandas and gdeltdoc internals: values that are not strings, and exceptions other than a failed search or a missing `seendate`. A failed search stands for any exception before the final sort.
- `Language.Utf16Length`: only bounded. The 20-character scan limit is checked against it, but `substring(0, 100)` is modelled on code points.
- The PHP `substr(…, 0, 500)` excerpt counts bytes; the model counts characters.
- Lower-casing is ASCII-only. Python's `str.lower` also folds other scripts.
- The Google Translate widget, injected scripts, `MutationObserver`, timers and `await` ordering. The widget's answer is a parameter. A `null` result from the widget and a throwing `logDebug` are not modelled.
- The ignore selector's DOM containment test is a per-element flag. Setting the `data-detected-language` attributes, `displayLanguageDetectionResults` and auto-translate are not modelled.
- `getLanguageName` lookups of inherited object properties such as `constructor` are not modelled.
- `proc_open`, `escapeshellarg`, HTTP headers and `date('c')`. The process result and `json_decode` are parameters. Applying `count` to a decoded value that is not an array is not modelled.
- The endpoint runs `python gdelt.py` while the script lives in `src/`. The model assumes the script is found.
- Observed behaviour the model keeps as written:
  - an empty or failed fetch leaves the old pagination bar in place;
  - an empty fetch in clusters mode leaves the cluster layer on the map;
  - modal page buttons do not update `modalData.currentPage`;
  - cleaned urls or titles that became `""` may repeat.
