# ShopEase product search and image scraper, modelled in Dafny

This project models two small pieces of the ShopEase shop.

**Client-side product search.** The navigation bar's search form (`handleSearch`) trims the typed text. Blank text requests nothing. Other text requests `/productcherche?q=` followed by the `encodeURIComponent` of the trimmed text. The results page (`ProductCherche`) reads `q` back with `URLSearchParams`, or uses `""` when it is absent. It reads the catalog from the store, or `[]` when it is missing. It keeps, in catalog order, the products whose lower-cased display name (`title || name || ""`) contains the lower-cased, trimmed query. It then renders the count and one card per result. The bar's other rules are modelled too: the inert auxiliary buttons, the account button, variant visibility and the cart badge.

**The pure logic of the image scraper** (`python/scrapping.py`):
- keywords and queries from a file name;
- the three URL collectors: normalization, admission, the early `break` and the cap;
- the query loop and the de-duplicated selection;
- how a download is classified;
- the bounded attempt loop;
- the fallback table, matched by substring.

The network, the regular-expression engine and the filesystem are parameters of the model.

The whole model consists of pure functions over sequences and strings.
- The JavaScript primitives are modelled in modules of their own:
  - `String.prototype.trim`, with the ECMAScript white-space and line-terminator set;
  - UTF-8;
  - `encodeURIComponent`;
  - the parts of the WHATWG URL parser that reach `location.search`: trimming C0 controls and spaces at both ends, removing tabs and newlines, the split at `?` and `#`, and the query's percent-encoding;
  - `application/x-www-form-urlencoded` parsing, with `URLSearchParams.get` taking the first match.
- `toLowerCase` is modelled for ASCII only.
- The search flow's round trip is proved across the two components: submitting text, then reading `q` back on the results page, yields exactly the trimmed text.
- The scraper's loops are recursive functions. Their contracts are stated against uncapped reference definitions.

Modules, one per file:
- `Wrappers`
- `Text`: JS trim, ASCII lower-casing, `includes`/`indexOf`, decimal rendering
- `Utf8`
- `UriComponent`
- `SearchParams`
- `Location`
- `ProductSearch`: `UI/src/pages/ProductCherche.js`
- `Navigation`: `UI/src/components/Navigation/Navigation.jsx`
- `SearchFlow`: the two components together
- `Seqs`: Python slicing, de-duplication, flattening
- `Keywords`
- `Collectors`
- `ImageSearch`
- `Downloader`
- `Attempts`

## Model

| member | source | states |
|---|---|---|
| ProductSearch.QueryOf | UI/src/pages/ProductCherche.js:7 | with no `q` pair in the parsed search string the query is `""`, not an error; otherwise it is the value of the first `q` pair, and a non-empty query is the value of some `q` pair |
| SearchParams.Parse | UI/src/pages/ProductCherche.js:7 | an empty search or a bare `?` has no pairs; any other search without `&` is exactly one pair, parsed from the UTF-8 bytes after the optional leading `?` |
| SearchParams.ParseSplit | UI/src/pages/ProductCherche.js:7 | for every `x` and `y`, the pairs of `x&y` are the pairs of `x` followed by the pairs parsed from the bytes of `y` as they stand, so a `?` right after `&` stays in the next name; when `y` does not start with `?`, these are the pairs of `y` alone |
| SearchParams.ParseBytesSplit | UI/src/pages/ProductCherche.js:7 | on bytes: the pairs of `x & y` are the pairs of `x` followed by the pairs of `y` |
| Seqs.SplitAround | UI/src/pages/ProductCherche.js:7 | splitting at a separator between `x` and `y` gives the pieces of `x` followed by the pieces of `y` |
| Seqs.JoinSplit | UI/src/pages/ProductCherche.js:7 | splitting the search string at `&` loses nothing: joining the pieces with `&` gives the input back |
| SearchParams.Get | UI/src/pages/ProductCherche.js:7 | `get` answers None exactly when no pair has the name, and otherwise the value of the first pair with that name |
| SearchParams.GetOfEncodedQuery | UI/src/pages/ProductCherche.js:7 | parsing `?name=` + `encodeURIComponent(s)` and getting `name` gives back exactly `s` |
| SearchParams.PercentDecodeEncode | UI/src/pages/ProductCherche.js:7 | percent-decoding the bytes of `encodeURIComponent(s)` gives the UTF-8 bytes of `s` |
| SearchParams.DecodeComponentOfEncode | UI/src/pages/ProductCherche.js:7 | the form-urlencoded value decoder inverts `encodeURIComponent` |
| Utf8.DecodeEncode | UI/src/pages/ProductCherche.js:7 | the UTF-8 decoder applied to the encoding of any string gives the string back |
| ProductSearch.CatalogOf | UI/src/pages/ProductCherche.js:10 | a missing `products` slice or missing `items` is the empty catalog; otherwise the catalog is exactly the stored `items` |
| ProductSearch.DisplayName | UI/src/pages/ProductCherche.js:16 | the name is a non-empty title if there is one, else a non-empty name, else `""`; it is empty exactly when both are absent or empty |
| ProductSearch.FilterMatching | UI/src/pages/ProductCherche.js:15-17 | the filter is a subsequence of the catalog (order kept); every kept product matches (soundness); every matching catalog product is kept (completeness) |
| ProductSearch.FilterMultiplicity | UI/src/pages/ProductCherche.js:15-17 | each matching product is kept as many times as the catalog holds it; every other product is dropped entirely |
| ProductSearch.Results | UI/src/pages/ProductCherche.js:12-18 | a query blank after lower-casing and trimming gives no result; otherwise the results are an ordered subsequence holding exactly the products whose lower-cased display name contains the normalized query |
| ProductSearch.BlankQueryFindsNothing | UI/src/pages/ProductCherche.js:13-14 | a whitespace-only query finds nothing rather than the whole catalog |
| ProductSearch.ResultsIgnoreQueryCase | UI/src/pages/ProductCherche.js:13 | two queries equal after lower-casing give the same results |
| ProductSearch.UseMemo | UI/src/pages/ProductCherche.js:12-18 | the memo is keyed on both dependencies; from an empty or consistent cache it yields what a fresh computation yields |
| ProductSearch.RenderPage | UI/src/pages/ProductCherche.js:20-35 | the page echoes the query read from the location, shows one card per result, in order, keyed by the product id, and its count line is the number of cards followed by " produit(s)" |
| ProductSearch.CountLabelReadsBack | UI/src/pages/ProductCherche.js:26 | the count line is a decimal numeral that reads back as the number of cards shown |
| ProductSearch.EmptyCatalogRendersZero | UI/src/pages/ProductCherche.js:10-26 | a missing or empty catalog renders the count line "0 produit(s)" and no card |
| Text.Trim | UI/src/components/Navigation/Navigation.jsx:18 | the trimmed text is the contiguous middle of the input with only JS white space removed on both sides; it is empty exactly when the input is all white space |
| Text.TrimIdempotent | UI/src/components/Navigation/Navigation.jsx:18 | trimming twice is trimming once |
| Text.Lower | UI/src/pages/ProductCherche.js:13 | lower-casing keeps the length and maps each character |
| Text.LowerIdempotent | UI/src/pages/ProductCherche.js:16 | lower-casing twice is lower-casing once |
| Text.LowerTrimCommute | UI/src/pages/ProductCherche.js:13 | lower-casing then trimming equals trimming then lower-casing |
| Text.IndexOf | UI/src/pages/ProductCherche.js:16 | `indexOf` is -1 exactly when the text does not contain the pattern, and otherwise the first position where it occurs |
| Text.Includes | UI/src/pages/ProductCherche.js:16 | `includes` is true exactly when the pattern occurs contiguously in the text |
| Text.EmptyIsEverywhere | UI/src/pages/ProductCherche.js:14-16 | every name contains the empty query, which is why the blank query needs its own early return |
| Text.DecimalRoundTrip | UI/src/pages/ProductCherche.js:26 | the decimal rendering of a count reads back as that count |
| Text.NatToDecimal | UI/src/pages/ProductCherche.js:26 | a count renders as a non-empty string of decimal digits with no leading zero |
| Navigation.HandleSearch | UI/src/components/Navigation/Navigation.jsx:16-23 | nothing is requested exactly when the text is all white space; otherwise the request is the results path with `q=` and the encoding of the non-empty trimmed text |
| Navigation.HandleSearchDependsOnTrimmed | UI/src/components/Navigation/Navigation.jsx:18 | only the trimmed text matters: texts that trim alike request the same navigation |
| UriComponent.Encode | UI/src/components/Navigation/Navigation.jsx:22 | `encodeURIComponent` output consists only of unreserved characters, `%` and upper-case hex digits |
| UriComponent.EncodedHasNoDelimiters | UI/src/components/Navigation/Navigation.jsx:22 | the encoded query holds no `&`, `=`, `#`, `+` or `?`, and is ASCII |
| UriComponent.EncodeIdentityIff | UI/src/components/Navigation/Navigation.jsx:22 | encoding leaves a string unchanged exactly when every character is unreserved |
| Navigation.Dispatch | UI/src/components/Navigation/Navigation.jsx:29-180 | an edit sets the field to exactly the edited value and navigates nowhere; other events keep the field; submitting the form or clicking the search icon requests nothing exactly when the field is blank, and otherwise exactly the results page for the trimmed field; a plain button requests only its own `navigate` target, if any; a router link requests exactly its target |
| Navigation.EditThenSubmit | UI/src/components/Navigation/Navigation.jsx:14-23 | typing a text and pressing Enter leaves that text in the field and requests nothing for blank text, otherwise exactly one navigation, to the results page for the trimmed text |
| SearchFlow.TypedThenSubmittedReadsBack | UI/src/components/Navigation/Navigation.jsx:14-23 | starting from the user's events, typing non-blank text and submitting requests a single navigation, to the results path, whose page reads back exactly the trimmed text as `q` |
| Navigation.AuxiliaryButtonsInert | UI/src/components/Navigation/Navigation.jsx:94-151 | clicking the mic, camera, "Mode IA" or wishlist button changes nothing and navigates nowhere, whatever the field holds |
| Navigation.SearchIconSubmits | UI/src/components/Navigation/Navigation.jsx:73-78 | clicking the search icon behaves exactly like submitting the form |
| Navigation.UntypedMicWouldSubmit | UI/src/components/Navigation/Navigation.jsx:94-99 | for any non-blank field, the mic button as written requests nothing, while the same button without `type="button"` would submit the form and navigate to the results page for the trimmed text |
| Navigation.RunNavigations | UI/src/components/Navigation/Navigation.jsx:14-180 | over any sequence of edits, submissions, clicks on the bar's buttons and clicks on its `Link`/`NavLink`s, the bar only requests a link target (`/`, `/men`, `/women`, `/cart-items`, `/v1/login`, `/v1/register`), the account page, or a results page for non-blank, already trimmed text; the field ends as the value of the last edit. Links of either variant are allowed in any state, so the statement also covers links the current variant hides |
| Navigation.SubmitNavigationIsSearch | UI/src/components/Navigation/Navigation.jsx:16-23 | a submission requests only results pages for non-blank, already trimmed text |
| Navigation.Render | UI/src/components/Navigation/Navigation.jsx:35-183 | shop links, search form and action icons appear exactly for the `"default"` variant (also when no variant is given); login and signup appear exactly for `"auth"`; the badge appears exactly when the icons do and the cart count is positive, showing that count |
| Location.TargetParts | UI/src/components/Navigation/Navigation.jsx:22 | an address made of a plain path and a query, with no tab or newline and nothing the parser trims at its ends, splits back into that path and `?` followed by the query-encoded query |
| Location.SearchOf | UI/src/components/Navigation/Navigation.jsx:22 | `location.search` is empty or `?` followed by ASCII, and holds no `#`, tab or newline |
| Location.RemoveTabNewline | UI/src/components/Navigation/Navigation.jsx:22 | the parser drops ASCII tabs and newlines from the target: none is left, the other characters keep their order (a subsequence of the target), and a target without them is left unchanged |
| Location.RemoveTabNewlineCounts | UI/src/components/Navigation/Navigation.jsx:22 | the removal drops only tabs and newlines: every other character occurs as many times as before |
| Location.SearchDropsTab | UI/src/components/Navigation/Navigation.jsx:22 | a tab inside the query is removed, not encoded: navigating to `/p?a<TAB>b` gives the search `?ab` |
| Location.QueryEncodeOfEncoded | UI/src/components/Navigation/Navigation.jsx:22 | the URL parser's re-encoding of an `encodeURIComponent` value percent-decodes to the same bytes |
| SearchFlow.SearchTargetParts | UI/src/components/Navigation/Navigation.jsx:22 | the address `handleSearch` requests has the results path and the search `?q=` plus the encoded text |
| SearchFlow.SubmittedQueryReadsBack | UI/src/components/Navigation/Navigation.jsx:16-23 | submitting non-blank text goes to the results path, and the results page reads back exactly the trimmed text as `q` |
| SearchFlow.SubmittedSearchResults | UI/src/pages/ProductCherche.js:12-18 | end to end: after submitting text, the results are exactly the catalog filter for the lower-cased trimmed text |
| Keywords.SplitExtRoot | python/scrapping.py:14 | the root is a prefix of the name; when shorter, a dot follows it with no further dot or slash, and a non-dot precedes it in the last component; when the name is its own root, every dot in the last component is preceded only by dots |
| Keywords.RootOfStemAndExtension | python/scrapping.py:14 | a slash-free stem with a non-dot character, plus one dot-free extension, splits back into the stem |
| Keywords.Keywords | python/scrapping.py:14-15 | the keywords are the root with every `-` and `_` turned into a space, character by character, so they contain neither |
| Keywords.QueryTemplates | python/scrapping.py:18-24 | there are five queries, each the keywords followed by a space and a suffix |
| Keywords.IssuedQueries | python/scrapping.py:35 | exactly the first two templates are issued, never the "apparel" one or the later ones |
| Collectors.Absolutize | python/scrapping.py:80-81 | a `//` match gets `https:` in front, any other is unchanged; the result starts with `http` exactly when the match did or was protocol-relative |
| Collectors.Normalize | python/scrapping.py:116-118 | Bing strips every backslash and absolutizes what is left, so no backslash remains; DuckDuckGo only absolutizes; Google keeps the match as it is |
| Seqs.RemoveAll | python/scrapping.py:116 | `replace('\\', '')` drops every backslash and nothing else: the rest keeps its order (a subsequence), each other character keeps its count, and the length shrinks by exactly the number of backslashes |
| Collectors.Admit | python/scrapping.py:82-83 | a URL is appended exactly when it starts with `http` and is not already present; the list stays duplicate-free and `http`-only |
| Collectors.AdmitAll | python/scrapping.py:148-150 | admitting a list of matches extends the list by at most one URL per match; each new URL is the normalization of a match (soundness), and every match whose normalization starts with `http` ends up in the list (completeness) |
| Collectors.ScanFirst | python/scrapping.py:147-152 | Google keeps at most `max_results` URLs, each the normalization of one of the first `max_results` matches; for a non-negative cap it is exactly admitting those first matches |
| Collectors.ScanMatches | python/scrapping.py:79-85 | the inner loop only extends the list; every URL it adds comes from the pattern's matches, and the list stays admissible |
| Collectors.ScanPatterns | python/scrapping.py:77-85 | the loop over patterns only extends the list with admissible URLs from the matches |
| Collectors.Collect | python/scrapping.py:54-155 | every collector returns duplicate-free `http` URLs, at most `max_results` of them, and a failed request gives `[]`; DuckDuckGo and Bing return the first `max_results` URLs of admitting all matches in order; Google returns the admission of its first `max_results` matches, and only those can contribute |
| Collectors.CollectIsCappedReference | python/scrapping.py:76-87 | the capped scan with its inner `break` returns the first `max_results` URLs of admitting every match in order; Google's scan of the first matches needs no final cut |
| Collectors.OvershootIsTrimmed | python/scrapping.py:84-87 | with a cap of one, a second pattern still appends a URL (the `break` leaves only the inner loop), and the final slice removes it |
| Collectors.ProtocolRelativeOnlyOutsideGoogle | python/scrapping.py:80-81 | a protocol-relative match is kept as an `https:` URL by DuckDuckGo and Bing, but dropped by Google, which does not absolutize |
| ImageSearch.Round | python/scrapping.py:38-47 | one query collects at most nine URLs (three per source), all `http` |
| ImageSearch.Gather | python/scrapping.py:35-50 | the issued queries are a prefix of the queries, at least one; the collected URLs are the rounds of those queries in order; stopping before the last query means at least `max_results` were collected |
| ImageSearch.GatherStopsOnlyWhenFull | python/scrapping.py:49-50 | each query after the first is issued only while fewer than `max_results` URLs were collected |
| ImageSearch.Select | python/scrapping.py:52 | the selection is duplicate-free, drawn from the collected URLs, and as long as the number of distinct collected URLs capped at `max_results`; all of them are kept when they fit |
| ImageSearch.SearchImagesDirect | python/scrapping.py:9-52 | one or two queries are issued, in template order; the second exactly when the first round collected fewer than `max_results`; the selection is the de-duplicated cut of all collected URLs and every selected URL starts with `http` |
| Downloader.ErrorMessage | python/scrapping.py:196 | the message is the prefix of the exception text of length min(50, length of the text) |
| Downloader.DownloadImage | python/scrapping.py:157-196 | classifies a download case by case: success exactly when the folder can be created and the file exists or a complete image of at least 1024 bytes is written; an existing file gives (True, "existant") untouched; a content type without `image` gives (False, "pas une image"); an undersized body is removed with (False, "trop petit"); exception messages are cut to 50 characters |
| Downloader.InterruptedLeavesPartialFile | python/scrapping.py:184-186 | a body that breaks off leaves the bytes written so far on disk |
| Downloader.DiscardPartialKeepsSound | python/scrapping.py:184-193 | with partial files discarded, the target is never left undersized, and a success means at least 1024 bytes |
| Attempts.TryInOrder | python/scrapping.py:215-231 | the attempts are made on the URLs in order, from the first, at most one per URL; every attempt before the last failed; success exactly when the last attempt succeeded; on failure every URL was tried |
| Attempts.TryInOrderFollowsStep | python/scrapping.py:215-224 | attempt `i` downloads URL `i` into the target as the earlier attempts left it, and the target ends as the attempts made leave it |
| Attempts.TryInOrderAppend | python/scrapping.py:261-267 | trying two lists in a row is trying their concatenation |
| Attempts.AttemptFound | python/scrapping.py:208-231 | no URLs means failure without an attempt; the attempts are an in-order run over `found[:max_attempts]`, Python slicing included: on the found URLs in order, every one before the last failed, success exactly when the last succeeded, at most `max_attempts` of them, and on failure exactly min(`max_attempts`, number found) for a non-negative count |
| Attempts.AttemptFoundFollowsStep | python/scrapping.py:215-218 | attempt `i` downloads found URL `i` into the target as the earlier attempts left it, and the target ends as the attempts made leave it |
| Attempts.ProcessSingleImage | python/scrapping.py:198-231 | an empty selection means failure without an attempt; otherwise an in-order run over the first `max_attempts` selected URLs: at most five attempts and at most `max_attempts`, in the selection's order, each on a collected URL, every one before the last failed, success exactly when the last succeeded |
| Attempts.FallbackLoop | python/scrapping.py:261-267 | the loop over keys and their URLs is one ordered attempt list: the URLs of the matching keys, key after key, tried until the first success |
| Attempts.DownloadWithFallback | python/scrapping.py:233-269 | only URLs of keys contained in the lower-cased file name are tried, in table order; every attempt before the last failed; success exactly when the last attempt succeeded; all of them are tried on failure; and the run is the in-order download run over exactly those URLs, so each outcome is a real download of its URL (`TryInOrderFollowsStep`) |
| Attempts.SweatshirtTriesTshirtFirst | python/scrapping.py:238-262 | a name containing "sweatshirt" also matches "tshirt", so both T-shirt photos are tried before the sweatshirt one |
| Attempts.PartialFileCountsAsSuccess | python/scrapping.py:184-193 | as written, an interrupted first download leaves a partial file, and the second attempt reports (True, "existant") with an undersized image in place |
| Attempts.CorrectedSuccessMeansFullFile | python/scrapping.py:189-193 | with partial files discarded, a sound target stays sound through the attempt loop, and every success leaves at least 1024 bytes |

## Left out

- Unicode case mapping: `toLowerCase` and Python's `lower()` are modelled as ASCII-only lower-casing. Full Unicode case tables are out of scope, and the non-ASCII letters they would change are left as they are.
- `encodeURIComponent` throwing `URIError` on lone surrogates: Dafny's `char` is a Unicode scalar value, so lone surrogates cannot occur.
- React rendering: JSX markup, CSS classes, SVG icons, router and Redux wiring. `navigate` calls and clicks on `Link`/`NavLink` are returned as a list of targets, and the store is a datatype parameter. Only the observable facts are modelled: visibility, the badge, the count line and the cards.
- The wishlist and cart icons' own components, and `countCartItems`, are not part of this model. The cart count is a parameter of `Navigation.Render`.
- `main` in `python/scrapping.py`: `ThreadPoolExecutor`, timeouts, random pauses, the summary and the directory listing. These are concurrency and I/O. The per-image logic it calls is modelled.
- `alternative_simple_method`: pure I/O against a stock-photo site, with no decision logic beyond an HTTP status check.
- The search request URLs built with `quote_plus` and the request headers: they only reach the network. The collectors receive the response as a parameter.
- The regular-expression engine: `re.findall` is the `findall` parameter, one match list per pattern.
- `time.sleep` and every `print`: no effect on results.
- The `try`/`except` around each collector call in `search_images_direct` (lines 39-47): the collectors already catch everything and return `[]`, so that handler is unreachable and is not modelled.
- The ordering of `list(set(all_urls))`. Python leaves it unspecified, so `ImageSearch.Select` uses first occurrences. Its contract states only order-free facts: no duplicates, membership, size. The only fact about attempt order is that attempts follow the selection's order.
- Servers are modelled as functions of the URL, so the same URL is assumed to answer the same way within one run.
- The filesystem in `download_image_from_url` is abstracted:
  - the target file is observed only as absent or of a given size;
  - `os.makedirs`, `open` and `os.remove` failures are inputs;
  - the bytes written are the body's size, with `getsize` assumed to report exactly what was written.
- Attempts.ProcessSingleImage: the attempts follow the model's selection order, which stands for the unspecified order of `list(set(...))`. Against the collected URLs only membership is stated, so nothing is claimed about which collected URL is tried first.
- Location.PathOf: the path's own percent-encoding and dot-segment resolution are not modelled. The path is taken as the parser's cleaned input before `?` and `#`, which is exact for the constant results path.
- `UI/src/pages/AdminPanel/Statistics/Statistics.js`, `python/main.py` and the `FileUpload.java` controller are not part of this model. They are presentation data, SQL run by an unseen database, and a controller over an unseen service.

## Notes on the code

- The result cards show `p.title`, not the display name used for matching. A product found through its `name` alone therefore gets an empty heading and `alt` text (`ProductSearch.Card`).
- The page echoes the raw `q` parameter, not the normalized query.
- Malformed percent-escapes and invalid UTF-8 in `location.search` decode as the WHATWG standards prescribe: the `%` is kept literally, and invalid bytes become U+FFFD. The model follows the code and the standards here.
- Every file name containing "sweatshirt" also contains "tshirt", so the T-shirt stock photos are tried first for sweatshirts (`Attempts.SweatshirtTriesTshirtFirst`). This follows from the table's order and is stated as a property, not as a defect.

## Findings

| source | as written | input that shows it | evidently intended | confidence | as-written member | corrected member |
|---|---|---|---|---|---|---|
| python/scrapping.py:184-193 | the body is streamed straight into the final path. If the stream raises, or `os.remove` of an undersized file raises, the partial file stays. The next attempt on the same target sees it and returns (True, "existant") | first URL answers `image/jpeg` and the body breaks off after 100 bytes; a second URL follows | only a complete image of at least 1024 bytes should ever remain at the target or count as success | not executed | Attempts.PartialFileCountsAsSuccess | Attempts.CorrectedSuccessMeansFullFile |

The model carries both behaviours through `Downloader.Cleanup`. `AsWritten` is the code as written. `DiscardPartial` never leaves a failed download behind, as if the body were written under a temporary name and moved into place after the size check. Every loop (`Attempts.TryInOrder`, `Attempts.AttemptFound`, `Attempts.DownloadWithFallback`) takes the policy as a parameter, and its contracts hold under both.
