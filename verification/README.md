# web_scrapper in Dafny

A model of the sequential core of the `web_scrapper` Python project. That project is a small scraper built on `requests` and BeautifulSoup, with these parts:

- **`WebScraper` class (`web_scraper.py`).**
  - `extract_text_content` produces the page title and a whitespace-normalised body text.
  - `extract_links` lists every anchor `href`, resolved against a base URL.
  - `scrape_single_page` builds the record for one page.
  - `save_to_csv` writes a list of records through `csv.DictWriter`.
- **Example drivers (`advanced_scraper_example.py`).**
  - The headline collector tries a list of CSS selectors and keeps long, stripped texts.
  - The product collector has three first-match-wins selector lists, a 500-character description cut and the image `src` list. It skips pages that fail to load.
  - The pagination loop is capped at five pages. It stops on a failed fetch or on a page without a "Next" link.

The model has seven modules, one per file:

- **`Wrappers`**: `Option`.
- **`Seqs`**: generic facts about sequence concatenation that the proofs use.
- **`Strings`**:
  - Python `str.isspace()` is an explicit character set, and the `str.splitlines()` boundaries are another.
  - It defines `strip()`, `sep.join` and `str(n)`, plus the "skeleton" of a string: its non-whitespace characters, in order.
- **`Cleanup`**: the three statements that normalise the page text.
- **`Html`**: the parsed page.
  - The page is an immutable tree `Text(s) | Elem(tag, attrs, children)`.
  - It covers the BeautifulSoup queries the scraper uses: `find`, `find_all`, `get_text`, `.string` and `Tag.get`.
  - The in-place `decompose()` of `script`/`style` elements becomes a pure filter.
- **`WebScraper`**: the class's methods.
- **`AdvancedExamples`**: the three drivers.

Everything outside the program is a function parameter:

- The network: `fetch: string -> Option<Document>`, where `None` is a failed request.
- CSS-selector evaluation: `select: (Document, string) -> seq<Node>`.
- `urljoin`.
- The clock reading.

The pagination loop and the product loop are stated over what one iteration yields. `visit: nat -> Visit` is the outcome for each page number. `build` makes a product record from a fetched page. The concrete driver instantiates these with one lambda: `Paginate`, `ScrapeWithPagination` and `ScrapeProductInfo`.

## Model

| member | source | states |
|---|---|---|
| Strings.Strip | web_scraper.py:80 | `strip()` yields a string that neither starts nor ends with whitespace and is no longer than its input |
| Strings.StripIsInfix | web_scraper.py:90-91 | `strip()` only removes whitespace at the two ends: the result is a contiguous piece of the input with only whitespace on each side |
| Strings.StripKeepsShape | web_scraper.py:90-91 | `strip()` keeps the non-whitespace characters in order. It keeps a string free of line breaks and of two-space runs, and leaves an already stripped string unchanged |
| Strings.NonSpaceJoin | web_scraper.py:92 | joining with a whitespace separator keeps exactly the parts' non-whitespace characters, in order |
| Strings.NatToStringRoundTrip | advanced_scraper_example.py:117 | `str(page)` loses nothing: parsing the numeral gives the number back |
| Strings.NatToStringInjective | advanced_scraper_example.py:117 | different page numbers give different numerals |
| Cleanup.FirstBreak | web_scraper.py:90 | locates the first line boundary: none before it, and a boundary character at it |
| Cleanup.SplitLines | web_scraper.py:90 | `splitlines()` yields lines without boundary characters. It yields no lines exactly for the empty text, and the whole text as one line when there is no boundary. No non-whitespace character is lost |
| Cleanup.FirstBreakIs | web_scraper.py:90 | when a boundary character follows a boundary-free prefix, the first boundary is there |
| Cleanup.SplitLinesCut | web_scraper.py:90 | `splitlines()` cuts at the first boundary character: the boundary-free text before it is the first line, and the remaining lines are those of the text after it (a `\r` that opens `\r\n` excepted) |
| Cleanup.SplitLinesCrlf | web_scraper.py:90 | a `\r\n` pair is one boundary: it ends the line before it and opens no empty line of its own |
| Cleanup.SplitLinesJoin | web_scraper.py:90 | the inverse direction: a text whose only boundaries are `\n` and which does not end with one is restored by joining its lines with `\n` |
| Cleanup.FirstDouble | web_scraper.py:91 | locates the first two-space occurrence: there is none before it, and one is at it |
| Cleanup.SplitDouble | web_scraper.py:91 | `split("  ")` gives at least one piece, and none holds a two-space run. Joining the pieces back with the two-space string restores the line |
| Cleanup.SplitDoubleKeepsLines | web_scraper.py:91 | splitting a line without line breaks yields pieces without line breaks |
| Cleanup.SplitDoubleWhole | web_scraper.py:91 | a line without a two-space run is split into itself alone |
| Cleanup.SplitDoubleCut | web_scraper.py:91 | `split("  ")` cuts at the leftmost two-space occurrence: a prefix holding none, and not ending in a space, is the first piece, and the pieces after it are those of the rest |
| Cleanup.StripEach | web_scraper.py:90-91 | stripping every element keeps the count and the non-whitespace characters, makes every element stripped, and keeps the absence of line breaks and of two-space runs |
| Cleanup.StripEachAt | web_scraper.py:90-91 | the i-th stripped element is the i-th input element, stripped |
| Cleanup.StripEachCons | web_scraper.py:90-91 | the first element is stripped ahead of the others |
| Cleanup.SplitEach | web_scraper.py:91 | the flattened pieces of all lines hold no two-space run and keep all non-whitespace characters in order. They have no line breaks when the lines had none |
| Cleanup.SplitEachAppend | web_scraper.py:91 | the pieces of a list of lines are the pieces of each line, concatenated in line order |
| Cleanup.SplitEachOne | web_scraper.py:91 | one line gives exactly its `split("  ")` pieces |
| Cleanup.SplitEachCons | web_scraper.py:91 | the first line's pieces come ahead of those of the other lines |
| Cleanup.DropEmpty | web_scraper.py:92 | a chunk is kept exactly when it is a non-empty chunk of the input. No more chunks come out than went in, and no non-whitespace character is dropped |
| Cleanup.DropEmptyAppend | web_scraper.py:92 | dropping empty chunks works piecewise, so the kept chunks stay in input order |
| Cleanup.JoinWithSpaceShape | web_scraper.py:92 | joining non-empty, stripped, single-line chunks with one space gives a stripped single line without two-space runs, and a non-empty one when there were chunks |
| Cleanup.CleanShape | web_scraper.py:90-92 | the cleaned content never starts or ends with whitespace, holds no line break and never holds two consecutive spaces |
| Cleanup.CleanKeepsSkeleton | web_scraper.py:90-92 | the clean-up only rearranges whitespace: the non-whitespace characters of content and text are the same, in the same order |
| Cleanup.CleanEmptyIff | web_scraper.py:90-92 | the content is empty exactly when the text is all whitespace |
| Cleanup.CleanIdempotent | web_scraper.py:90-92 | cleaning already cleaned content returns it unchanged |
| Cleanup.CleanFixes | web_scraper.py:90-92 | text that is already stripped, on one line and free of two-space runs comes out unchanged |
| Cleanup.CleanSeparatesLines | web_scraper.py:90-92 | two clean phrases on separate lines come out joined by exactly one space: words of different lines are kept apart |
| Cleanup.CleanSeparatesDouble | web_scraper.py:91-92 | two clean phrases separated by a two-space run come out joined by exactly one space |
| Html.Descendants | web_scraper.py:63 | the tree walk behind `find`/`find_all` visits every top-level node, and at least as many nodes as there are top-level nodes |
| Html.DescendantsAppend | web_scraper.py:63 | the walk of a node list is the walks of its parts, concatenated in document order |
| Html.DescendantsClosed | web_scraper.py:63 | the walk reaches every child of every element it reaches |
| Html.DescendantsSound | web_scraper.py:63 | the walk reaches nothing else: each node reached is a top-level node or a child of a node reached |
| Html.TextIsLeavesInOrder | web_scraper.py:87 | `get_text()` is exactly the text leaves of the tree concatenated in document order |
| Html.Filter | web_scraper.py:63 | `find_all` returns exactly the matching nodes of the walk, each one matching, and no more of them than nodes walked |
| Html.FilterAppend | web_scraper.py:63 | filtering works piecewise, so `find_all` keeps document order |
| Html.FirstOf | web_scraper.py:79 | `find` finds nothing exactly when no node matches; what it finds is a matching node of the walk |
| Html.FirstOfIsEarliest | web_scraper.py:79 | `find` returns the matching node of smallest document-order index |
| Html.FirstOfIsFilterHead | web_scraper.py:79 | `find` is the first result of `find_all`, or nothing when that is empty |
| Html.GetAttr | advanced_scraper_example.py:97 | `Tag.get(name)` is present exactly for an element carrying the attribute, and is its value |
| Html.StringOf | advanced_scraper_example.py:130 | `.string`, when present, is the node's whole text |
| Html.StripScriptsRemovesAll | web_scraper.py:83-84 | after the `decompose()` loop no `script` or `style` element is left anywhere in the tree |
| Html.StripScriptsKeepsClean | web_scraper.py:83-84 | a tree without `script` and `style` elements is left as it is |
| Html.StripScriptsIdempotent | web_scraper.py:83-84 | removing twice is the same as removing once |
| Html.HiddenSubtreeSilent | web_scraper.py:83-87 | no text under a `script` or `style` element is visible |
| Html.StrippedTextIsVisibleLeaves | web_scraper.py:83-87 | the text after the removal is exactly the text of the leaves not enclosed by a `script` or `style` element, in document order |
| WebScraper.ExtractShape | web_scraper.py:78-97 | the title is "No title" or a stripped string. The content is one stripped line without two-space runs |
| WebScraper.TitleRule | web_scraper.py:79-80 | the title is "No title" when the page has no `title` element. Otherwise it is the stripped text of the first `title` element in document order, looked up before the removal of `script`/`style` |
| WebScraper.ContentRule | web_scraper.py:83-92 | the content is the clean-up of the text leaves outside `script` and `style` elements, in document order |
| WebScraper.ContentEmptyIff | web_scraper.py:83-92 | the content is empty exactly when the visible text is all whitespace, and it keeps every non-whitespace character of that text in order |
| WebScraper.ScriptTextExcluded | web_scraper.py:83-87 | text inside `script`/`style` elements, at any depth, never reaches the content: a page whose every text leaf outside such elements is blank has empty content |
| WebScraper.VisibleTextAllSpace | web_scraper.py:87 | when every visible text leaf is whitespace, so is the visible text |
| WebScraper.StripScriptsAppend | web_scraper.py:83-84 | removing `script`/`style` elements works piecewise over the page's top-level nodes |
| WebScraper.StripScriptsKeepsLeaves | web_scraper.py:83-84 | every text leaf left after the removal was a text leaf of the page |
| WebScraper.ResolveAll | web_scraper.py:63-66 | one resolved URL per anchor, in order, each `urljoin(base, href)` |
| WebScraper.ExtractLinks | web_scraper.py:62-66 | `extract_links` gives one URL per `a` element with an `href`, in document order, each `urljoin(base, href)`, with no filtering or removal of duplicates |
| WebScraper.LinksCoverAnchors | web_scraper.py:62-66 | a URL is listed exactly when some anchor of the page with an `href` resolves to it |
| WebScraper.ScrapeSinglePage | web_scraper.py:109-119 | the record is `None` exactly when the fetch fails. Otherwise it has the exact input URL, the clock reading, and the title and content `extract_text_content` gives for the page |
| WebScraper.Keys | web_scraper.py:133 | `data[0].keys()`: one key per pair, in insertion order |
| WebScraper.Lookup | web_scraper.py:135 | a dictionary lookup finds nothing exactly when the key is absent |
| WebScraper.LookupFirst | web_scraper.py:135 | the value found is that of the first pair with the key |
| WebScraper.RowCells | web_scraper.py:135 | `DictWriter` writes one cell per column: the row's value for the column, or the empty string when the row lacks the key |
| WebScraper.HasExtraKeyIff | web_scraper.py:135 | `DictWriter` refuses a row exactly when one of its keys is not a column |
| WebScraper.WriteRows | web_scraper.py:135 | `writerows` writes rows until the first refused row. It fails exactly when some row is refused, and then it fails at the row just past the written lines. Every written row was accepted |
| WebScraper.WriteRowsAt | web_scraper.py:135 | the i-th written line holds the cells of the i-th row |
| WebScraper.SaveToCsv | web_scraper.py:127-135 | nothing is written exactly for an empty list. Otherwise the header is the first row's keys in order. The write fails exactly when some row has a key outside the header. On success there is one line per row; on failure there are the lines of the rows before the first refused row, none of them refused. Each line holds its row's cells |
| WebScraper.ZipIndex | web_scraper.py:133-135 | pairing the header with a line pairs each column with its cell |
| WebScraper.CellsRoundTrip | web_scraper.py:133-135 | pairing a row's keys with its written cells gives the row back when its keys are distinct |
| WebScraper.CsvRoundTrip | web_scraper.py:127-135 | when every row has the first row's keys in the same order, every row is written, and each line paired with the header gives its row back |
| WebScraper.RecordCells | web_scraper.py:113-117 | the line written for one page record holds url, timestamp, title and content in that order |
| WebScraper.SingleRecordCsv | web_scraper.py:155 | saving one page record writes the header url,timestamp,title,content and the record's four values |
| AdvancedExamples.SelectOne | advanced_scraper_example.py:73 | `select_one` finds nothing exactly when `select` is empty, and otherwise finds its first element |
| AdvancedExamples.HeadlinesFrom | advanced_scraper_example.py:29-37 | each selector gives at most one record per matched element. Every record carries that selector and the page URL, and its headline is stripped and longer than ten characters |
| AdvancedExamples.HeadlinesFromSound | advanced_scraper_example.py:30-37 | every record of a selector comes from a matched element whose stripped text passes the length filter |
| AdvancedExamples.HeadlineSource | advanced_scraper_example.py:30-37 | names the matched element a record comes from: the record is that element's stripped text with the selector and page URL, and passes the length filter |
| AdvancedExamples.HeadlinesFromComplete | advanced_scraper_example.py:30-37 | every matched element whose stripped text passes the length filter gives a record |
| AdvancedExamples.HeadlinesFromMembership | advanced_scraper_example.py:30-37 | a selector yields a record exactly for each matched element whose stripped text passes the length filter |
| AdvancedExamples.HeadlinesFromCons | advanced_scraper_example.py:30-37 | the first matched element contributes its record, when its stripped text passes the length filter, ahead of those of the rest |
| AdvancedExamples.HeadlinesFromAppend | advanced_scraper_example.py:30-37 | the records of a selector follow the order of its matches: those of earlier matched elements come first |
| AdvancedExamples.HeadlinesSelectorMajor | advanced_scraper_example.py:28-37 | records come selector by selector: those of an earlier selector precede those of a later one, and duplicates across selectors are kept |
| AdvancedExamples.HeadlineMembership | advanced_scraper_example.py:28-37 | a record exists exactly for each listed selector and each element it matches whose stripped text is longer than ten characters |
| AdvancedExamples.ScrapeNewsHeadlines | advanced_scraper_example.py:14-39 | `None` exactly when the page cannot be fetched. Otherwise every record carries the page URL and a listed selector, and a stripped headline of more than ten characters. The list is exactly `CollectHeadlines` over the fetched page, so `HeadlinesSelectorMajor` and `HeadlineMembership` fix its order and contents |
| AdvancedExamples.FirstMatchWins | advanced_scraper_example.py:71-76 | the field comes from the first element of the earliest selector that matches anything |
| AdvancedExamples.FirstMatchNone | advanced_scraper_example.py:71-76 | no element is selected exactly when no selector of the list matches |
| AdvancedExamples.LaterSelectorsIgnored | advanced_scraper_example.py:72-76 | selectors after the first matching one are never consulted: changing their results changes nothing |
| AdvancedExamples.FieldText | advanced_scraper_example.py:71-75 | a product field is always a stripped string |
| AdvancedExamples.FieldTextRule | advanced_scraper_example.py:64-75 | a product field is the stripped text of the first element of the earliest selector that matches anything, and `''` when no selector matches |
| AdvancedExamples.Truncate | advanced_scraper_example.py:91 | `s[:n]` is the prefix of length min(len(s), n) |
| AdvancedExamples.ImageSources | advanced_scraper_example.py:95-98 | at most one entry per image, none of them empty |
| AdvancedExamples.ImageSourcesMembership | advanced_scraper_example.py:96-98 | a value is listed exactly when it is the non-empty `src` of one of the images |
| AdvancedExamples.ImageSourcesAppend | advanced_scraper_example.py:96-98 | images are listed in document order: the list for two consecutive runs of images is the two lists concatenated |
| AdvancedExamples.PageImagesRule | advanced_scraper_example.py:95-98 | a value is among a page's images exactly when some `img` element of the page carries it as a non-empty `src` |
| AdvancedExamples.ProductOf | advanced_scraper_example.py:62-98 | a product record carries its URL, stripped title and price, a description of at most 500 characters and non-empty image sources. Title, price and description are `FieldText` over their selector lists, so `FieldTextRule` fixes them, and the images are those `PageImagesRule` describes |
| AdvancedExamples.FetchedUrls | advanced_scraper_example.py:56-59 | at most one entry per listed URL |
| AdvancedExamples.FetchedUrlsMembership | advanced_scraper_example.py:56-59 | a URL is kept exactly when it is listed and its fetch succeeds |
| AdvancedExamples.FetchedUrlsAppend | advanced_scraper_example.py:56-59 | the URLs whose fetch succeeds keep the order of the list |
| AdvancedExamples.FetchedUrlsCons | advanced_scraper_example.py:56-59 | the first URL is kept, when its fetch succeeds, ahead of the others |
| AdvancedExamples.CollectProducts | advanced_scraper_example.py:56-100 | at most one product per URL |
| AdvancedExamples.ProductsFollowUrls | advanced_scraper_example.py:56-100 | one product per URL whose fetch succeeds, in the order of the URLs, each built from that URL's page |
| AdvancedExamples.ProductInfoRule | advanced_scraper_example.py:49-102 | every product comes from a listed URL whose fetch succeeded and is built from that page, with the description within 500 characters |
| AdvancedExamples.PageUrlInjective | advanced_scraper_example.py:117 | different pages are requested at different URLs |
| AdvancedExamples.VisitPage | advanced_scraper_example.py:117-130 | one pass fails exactly when the fetch of `base?page=N` fails; a loaded page's record carries its page number and that URL |
| AdvancedExamples.VisitPageRule | advanced_scraper_example.py:124-131 | a loaded page's record holds `extract_text_content` of the page, and the loop goes on exactly when the page, after the `script`/`style` removal, has an `a` element whose string is "Next" |
| AdvancedExamples.CrawlLength | advanced_scraper_example.py:112-115 | from page p on, at most 6 - p records are collected, and none past the cap of five pages |
| AdvancedExamples.CrawlAt | advanced_scraper_example.py:115-134 | the record for page p sits at index p - 1 of the run from page 1, page p loaded, and it linked onwards unless it is the last record |
| AdvancedExamples.CrawlRun | advanced_scraper_example.py:119-134 | pages that load and link onwards each add exactly one record and let the loop go on |
| AdvancedExamples.PaginationStopsOnFailure | advanced_scraper_example.py:119-121 | a failed fetch of page k ends the loop with the k - 1 earlier records and none for page k |
| AdvancedExamples.PaginationFourPages | advanced_scraper_example.py:127-132 | with pages 1 to 3 linking onwards and page 4 not, exactly four records result, and page 5 is never looked at |
| AdvancedExamples.PaginationCap | advanced_scraper_example.py:113-115 | when every page loads and links onwards, the cap stops the loop after five records |
| AdvancedExamples.PaginateAt | advanced_scraper_example.py:117-127 | the i-th record (from 0) is for page i + 1 at `base?page=i+1`, which was fetched, and holds `extract_text_content` of that page |
| AdvancedExamples.PaginateShape | advanced_scraper_example.py:111-136 | at most five records, the i-th for page i + 1 at its URL, which was fetched |
| AdvancedExamples.PaginationLoop | advanced_scraper_example.py:111-136 | the `while` loop collects exactly the records of the recursive description of the run |
| AdvancedExamples.ScrapeWithPagination | advanced_scraper_example.py:104-136 | the pagination driver, crawling `https://httpbin.org/html`, collects exactly the records of the run against `fetch` from that base URL |

## Left out

- Network access, the `requests` session, the User-Agent header, `raise_for_status` and the `time.sleep` delay (web_scraper.py:17-21, 37-49) are left out: they are I/O and timing. A fetch is the parameter `fetch`, and `None` stands for any `RequestException`. Because `fetch` is a function of the URL, a URL requested twice gets the same outcome both times, where two real requests could differ. The drivers never repeat a URL: `ProductUrls` has one entry, and `PageUrlInjective` shows each page has its own URL.
- HTML parsing (`BeautifulSoup(response.content, 'html.parser')`) is left out. The model starts from the parsed tree, and only text and element nodes are modelled. Comments, doctypes and CDATA are left out.
- CSS-selector evaluation (`soup.select`) is the parameter `select`. `select_one` is modelled as its first element.
- `urljoin` (reference resolution per section 5.2 of RFC 3986) is the parameter `urljoin`.
- The clock and the `time.strftime` format are left out: the timestamp is the parameter `now`.
- `save_to_json`, the file handling of `save_to_csv`, the CSV quoting, logging, `main`'s printing and the `__main__` blocks are left out: they are I/O and library serialisers. `save_to_csv` is modelled as the header plus the lines of cells it would write.
- Unicode character classes are fixed as explicit sets. Whitespace is the set of Python `str.isspace()` characters and line breaks are the `str.splitlines()` boundaries. There is no Unicode normalisation.
- `decompose()` mutates the parsed tree in place. The model applies a pure removal. The pagination loop's "Next" search therefore looks at the tree after the removal, as the mutated tree in the program does.
- Headline, product and pagination drivers return Python dictionaries. They are modelled as records with the same fields.
- `WebScraper.Lookup`: a Python dictionary never holds a key twice, while a `Row` may. The row-shaping lemmas ask for distinct keys (`DistinctKeys`) where that matters, and `Lookup` returns the first pair with the key.
- `Cleanup.SplitLines`: its own contract states the shape of the lines only. Where the text is cut is stated by `SplitLinesCut` and `SplitLinesCrlf`, and the join back by `SplitLinesJoin`.
- `Cleanup.SplitDouble`: its own contract does not say where the cuts fall. `SplitDoubleCut` and `SplitDoubleWhole` state it: at the leftmost two-space occurrence, from left to right.
- `Cleanup.StripEach`: its own contract does not say which element is which. `StripEachAt` states it.
- `Cleanup.SplitEach`: its own contract states the shape of the pieces only. Which pieces come out, and in what order, is stated by `SplitEachOne` and `SplitEachAppend`.
- `Cleanup.DropEmpty`: its own contract does not state the order of the kept chunks. `DropEmptyAppend` states it.
- `Html.Descendants`: its own contract states that the top-level nodes are reached. Which nodes are reached, and in what order, is stated by `DescendantsClosed`, `DescendantsSound`, `DescendantsAppend` and `DescendantsCons`.
- `Html.Filter`: its own contract states membership and the count bound. The order is stated by `FilterAppend`.
- `AdvancedExamples.HeadlinesFrom`: its own contract states the fields of each record. Which records come out is stated by `HeadlinesFromMembership`; their order by `HeadlinesFromCons` and `HeadlinesFromAppend`.
- `AdvancedExamples.FetchedUrls`: its own contract states the count bound. Membership is stated by `FetchedUrlsMembership` and the order by `FetchedUrlsAppend`.
- `get_text()` is modelled as in BeautifulSoup before version 4.9: every text leaf counts. From 4.9 on, `get_text()` skips the text held inside `script`, `style` and `template` elements (and `rt`/`rp` ruby annotations), since those are stored as separate string types. The model does not follow this. It matters where `get_text()` runs on a tree that still holds such elements: `title.get_text()` (web_scraper.py:80), the headline and product texts (advanced_scraper_example.py:31, 75, 83, 91), and `template` text in the page body (web_scraper.py:87).
