# Nepremicnine.net listing scraper — a Dafny model

This project models the core of `scraper.js`, a crawler that walks the paged
real-estate listings of nepremicnine.net and writes one CSV row per listing.
It covers three parts of the scraper:

- **The listing parser** (`parseResults`). It splits the whitespace-collapsed
  text of a listing on single spaces and locates fields by marker tokens:
  - the room count comes from the first token containing `-sobno`;
  - the price comes from the token before the first `€`;
  - the renovation year comes from the token two after `adaptirano`. It is
    nulled for layout words and for buildings newer than 2016;
  - the offer type is private (`Zasebna`) or agency (`Agencija`);
  - the house subtype is the token after `Hiša,`.

  The parser also stamps each listing with the run-wide id counter.
- **The page context** `scrapeCurrentPage` reads off the page address:
  - the region (`lokacija`) comes from the regular expression
    `oglasi-prodaja/([^/]+)`;
  - the category (`tip`) is the sixth `/`-separated piece of the address;
  - the area text is normalised.
- **The crawl** (`scrapeWebsite` with `saveToCsv`). The file is truncated and
  the counter set to 1. Then every page of every seed is parsed and appended,
  one `saveToCsv` call per page. The header record is written only on a save
  where the counter equals 26.

The JavaScript built-ins the parser relies on are stated in `js_text.dfy`,
exactly for the `$`-free replacement strings the scraper uses (JavaScript's
`replace` would expand `$&` or `$$` inside the replacement; that is not
modelled):

- `replace` with a string pattern rewrites only the first occurrence;
- `split` on one character always returns at least one piece;
- `indexOf` returns -1 when the value is absent.

Reading an array slot that does not exist and calling `.replace` on the
resulting `undefined` throws a TypeError. The source catches it nowhere, so
the run aborts. The model returns these cases as `Err` values, and the crawl
stops with the rows written so far.

Files:

- `wrappers.dfy`: `Option`, `Result`, and `Sequence`, the first-error
  collection over a list of results.
- `js_text.dfy`: the string and array built-ins, and decimal digit strings.
- `page_context.dfy`: region, category, and area normalisation.
- `listing_parser.dfy`: the field parser, one listing, and one page.
- `crawl.dfy`: page extraction, the CSV sink, the header rule, and the fold
  over seeds and pages.

The crawl fold takes the page parser as a function value. Its lemmas hold
for any parser that numbers a page's listings on from the counter it is
given. `Crawl.ParsePageNumbers` shows that the scraper's own parser is such a
parser.

Points where the code's behaviour is easy to misread, and which the model
reproduces as the code is written:

- **Header record.** The header is written only by a save made when the
  counter, already advanced past the page, equals 26 (see Findings).
- **Price cleanup.** The first `",00"` in the price token is stripped,
  wherever it occurs in the token, not only at its end.
- **Renovation guard.** The guard compares a string or `undefined` with the
  number -1. That comparison is always unequal, so the guard always passes.
  Without `adaptirano` the code reads token 1.
- **Region and category.** They are derived from the current address on
  every page, not once per seed.

## Model

| member | source | states |
|---|---|---|
| JsText.IndexOf | scraper.js:82 | the position `replace` acts on: -1 iff the pattern occurs nowhere, otherwise the leftmost position where it occurs |
| JsText.Includes | scraper.js:113 | `includes` on a string holds iff the pattern occurs at some position |
| JsText.ReplaceFirst | scraper.js:82 | `replace` with a string pattern: unchanged when the pattern is absent, otherwise only the leftmost occurrence is rewritten |
| JsText.ReplaceFirstAfterCleanPrefix | scraper.js:124 | when the text before a marker holds none of the marker's first character, that marker is the leftmost occurrence and `replace` rewrites exactly it, keeping any later copy |
| JsText.Split | scraper.js:105 | `split` on one character: at least one piece, no piece holds the separator, and joining the pieces back gives the input |
| JsText.SplitJoin | scraper.js:64 | splitting the join of separator-free pieces gives back exactly those pieces, so the decomposition is unique |
| JsText.ArrayIndexOf | scraper.js:114 | `indexOf` on an array: -1 iff the value is absent, otherwise the first index holding it |
| JsText.ArrayIndexOfFirst | scraper.js:116 | an index that holds the value, with no earlier index holding it, is the one `indexOf` returns |
| JsText.FindIndexIncluding | scraper.js:113 | `findIndex(w => w.includes(p))`: -1 iff no token contains `p`, otherwise the first token that does |
| JsText.DecimalValueShow | scraper.js:142 | reading a rendered natural number back as a decimal string gives the number |
| JsText.DecimalValueBound | scraper.js:142 | a numeral of n digits denotes less than 10^n |
| PageContext.Region | scraper.js:60-62 | `""` iff the expression matches nowhere; otherwise the result is a non-empty `/`-free run that follows the leftmost `oglasi-prodaja/` not directly followed by `/`, and it ends at a `/` or at the end |
| PageContext.RegionGroup | scraper.js:61-62 | at a match, the captured group is non-empty and sits right after the marker |
| PageContext.Category | scraper.js:64-65 | the category never contains `/` |
| PageContext.CategoryOfPieces | scraper.js:64-65 | for an address built from `/`-free pieces, the category is the sixth piece, or `""` when there are at most five |
| PageContext.NormaliseArea | scraper.js:82 | the result is the text with its leftmost `" m2"` dropped and then the leftmost `,` of that made `.`, each left alone when absent; it is 3 shorter exactly when `" m2"` occurs, and text with neither is kept as is |
| PageContext.NormaliseAreaDecimal | scraper.js:82 | `"75,5 m2"`-shaped text becomes `"75.5"` |
| PageContext.NormaliseAreaWhole | scraper.js:82 | `"120 m2"`-shaped text becomes `"120"` |
| ListingParser.At | scraper.js:120 | an array read gives the element inside the array and `undefined` outside it |
| ListingParser.Columns | scraper.js:105 | the tokens are space-free and join back to the listing text |
| ListingParser.RoomCount | scraper.js:113 | null iff no token contains `-sobno`; otherwise the first such token with its first `-sobno` removed and its first `,` made `.` |
| ListingParser.RoomCountDecimal | scraper.js:129-132 | a leading `"2,5-sobno"`-shaped token yields `"2.5"` |
| ListingParser.OfferTypeOf | scraper.js:115 | private iff some token is exactly `Zasebna`, agency iff none is |
| ListingParser.CleanPrice | scraper.js:124-128 | the cleaned price holds no comma. It is a prefix of the token after the first `",00"` and then the first `"` are dropped, and it is cut exactly at the first remaining comma |
| ListingParser.CleanPriceTwoDecimals | scraper.js:124-128 | an amount with two decimal digits, `",00"` or otherwise, is cut to its whole part |
| ListingParser.Price | scraper.js:116-125 | null iff no token is `€`; an error iff `€` is token 0; otherwise the cleaned token just before the first `€`, with no comma |
| ListingParser.HouseSubtype | scraper.js:118-121 | absent unless the category is `hisa`; otherwise the token after the first `Hiša,`, absent when that marker is last, and token 0 when the marker is missing |
| ListingParser.StripRenovation | scraper.js:136 | the token with its leftmost `,` dropped and then the leftmost `"` of that dropped, each left alone when absent; one shorter for each present, and clean tokens unchanged |
| ListingParser.RenovationCandidate | scraper.js:134-137 | never null, because the guard always passes. Without `adaptirano` it is the cleaned token 1, and the undefined-token error at index 1 when there is no token 1. With `adaptirano` it is the cleaned token two after the first one, and the undefined-token error at that index exactly when it is past the end |
| ListingParser.BuildYearAfter2016 | scraper.js:142 | `leto_gradnje > 2016` with the build year read as a number only when it is all digits: then it holds only for a numeral of at least four digits, and it never holds for other text (see Left out) |
| ListingParser.BuildYearAfter2016Show | scraper.js:142 | a build year written as a plain number compares above 2016 exactly when the number does |
| ListingParser.Renovation | scraper.js:134-145 | an error iff the candidate errs, and then the candidate's own error; otherwise null iff the candidate is a noise word or the build year is after 2016; otherwise the candidate |
| ListingParser.RenovationByBuildYear | scraper.js:138-145 | with `adaptirano` present, a build year after 2016 nulls the value, and one up to 2016 keeps the cleaned token unless it is a noise word |
| ListingParser.ParseListing | scraper.js:103-159 | fails iff the price or the renovation read fails; the price error takes precedence, and otherwise the error is the renovation read's. A record carries the given id and copies category, region, title, area and build year. In a record: the offer is private iff a token is `Zasebna`; the price is null iff no token is `€`; the room count is null iff no token contains `-sobno`; a house subtype appears only for `hisa`; the renovation year is null when the building is after 2016. Each of the offer type, price, room count, house subtype and renovation year is exactly the value the field's own member (`OfferTypeOf`, `Price`, `RoomCount`, `HouseSubtype`, `Renovation`) gives for the listing's tokens |
| ListingParser.PageOutcomes | scraper.js:103 | one parse per block, in order, the i-th with the counter plus i |
| ListingParser.ParseResults | scraper.js:102-161 | on success, one record per block, in order, the i-th being the i-th block's record with id counter+i, and the counter advances by the number of blocks. It fails iff some block fails, with the error of the first failing block |
| Wrappers.Sequence | scraper.js:103 | all results succeed iff the collection succeeds, giving their values in order; otherwise it gives the first error |
| Crawl.ScrapeCurrentPage | scraper.js:58-89 | one entry per listing block, in order, each with the page's region and category, the block's title, text and build year, and the normalised area |
| Crawl.Start | scraper.js:10-13 | the file starts empty and the counter at 1, in step with each other |
| Crawl.SaveToCsv | scraper.js:181-198 | appends one flush holding exactly the page's rows, with the header flag set iff the counter is 26 (as written) or the file is empty (corrected), and keeps the counter |
| Crawl.ParsePage | scraper.js:27-29 | a parsed page has one listing per block, numbered on from the counter, and moves the counter past them |
| Crawl.ParsePageNumbers | scraper.js:148 | the scraper's parser numbers every page's listings on from the counter it is given |
| Crawl.ProcessPage | scraper.js:40-43 | a failing page leaves the file alone and reports the page's error. A successful page appends one flush holding its batch, leaves the counter after the batch, and sets the header by the rule |
| Crawl.ProcessPageConsistent | scraper.js:148 | a processed page keeps the ids 1..N in write order and the counter at N+1 |
| Crawl.AllPages | scraper.js:18-50 | the pages to visit, seed after seed, starting with the first seed's first page |
| Crawl.AllPagesOneSeed | scraper.js:18-50 | one seed is crawled as its first page followed by the pages its next-page link reaches; with `AllPagesAppend` this fixes the whole page list |
| Crawl.AllPagesAppend | scraper.js:18-53 | the pages of two seed lists are those of the first, then those of the second |
| Crawl.RunPages | scraper.js:18-53 | the file only grows. A finished run adds one flush per page; an aborted run adds fewer and stops at the page whose parse fails, with that page's error |
| Crawl.RunPagesConsistent | scraper.js:10 | a run that starts in step ends in step, finished or aborted |
| Crawl.RunPagesStep | scraper.js:33-50 | after a successful first page the run continues from the state that page leaves |
| Crawl.ReplayFirst | scraper.js:27-30 | the first flush of a run is what processing its first page yields |
| Crawl.RunPagesReplay | scraper.js:40-43 | flush k is exactly what processing page k yields on the file written before it |
| Crawl.RunPagesAppend | scraper.js:18-53 | running two lists of pages is running the first, then the second from where it ended, unless the first aborted |
| Crawl.ScrapeWebsite | scraper.js:12-53 | a finished run writes one flush per page of every seed; an aborted run writes fewer |
| Crawl.ScrapeWebsiteIds | scraper.js:148 | over the whole run, aborted or not, the ids are exactly 1..N in write order, and the counter ends at N+1 |
| Crawl.RunFlush | scraper.js:42-43 | flush k holds page k parsed with the counter one past the rows before it, and its header flag follows the rule with the counter after it |
| Crawl.HeaderAsWritten | scraper.js:181-197 | as written, a flush carries the header iff exactly 25 rows have been written up to and including it |
| Crawl.HeaderFirstIff25 | scraper.js:181-197 | as written, the first flush carries the header iff the first page holds 25 listings |
| Crawl.HeaderAtMostOnce | scraper.js:181-197 | as written, when no page is empty, at most one flush carries the header |
| Crawl.HeaderLineIff | scraper.js:181-197 | the file holds a header line iff one of its saves wrote the header |
| Crawl.HeaderPresentIff25 | scraper.js:181-197 | as written, the file holds a header line iff the rows written reach exactly 25 at the end of some page, so a run that steps over 25 never gets one |
| Crawl.SinglePageHeaderMissing | scraper.js:181-197 | as written, a single page of other than 25 listings writes its rows and no header line |
| Crawl.AsWrittenHeaderMissing | scraper.js:181-197 | as written, one seed with one page of other than 25 listings gives a file of that many data lines and no header line |
| Crawl.FirstFlushHeaderOnce | scraper.js:181-197 | with the corrected rule, only the first flush carries the header, and a non-empty file starts with the header line and holds no other |
| Crawl.ScrapeWebsiteHeaderOnce | scraper.js:181-197 | the corrected rule on the scraper itself: a non-empty file starts with the header line and holds no other |
| Crawl.RunPagesRulesAgree | scraper.js:198 | the two header rules write the same rows and the same number of flushes, and end the same way with the same error |
| Crawl.ScrapeWebsiteRulesAgree | scraper.js:198 | the same for the whole run: the same rows, flush count, counter, ending and error, so the rule only decides where the header line goes |
| Crawl.ScrapeWebsiteSeedAfterSeed | scraper.js:18-53 | running a list of seeds is running its first part, then, unless that aborted, the rest from the state it left |

## Left out

- Browser work is not modelled: launch, user agent, `goto`, viewport, waiting for selectors, DOM queries and clicking the next-page link. A seed is modelled as its first page followed by the pages the next-page link reaches. Each page is its address and its listing blocks, as the DOM queries would deliver them.
- Crawl.ScrapeCurrentPage: trimming the heading and list items and collapsing whitespace in the text are done by the browser. A block arrives with those strings already extracted. A missing description list, which makes `$eval` throw, and a `waitForSelector` time-out are not modelled.
- The random pacing delay between pages is not modelled. It is timing only.
- CSV writing is not modelled: the `csv-writer` library, file appends, quoting, and `truncateSync` failing on a missing file. The file is a sequence of flushes, each a header flag and the page's rows.
- The seed list and the query suffix come from `./options`, which is not part of this model. Seeds are an input sequence, and each page's address is taken as given.
- ListingParser.RoomCount: returns the normalised text handed to `parseFloat`, not the floating-point number `parseFloat` produces.
- ListingParser.BuildYearAfter2016: JavaScript's `>` coerces the build-year text with `Number()`. The model reads only non-empty strings of decimal digits as numbers and treats every other text as not after 2016. Signs, decimals, exponents, hexadecimal, `Infinity` and surrounding blanks, which `Number()` accepts and which can compare above 2016 (`"2017.5"`, `"0x7E1"`), are not covered.
- Crawl.RunPages: on an aborted page, the state kept is the one before that page. The source has already advanced its counter for the listings mapped before the throw, but the exception ends the run, so that counter is never read again.
- Crawl.HeaderAtMostOnce: requires every page to hold at least one listing. The source never saves an empty page: `page.waitForSelector(".property-details")` (scraper.js:67) throws on a page without a listing and ends the run before `saveToCsv`. The model does not reproduce that time-out and lets an empty page through as a zero-row flush; only on such a flush can the counter stay at 26 over two saves and the header be written twice, so the requirement holds for every page the source saves.

## Findings

| source | as written | input that shows it | evidently intended | confidence | as-written member | corrected member |
|---|---|---|---|---|---|---|
| scraper.js:181 | the header record is written on a save only when the counter, already advanced past the page, equals 26 | one seed whose only page holds 2 listings: the file gets 2 data lines and no header line | the header is written once, in front of the first rows of the run | not executed | Crawl.AsWrittenHeaderMissing | Crawl.ScrapeWebsiteHeaderOnce |
