# Perfume catalog layer, modelled in Dafny

This project models the catalog layer of a chat assistant that recommends perfumes:
`GoogleSheetsService` in `src/lib/googleSheets.ts`. That service downloads a
spreadsheet published as CSV, parses it into `PerfumeData` records, keeps the result
in a static cache for five minutes (and keeps serving the old catalog when a refresh
fails), searches the catalog by name or brand, and renders entries as a short
Markdown block.

Modules, one per concern:

- `Wrappers` (`wrappers.dfy`): `Option`, for the cache slot and the outcome of a fetch.
- `Text` (`text.dfy`): the JavaScript string operations the service uses:
  `trim` (the full ECMAScript whitespace and line-terminator set), `split` on one
  character, `join`, `toLowerCase` and `includes`. `split` and `join` have
  round-trip lemmas (`JoinSplit`, `SplitJoin`). `trim` and `includes` have reference
  characterisations (`TrimCuts`, `IncludesIffOccurs`). `toLowerCase` is stated
  character by character (`LowerStr`), covers ASCII and Latin-1 capitals only (see
  "## Left out"), and is proved idempotent (`LowerStrIdempotent`).
- `CsvLine` (`csv_line.dfy`): `parseCSVLine`. It is an imperative method with
  a `for` loop over the characters, an `inQuotes` flag and a `current` buffer.
  It is proved equal to `Fields`, an independent recursive definition. Lemmas
  about `Fields` cover the field count, the content kept, the quote stripping,
  the trimming, and a round trip with a CSV writer that quotes cells holding commas.
- `Catalog` (`catalog.dfy`): the `Perfume` record and `parseCSV`. The parser is
  an imperative method over the lines, proved equal to `CatalogOf`. Lemmas say
  which lines are kept, that order is preserved, how fields map by position,
  and that an exported sheet parses back to the records it was written from.
- `CatalogSearch` (`search.dfy`): the filters `searchPerfumes` and
  `getPerfumesByBrand` apply, and `formatPerfumeInfo`.
- `SheetsService` (`service.dfy`): the class `CatalogService`. Its fields `cache`
  and `lastFetch` are the service's static fields. Its methods are
  `getPerfumeData`, `searchPerfumes` and `getPerfumesByBrand`, plus three client
  scenarios that show the cache behaviour from a caller's side.

The network and the clock are parameters. `now` is the millisecond time read on
entry, and `fetched` is the response body (`Some(text)`). It is `None` when the
request threw or answered with a non-success status.

The record type declares seasonality and occasions before price and availability.
The parser reads price from column 13, availability from 14, seasonality from 15
and occasions from 16 (src/lib/googleSheets.ts:78-81). The model follows the parser.
The code writes `'Disponível'` as the default availability, and the model uses it.

## Model

| member | source | states |
|---|---|---|
| `Text.Split` | src/lib/googleSheets.ts:55 | `text.split('\n')` yields one piece more than there are newlines, and no piece contains a newline |
| `Text.JoinSplit` | src/lib/googleSheets.ts:55 | splitting loses nothing: joining the pieces with the separator gives the text back |
| `Text.SplitJoin` | src/lib/googleSheets.ts:55 | splitting undoes joining when no part contains the separator |
| `Text.TrimCuts` | src/lib/googleSheets.ts:60 | `trim` returns a slice of its input with no whitespace at either end, and all it cuts off is whitespace |
| `Text.IncludesIffOccurs` | src/lib/googleSheets.ts:116-117 | `includes` is true exactly when the needle occurs at some position; the empty needle always occurs |
| `Text.LowerStr` | src/lib/googleSheets.ts:116-117 | `toLowerCase`: the length is kept, no capital is left, each ASCII or Latin-1 capital becomes the small letter 32 code points after it, and every other character is unchanged; only those capitals are covered, see `Text.Lower` under "## Left out" |
| `Text.LowerStrIdempotent` | src/lib/googleSheets.ts:116-117 | lowercasing an already lowercased text changes nothing |
| `CsvLine.ParseCsvLine` | src/lib/googleSheets.ts:89-109 | the character loop with `inQuotes` and `current` returns exactly `Fields(line)`, the reference tokenization |
| `CsvLine.FieldCount` | src/lib/googleSheets.ts:94-108 | the number of fields is the number of commas preceded by an even number of quotes (commas seen outside quotes), plus one; so there is always at least one field |
| `CsvLine.RawFieldsKeepText` | src/lib/googleSheets.ts:97-104 | re-joining the untrimmed fields with commas gives the line with its quotes removed: every comma inside quotes stays inside a field |
| `CsvLine.FieldsTrimmedAndUnquoted` | src/lib/googleSheets.ts:97-107 | each field is the trim of its raw field, has no whitespace at either end, and contains no double quote |
| `CsvLine.LineRoundTrip` | src/lib/googleSheets.ts:97-107 | a line whose comma-holding cells are wrapped in quotes tokenizes back to its cells, commas included |
| `Catalog.ToPerfume` | src/lib/googleSheets.ts:65-82 | every column 1 to 16 that is present and non-empty is copied into its field (`Column` fixes which field: price 13, availability 14, seasonality 15, occasions 16); a missing or empty column gives `""`, except availability, which gives `Disponível`, so availability is never empty |
| `Catalog.ToPerfumeOfCells` | src/lib/googleSheets.ts:65-82 | the mapping ignores column 0 and reads every column back into the field it was written from (price 13, availability 14, seasonality 15, occasions 16) |
| `Catalog.ParseCsv` | src/lib/googleSheets.ts:54-87 | the line loop returns exactly `CatalogOf(text)`: the records of the non-header lines that survive the filter, in line order |
| `Catalog.RowsOfAppend` | src/lib/googleSheets.ts:59-84 | the records of two consecutive runs of lines are the records of the first run followed by those of the second; order is preserved |
| `Catalog.RowsOfCons` | src/lib/googleSheets.ts:59-84 | the first line's contribution comes before everything after it |
| `Catalog.RowsOfSingle` | src/lib/googleSheets.ts:60-83 | one line contributes its record exactly when it is kept |
| `Catalog.DroppedLine` | src/lib/googleSheets.ts:60-64 | a blank line, or one with fewer than six fields, contributes nothing wherever it stands |
| `Catalog.CatalogBound` | src/lib/googleSheets.ts:55-59 | the catalog has at most as many records as the text has newlines (lines minus the header) |
| `Catalog.HeaderIgnored` | src/lib/googleSheets.ts:55-59 | the first line is skipped whatever it contains |
| `Catalog.RowRoundTrip` | src/lib/googleSheets.ts:60-83 | an exported record's line is kept and maps back to that record |
| `Catalog.RowsOfEncoded` | src/lib/googleSheets.ts:59-84 | the exported lines of a list of records parse back to that list |
| `Catalog.SheetRoundTrip` | src/lib/googleSheets.ts:54-87 | parsing the CSV text exported from a list of records (header included) gives back exactly that list, in order |
| `CatalogSearch.Search` | src/lib/googleSheets.ts:115-118 | an entry is in the result exactly when it is in the catalog and its lowercased name or brand contains the lowercased query; the result is no longer than the catalog |
| `CatalogSearch.ByBrand` | src/lib/googleSheets.ts:123-125 | an entry is in the result exactly when it is in the catalog and its lowercased brand contains the lowercased brand query |
| `CatalogSearch.SearchAppend` | src/lib/googleSheets.ts:115-118 | searching two concatenated parts gives the two parts' results in order: the search keeps catalog order |
| `CatalogSearch.ByBrandAppend` | src/lib/googleSheets.ts:123-125 | the brand filter keeps catalog order in the same way |
| `CatalogSearch.SearchEmptyQuery` | src/lib/googleSheets.ts:113-118 | the empty query returns the whole catalog unchanged |
| `CatalogSearch.SearchIgnoresQueryCase` | src/lib/googleSheets.ts:113-117 | a query and its lowercase find the same entries |
| `CatalogSearch.ByBrandWithinSearch` | src/lib/googleSheets.ts:111-126 | the brand lookup equals the brand filter of the search for the same string, so it never finds an entry the search misses |
| `CatalogSearch.BlockShowsFourFields` | src/lib/googleSheets.ts:133-136 | an entry's block depends only on its name, brand, price and availability |
| `CatalogSearch.FormatPerfumeInfo` | src/lib/googleSheets.ts:128-138 | `formatPerfumeInfo`; no contract of its own: its text is fixed by `FormatNoMatchesIff` (empty list), `FormatSingle` (one entry) and `FormatAppend` (concatenation) |
| `CatalogSearch.FormatSingle` | src/lib/googleSheets.ts:133-137 | a one-entry list prints as that entry's block alone |
| `CatalogSearch.FormatAppend` | src/lib/googleSheets.ts:133-137 | two non-empty lists print as their texts joined by one `\n---\n\n`; n entries give n blocks in order with n-1 separators |
| `CatalogSearch.FormatNoMatchesIff` | src/lib/googleSheets.ts:128-137 | the fixed no-match sentence is printed exactly for the empty list; a non-empty list starts with its first entry's bold name |
| `SheetsService.CatalogService.constructor` | src/lib/googleSheets.ts:22-23 | the initial state: nothing cached, timestamp 0 |
| `SheetsService.CatalogService.GetPerfumeData` | src/lib/googleSheets.ts:26-52 | a fresh cache is returned unchanged and nothing changes, with no fetch. Otherwise one fetch happens. On success the cache becomes the parsed text, stamped with the time read on entry, and that catalog is returned. On failure the state is untouched and the old catalog or `[]` is returned. A non-null cache never becomes null |
| `SheetsService.CatalogService.SearchPerfumes` | src/lib/googleSheets.ts:111-119 | returns the search of the catalog `getPerfumeData` serves, with the same effect on the cache |
| `SheetsService.CatalogService.GetPerfumesByBrand` | src/lib/googleSheets.ts:121-126 | returns the brand filter of the catalog `getPerfumeData` serves, with the same effect on the cache |
| `SheetsService.ReadTwiceWithinTtl` | src/lib/googleSheets.ts:30-32 | two reads less than five minutes apart after a successful fetch (the second may read an earlier clock) return the same catalog, and only one fetch happens, whatever the network would answer the second time |
| `SheetsService.StaleOnError` | src/lib/googleSheets.ts:47-50 | a failed refresh after expiry still returns the catalog of the last successful fetch |
| `SheetsService.ColdStartFailure` | src/lib/googleSheets.ts:47-50 | when the first fetch ever fails, the empty catalog is returned |

## Left out

- The HTTP `fetch` of the sheet URL and `Date.now()` (src/lib/googleSheets.ts:21, 27, 35-40) are not modelled. They become the parameters `fetched` and `now`, so the sheet URL itself does not appear.
- `async`/`Promise`: each call is modelled as running to completion with no interleaving. Two requests that refresh concurrently across an `await` are not modelled.
- `console.error` logging (src/lib/googleSheets.ts:48) has no observable effect and is left out.
- The header computation (src/lib/googleSheets.ts:56) is never read. Only its effect, skipping line 0, is modelled.
- `Text.LowerStr`: weaker than `toLowerCase`, because it lowercases only the capitals `Text.Lower` covers.
- `Text.Lower`: it maps only ASCII and Latin-1 capitals (U+00C0 to U+00DE, except U+00D7) to lower case. JavaScript's full Unicode case mapping, including mappings that change the string's length, is not modelled.
- Strings are sequences of Unicode scalar values. JavaScript strings are UTF-16 code units, so characters outside the Basic Multilingual Plane count once here and twice there. No operation modelled here depends on that length.
- A quoted cell with an embedded newline is split across lines before tokenizing, as the source does. A doubled quote (`""`) is not an escape: it toggles twice and disappears. Both behaviours are modelled as written. The round-trip lemmas therefore require cells free of quotes and newlines.
- src/app/api/chat/route.ts, src/app/page.tsx and src/components/ are not part of this model. They hold the chat endpoint that calls the language model, and the user interface. src/app/api/chat/route.ts never calls `GoogleSheetsService`. There is no cap on the number of results and no whole-catalog fallback in this code.
