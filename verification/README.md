# PManager transfer-list scraper, modelled in Dafny

The scraper logs in to the PManager football-manager site and reads the
transfer search results page by page. It keeps one row per player ID, visits
every player's page to fill in detail columns, and upserts the table into a
Google Sheets tab keyed by player ID. A second tool, the deal finder, visits
each player's negotiation page. It keeps the players whose estimated transfer
value exceeds the asking price, sorts them by that difference and sends the
top 20 to a Telegram chat.

The repository has three runners of the scraper:

- the modular JavaScript scraper (`src/`);
- the stand-alone JavaScript script (`scrape-all-with-details.js`, with `google-sheets.js`);
- the PHP script (`scrape-all-with-details.php`, with `src/GoogleSheetsManager.php`).

They differ in small ways: the ID column's name, the detail columns, which
characters `trim` and the regex `\s` cover on a given string, and whether
`"0"` counts as a value. The model keeps every
difference and names the runner (`Runner`, `Variant`, `Runtime`) where it
matters.

Modules, one per file:

| module | file | models |
|---|---|---|
| `Wrappers` | wrappers.dfy | `Option` and `Outcome` |
| `Text` | text.dfy | JavaScript and PHP truthiness, `trim`, decimal digits, search and replace, `split` and `join`, UTF-16 length |
| `SheetMerge` | sheet_merge.dfy | `upsertToSheet` in its three variants, as functions and as the source's loops |
| `Money` | money.dfy | `parseValue`, `formatValue`, `DateFormatter.formatValue` and the PHP value conversion |
| `Navigation` | navigation.dfy | the search and player URLs, the ID regex and the total-pages parser |
| `Config` | config.dfy | `validateConfig`, the scripts' credential check, the test-mode and Telegram flags |
| `PlayerMap` | player_map.dfy | the insertion-ordered map from player ID to row |
| `RowShaping` | row_shaping.dfy | header row, column mapping, row extraction, the page loop and the key index |
| `Enrichment` | enrichment.dfy | the detail phase: reading a player page and writing the detail cells |
| `Deals` | deals.dfy | negotiation values, deal selection, sorting and the top 20 |
| `Flags` | flags.dfy | how `TEST_MODE` and the Telegram settings steer the runs |
| `Telegram` | telegram.dfy | the deals message, rank labels, `splitMessage` and the send decision |

The page contents come in as data: tables of cells and link targets for
result pages, and rows and field texts for player pages. Timestamps come in
as opaque strings. Network, browser and sheet calls are not modelled. A
page that fails to load is a missing entry in a map of pages.

## Model

| member | source | states |
|---|---|---|
| Text.TrimShape | src/services/scraper.service.js:105 | the trimmed text neither starts nor ends with the runtime's trim whitespace, and it is empty exactly when the input is all such whitespace |
| Text.TrimIsInfix | src/services/scraper.service.js:105 | the trimmed text is a contiguous part of the input, and only whitespace is cut on either side |
| Text.TrimIdempotent | scrape-all-with-details.php:137 | trimming twice gives what trimming once gives |
| Text.JoinSplit | src/services/telegram.service.js:101 | joining the parts of `split("\n")` with the separator rebuilds the text |
| Text.SplitJoin | src/config/index.js:84 | splitting a join of separator-free parts gives those parts back |
| Text.UnitsAtLeastLength | src/services/telegram.service.js:81 | a string's UTF-16 `length` lies between its number of characters and twice that |
| SheetMerge.ExistingKeyColumn | src/services/google-sheets.service.js:191-196 | the key column in the sheet is the given index when it is not -1. Otherwise the service looks for the first header equal to "PlayerID", the stand-alone script (google-sheets.js:235-241) for the first header containing "_PlayerID", and PHP has no fallback |
| SheetMerge.KeyMapSpec | src/services/google-sheets.service.js:198-205 | the ID map holds exactly the truthy keys of the data rows, each mapped to a row holding it with no later row holding it |
| SheetMerge.KeyMapFindsLast | src/services/google-sheets.service.js:198-205 | a key that last appears in data row p is mapped to p |
| SheetMerge.KeyMapSlotKey | src/services/google-sheets.service.js:198-205 | two keys mapped to the same row are equal |
| SheetMerge.FoldCharacterization | src/services/google-sheets.service.js:214-225 | the merged rows are the old data rows, each holding the last batch row that overwrote it, followed by the non-matching batch rows in batch order; the added count is the number of appended rows |
| SheetMerge.SlotValueUntouched | src/services/google-sheets.service.js:217-220 | a data row that no batch row overwrites keeps its content |
| SheetMerge.SlotValueLastWriter | src/services/google-sheets.service.js:217-220 | a data row overwritten by several batch rows ends with the last of them |
| SheetMerge.SlotValueSource | src/services/google-sheets.service.js:217-220 | a merged data row is either its old content or a batch row that overwrites it |
| SheetMerge.AppendedFromBatch | src/services/google-sheets.service.js:221-224 | every appended row is a batch row whose key is not known |
| SheetMerge.AppendedPosition | src/services/google-sheets.service.js:221-224 | with distinct batch keys, a non-matching batch row is appended and no later appended row carries its key |
| SheetMerge.FoldRewritesInPlace | src/services/google-sheets.service.js:214-225 | merging rows that already sit at their mapped positions changes nothing and appends nothing |
| SheetMerge.MergeData | src/services/google-sheets.service.js:177-225 | updated plus added equals the batch size; an empty sheet is replaced by the batch; otherwise the merged rows number the old data rows plus the added ones |
| SheetMerge.Upsert | src/services/google-sheets.service.js:230-235 | the written table starts with the batch's headers, never the sheet's old header row, followed by the merged rows |
| SheetMerge.KeyMapIsKnown | src/services/google-sheets.service.js:198-205 | a key is in the ID map exactly when it is truthy and appears in the sheet's key column |
| SheetMerge.AppendedIsNewRows | src/services/google-sheets.service.js:214-225 | the appended rows are exactly the batch rows whose key is not truthy-and-known, in batch order |
| SheetMerge.UpsertIntoEmptySheet | src/services/google-sheets.service.js:177-185 | a sheet with no rows, or only a header row, is overwritten with the headers and the batch |
| SheetMerge.NewRowsAllWhenNothingKnown | src/services/google-sheets.service.js:221-224 | when no batch key is known, every batch row is new |
| SheetMerge.UpsertAppendsNewRows | src/services/google-sheets.service.js:210-235 | after the old rows come exactly the new batch rows, in batch order |
| SheetMerge.UpsertKeepsUnmatchedRow | src/services/google-sheets.service.js:210-235 | an old data row whose key no batch row carries stays at its position unchanged |
| SheetMerge.UpsertKeepsEarlierDuplicate | src/services/google-sheets.service.js:198-205 | when a key appears twice in the sheet, the earlier row is never overwritten, because the map keeps the last |
| SheetMerge.UpsertLayout | src/services/google-sheets.service.js:210-235 | written table = headers, then each old data row as merged, then the appended rows; its length is the old length plus the added count |
| SheetMerge.UpsertReplacesKnownRow | src/services/google-sheets.service.js:215-220 | a batch row whose truthy key last appears in sheet row p, and which no later batch row shares, replaces row p |
| SheetMerge.UpsertUnknownKeyAppendsAll | src/services/google-sheets.service.js:214-225 | with key index -1 every batch row is appended after the old data rows |
| SheetMerge.UpsertIdempotent | src/services/google-sheets.service.js:165-240 | with a real key column and distinct truthy batch keys, upserting the same batch into the written table gives the same table |
| SheetMerge.WrittenPosition | src/services/google-sheets.service.js:210-235 | every batch row with a truthy key is in the written table at a data position holding its key, and no later row carries that key |
| SheetMerge.WrittenPositionUpdated | src/services/google-sheets.service.js:217-220 | an overwriting batch row sits among the old data positions, last with its key |
| SheetMerge.WrittenPositionAppended | src/services/google-sheets.service.js:221-224 | a non-overwriting batch row sits after the old rows, last with its key |
| SheetMerge.KeyAbsentAfter | src/services/google-sheets.service.js:198-235 | a known key does not appear after its mapped row in the written table |
| SheetMerge.KeyAbsentInSlot | src/services/google-sheets.service.js:198-220 | a known key does not appear in any merged data row after its mapped one |
| SheetMerge.BuildKeyMap | src/services/google-sheets.service.js:198-205 | the loop builds exactly the ID map `KeyMap` |
| SheetMerge.MergeLoop | src/services/google-sheets.service.js:210-225 | the loop computes the merged rows and both counters of the reference fold |
| SheetMerge.UpsertToSheet | src/services/google-sheets.service.js:165-240 | the method writes the table `Upsert` describes, and its counters add up to the batch size |
| SheetMerge.UpdateKeepsPosition | src/services/google-sheets.service.js:214-225 | worked example: an updated row stays in place and a new row goes last |
| SheetMerge.ZeroKeyDiffersByRuntime | src/GoogleSheetsManager.php:166-192 | the key "0" is appended again by PHP, which treats it as falsy, and updated in place by JavaScript |
| Money.ParseValue | src/services/scraper.service.js:252-262 | a text without any digit parses to 0: an empty text, one without a run of digits and dots, and one whose run is dots only (`parseInt("")` is NaN and `\|\| 0` gives 0) |
| Money.ParseAmountInText | src/services/scraper.service.js:252-262 | a dot-grouped amount inside a text, after anything without digits or dots and before anything that does not continue it, parses to the number its digits spell |
| Money.ParseExample | src/services/scraper.service.js:255-261 | worked example: "20.191.400 baht" parses to 20191400 |
| Money.StripGroupDigits | src/services/scraper.service.js:260 | removing the dots of a dot-grouped digit string gives the digits back |
| Money.GroupDigitsShape | src/services/scraper.service.js:271 | the grouped form puts a dot before every third digit from the right and nowhere else |
| Money.FormatValue | src/services/scraper.service.js:269-272 | the formatted amount is non-empty with no space: digits and dots starting with a digit, after a minus sign for a negative value |
| Money.ParseFormatValue | src/services/scraper.service.js:252-272 | parsing a formatted amount gives back its absolute value |
| Money.DisplayValue | src/utils/date-formatter.js:24-27 | an empty value displays as ""; otherwise the first " baht" is cut out and every other character is kept in order, with each dot turned into a comma |
| Money.PhpDisplayValue | scrape-all-with-details.php:306-313 | "" and "0" are written as "", the result is never "0", a truthy value loses its dots, and one without " baht" keeps every other character in place with each dot turned into a comma |
| Money.PhpDisplayAgrees | scrape-all-with-details.php:306-313 | on a value with at most one " baht" the PHP conversion equals the JavaScript `formatValue`, except that a "0" result is written as "" |
| Money.BahtTwiceDiffers | scrape-all-with-details.php:309 | on a value holding " baht" twice JavaScript cuts only the first and PHP's `str_replace` cuts both |
| Money.DisplayFormattedAmount | src/utils/date-formatter.js:24-27 | a formatted amount followed by " baht" is displayed as that amount with commas for dots; PHP turns the amount "0" into "" |
| Money.FormatExample | src/services/scraper.service.js:264-272 | worked example: 20191400 is formatted "20.191.400" |
| Money.DisplayExample | src/utils/date-formatter.js:19-27 | worked example: "60.017.450 baht" is displayed "60,017,450" |
| Navigation.PagesMatch | src/services/browser.service.js:67-69 | the first match of `Number of pages:\s*(\d+)` yields the number its digits spell, and there is none exactly when no position matches |
| Navigation.JsTotalPages | src/services/browser.service.js:60-73 | the page count is 1 when the cell is missing, empty or does not match, and the matched number otherwise (0 included) |
| Navigation.MatchMentionsPhrase | scrape-all-with-details.php:70-71 | a text the regex matches contains "Number of pages" |
| Navigation.PhpPreTestRedundant | scrape-all-with-details.php:70-73 | the PHP `strpos` pre-test changes no cell's result |
| Navigation.PhpTotalPages | scrape-all-with-details.php:66-75 | with no matching cell the PHP count is 1 |
| Navigation.PhpTotalPagesLastWins | scrape-all-with-details.php:68-75 | the last matching `td` on the page decides the PHP count |
| Navigation.NoBreakSpaceDiffers | src/services/browser.service.js:67 | on one cell text with a no-break space after the label, the JavaScript regex reads 7 because its `\s` covers that space, and the PHP regex (scrape-all-with-details.php:71) finds no match and keeps 1 |
| Navigation.ZeroPagesKept | src/services/browser.service.js:68-69 | "Number of pages: 0" gives 0 pages, not the default 1 |
| Navigation.SearchUrlRoundTrip | src/services/browser.service.js:41-47 | the search URL (base, the fixed query, `&pid=` and the page number, 1 by default) gives its page number back, so distinct pages get distinct URLs |
| Navigation.MatchPlayerId | src/services/scraper.service.js:101-102 | `/jog_id=(\d+)/` yields a non-empty digit string, and none exactly when no position matches |
| Navigation.MatchPlayerIdRoundTrip | src/services/scraper.service.js:101-102 | an ID of digits after the first `jog_id=` of a link, followed by a non-digit or the end, is extracted exactly |
| Navigation.PlayerUrlRoundTrip | src/services/browser.service.js:52-55 | the ID regex reads a numeric player ID back from the player URL (`/ver_jogador.asp?jog_id=`, the ID, `#info`) |
| Config.ConfigErrors | src/config/index.js:74-81 | the username error is listed exactly when the username is unset or empty, and likewise the password; the username error comes first |
| Config.ValidateConfig | src/config/index.js:73-86 | validation passes exactly when both credentials are set; otherwise the message starts with the heading and a line break |
| Config.ValidateConfigLines | src/config/index.js:83-85 | the failure message's lines are the heading followed by exactly the collected errors |
| Config.ScriptCredentials | scrape-all-with-details.php:34-39 | the scripts log in exactly when both credentials are truthy in their runtime |
| Config.ScriptCredentialsAgree | scrape-all-with-details.php:34-39 | the JavaScript script (scrape-all-with-details.js:26-33) accepts exactly what `validateConfig` accepts, and the PHP script the same minus the credential "0" |
| Config.ZeroPasswordDiffers | scrape-all-with-details.php:37 | the password "0" passes the JavaScript check and fails the PHP one |
| PlayerMap.Find | src/scraper.js:88 | the position found holds the ID and no earlier entry does; nothing is found exactly when the ID is absent |
| PlayerMap.Put | src/scraper.js:88 | setting keeps IDs unique; a new ID is appended and the old entries stay in front |
| PlayerMap.PutGet | src/scraper.js:88 | the row set is read back, other IDs keep their rows, and the order of existing IDs is kept |
| PlayerMap.PutKeepsIds | src/scraper.js:143-150 | setting an existing ID keeps the list of IDs |
| PlayerMap.PutAllLastWins | src/services/scraper.service.js:120 | after setting a list of pairs, an ID holds the row of its last pair, or its old row if the list does not mention it |
| PlayerMap.PutAllHas | src/services/scraper.service.js:120 | an ID is present afterwards exactly when it was before or the list mentions it |
| PlayerMap.PutAllGet | src/services/scraper.service.js:120 | as PutAllLastWins, against the reference `LastRow` |
| PlayerMap.LastRowOfMap | src/scraper.js:88 | in a map, an ID's last pair is its only entry |
| PlayerMap.PutAllAppend | src/scraper.js:73-93 | setting two lists in turn is setting their concatenation |
| PlayerMap.CopyAgrees | src/scraper.js:88 | copying a page's map into the total gives each ID the same row as setting the page's pairs directly |
| PlayerMap.PutAllAgrees | src/scraper.js:88 | maps that agree on an ID still agree after the same pairs are set into both |
| RowShaping.ColumnMapping | src/services/scraper.service.js:53-57 | the mapping lists, in increasing order, exactly the indices of the headers not in the exclude list |
| RowShaping.EnhancedHeadersShape | src/services/scraper.service.js:44-80 | enhanced headers = the kept headers, with the runner's ID column right after the first kept "Name" when there is one, then the runner's detail headers |
| RowShaping.NameIsKept | src/services/scraper.service.js:59-60 | a "Name" header is never excluded, so it is always kept |
| RowShaping.RowPlayerId | src/services/scraper.service.js:93-103 | a row's ID comes from the last cell whose link matches the ID regex; there is no ID exactly when no cell's link matches |
| RowShaping.ExtractRow | src/services/scraper.service.js:85-121 | a row yields an entry exactly when it has a `td` and a truthy player ID; the entry's row is the shaped row of its cell texts |
| RowShaping.Placeholders | src/services/scraper.service.js:118 | the placeholders are one empty cell per detail header except the last, which holds the timestamp |
| RowShaping.ScrapePage | src/services/scraper.service.js:17-41 | a layout once found is kept; a page without a table of more than five rows adds nothing |
| RowShaping.MappedCellsAt | src/services/scraper.service.js:110-115 | each kept column's text lands at its shifted position and the ID goes right after the "Name" column |
| RowShaping.MappedCellsLength | scrape-all-with-details.php:155-160 | the mapped cells hold a cell per kept column and at least one more when a kept column is "Name" |
| RowShaping.ShapedRowCoversHeaders | scrape-all-with-details.php:108-163 | whatever the header row, a row shaped with that header row is at least as long as its enhanced headers |
| RowShaping.HeadersAt | src/services/scraper.service.js:53-77 | with one kept "Name" column, every kept header, the ID header and the detail headers sit at known positions |
| RowShaping.CellsAt | src/services/scraper.service.js:108-118 | with one "Name" column, every cell of a shaped row sits at the matching position |
| RowShaping.RowAlignsWithHeaders | src/services/scraper.service.js:44-121 | a shaped row has the length of the enhanced headers; each cell sits under its own header, the ID under the ID header, and the detail cells under the detail headers, empty except the timestamp |
| RowShaping.HeaderExample | scrape-all-with-details.js:106-129 | worked example: the wage column is dropped, and the ID column is "PlayerID" in the modular scraper and "Name_PlayerID" in the stand-alone script |
| RowShaping.ScrapePagesLayout | src/scraper.js:84-86 | the page loop keeps the first layout found |
| RowShaping.ScrapePagesStep | src/scraper.js:81-88 | one more page sets that page's entries into the player map |
| RowShaping.NoPagesNoPlayers | src/scraper.js:70-73 | before any page there are no players and no layout, and the merged map then agrees with the loop on every ID |
| RowShaping.ScrapePagesLastWins | src/scraper.js:73-93 | after n pages, every ID holds the row of its last occurrence across all rows read, whatever the runner |
| RowShaping.KeyIndex | src/scraper.js:187-189 | the key index is the first ID header, and -1 in JavaScript when there is none; in PHP a failed search gives 0 (scrape-all-with-details.php:346) |
| RowShaping.KeyIndexAt | src/scraper.js:187-189 | the first position holding an ID header is the key index |
| RowShaping.KeyColumnHoldsId | src/scraper.js:187-189 | with one "Name" column and no ID-like scraped header before it, the key index points right after "Name", and every shaped row holds its player ID there |
| Enrichment.TeamValue | src/services/scraper.service.js:131-136 | JavaScript gives the trimmed link text or "Free Agent" when that is empty; PHP gives "Free Agent" only when there is no link (scrape-all-with-details.php:209-214) |
| Enrichment.BlankTeamLinkDiffers | scrape-all-with-details.php:211 | a blank team link gives "Free Agent" in JavaScript and "" in PHP |
| Enrichment.PhpScanNone | scrape-all-with-details.php:217-231 | when no row passes a field's test, the field is "" |
| Enrichment.PhpScanLastRow | scrape-all-with-details.php:217-282 | the last row that passes a field's test and has two cells decides the field |
| Enrichment.ValueLabelFrom | src/services/scraper.service.js:177-183 | the label found is the first cell "Value" with a cell two places on |
| Enrichment.RowValueCandidate | src/services/scraper.service.js:177-183 | a row has no candidate value exactly when no cell is a "Value" label with two cells after it |
| Enrichment.ValueLookups | src/services/scraper.service.js:173-187 | the JavaScript lookup returns the candidate of the first row that has one, even an empty one, and "" when no row has one |
| Enrichment.NonEmptyValueLookups | scrape-all-with-details.php:286-303 | the PHP lookup returns the first non-empty candidate, and "" when there is none |
| Enrichment.ValueLookupsAgree | scrape-all-with-details.php:286-303 | the two lookups agree whenever the JavaScript one finds a non-empty value |
| Enrichment.EmptyFirstValueDiffers | scrape-all-with-details.php:300 | worked example: an empty first candidate stops the JavaScript lookup but not the PHP one |
| Enrichment.DetailValues | src/services/scraper.service.js:127-194 | one value per detail header: the team first and the timestamp last; the value column is the displayed first value (JavaScript) or the converted first non-empty value (PHP) |
| Enrichment.DetailIndex | src/scraper.js:115-123 | a detail header's index is its first position; absent, it is -1 in JavaScript and 0 in PHP (scrape-all-with-details.php:184-192) |
| Enrichment.SetCell | src/scraper.js:143-150 | writing at index i sets cell i and leaves every other cell; past the end the row grows to i + 1, the skipped cells (holes in JavaScript) modelled as empty; a negative index changes nothing |
| Enrichment.WriteAllCells | src/scraper.js:143-150 | after the writes, a cell holds the last value written to it, and a cell no write targets keeps its content |
| Enrichment.WriteAllInside | src/scraper.js:143-150 | writes that all land inside the row leave its length unchanged |
| Enrichment.DetailIndicesInside | scrape-all-with-details.php:184-192 | in both runners every detail index is a real position in the enhanced headers and holds that detail header, never -1 nor the 0 of a failed search |
| Enrichment.DetailWritesInsideRow | scrape-all-with-details.php:184-282 | for a row shaped with the same header row as the enhanced headers, every detail write lands inside the row, and enriching keeps its length |
| Enrichment.WriteAllLength | src/scraper.js:143-150 | after the writes the row keeps its length or is just long enough for the furthest write, and every write lands inside it |
| Enrichment.ShortRowFilledToHeaders | src/scraper.js:115-150 | a row shorter than the enhanced headers, as a later page of the modular scraper can give, is extended by the detail writes to exactly the headers' width |
| Enrichment.EnrichRowWritesDetails | src/scraper.js:142-150 | with the detail headers at the end, enriching a row replaces exactly its detail cells by the page's detail values |
| Enrichment.EnrichRowKeepsOtherCells | src/scraper.js:142-150 | a cell no detail index points to is unchanged |
| Enrichment.EnrichAllCounts | src/scraper.js:125-159 | every visited ID counts once: a success when its page loads, an error when it does not |
| Enrichment.EnrichAllKeepsIds | src/scraper.js:130-159 | the detail loop keeps the IDs and their order |
| Enrichment.EnrichAllRows | src/scraper.js:130-159 | after the loop, a visited ID whose page loads holds its enriched row, and every other ID keeps its row |
| Enrichment.EnrichSpec | src/scraper.js:100-174 | the detail phase keeps IDs, counts successes and errors over the IDs to process, and enriches exactly the processed IDs whose page loads |
| Deals.ScrapeNegotiation | src/services/scraper.service.js:201-245 | a closed transfer is reported as closed; a broken page gives no values; otherwise both amounts are parsed, and a difference (estimated minus asking) exists exactly when both are non-zero |
| Deals.NegotiationUrlId | src/deal-finder.js:48 | the player ID is the tail of the negotiation URL |
| Deals.MakeDeal | src/deal-finder.js:64-78 | a deal has a positive difference equal to estimated minus asking, and each formatted amount parses back to its value |
| Deals.VisitPlayer | src/deal-finder.js:46-97 | a player is skipped exactly when their page fails or the transfer is closed; a deal is recorded exactly when the difference is defined and positive |
| Deals.CollectAllDeals | src/deal-finder.js:38-98 | outside test mode, the deals collected are exactly the deals of the players, in player order |
| Deals.DealOfOpen | src/deal-finder.js:57-63 | every deal comes from an open negotiation and has a positive difference |
| Deals.TestModePrefix | src/deal-finder.js:90-94 | the test-mode deals are a prefix of the full ones |
| Deals.TestModeDeals | src/deal-finder.js:90-94 | in test mode the loop stops after the first player that is not skipped, whose deal, if any, is the only one |
| Deals.TestModeNoneChecked | src/deal-finder.js:57-61 | when every player is skipped there are no deals |
| Deals.TestModeAtMostOne | src/deal-finder.js:90-94 | test mode finds at most one deal |
| Deals.InsertPermutes | src/deal-finder.js:101 | inserting adds exactly the new deal to the multiset |
| Deals.InsertSorted | src/deal-finder.js:101 | inserting into a descending list keeps it descending |
| Deals.SortByDifference | src/deal-finder.js:101 | the sorted list is descending by difference and a permutation of the input |
| Deals.SortStable | src/deal-finder.js:101 | deals with equal difference keep their relative order, as the stable `Array.prototype.sort` does |
| Deals.TopDealsSpec | src/deal-finder.js:100-104 | the top list has min(20, n) deals, is descending, is drawn from the deals found, and no deal left out beats one kept |
| Deals.FindDealsSpec | src/deal-finder.js:38-104 | every reported deal belongs to a player whose negotiation was open and has a positive difference; test mode reports at most one |
| Telegram.SplitMessageText | src/services/telegram.service.js:99-118 | the chunks concatenate to the message plus one trailing line break: no text is lost or reordered |
| Telegram.SplitMessageFits | src/services/telegram.service.js:104-111 | every chunk fits the limit unless it is a single line that is longer on its own |
| Telegram.SplitMessageBreaks | src/services/telegram.service.js:104-111 | every chunk is empty or ends with a line break |
| Telegram.SplitMessageEmptyChunks | src/services/telegram.service.js:104-115 | only the first chunk can be empty, exactly when the first line is already too long, since the empty current chunk is still pushed |
| Telegram.RankLabelInjective | src/services/telegram.service.js:62-69 | distinct positions get distinct rank labels |
| Telegram.MessageListsEveryDeal | src/services/telegram.service.js:61-76 | the message contains each deal's block under its rank label |
| Telegram.MessageFirstLine | src/services/telegram.service.js:58 | the message's first line is the title |
| Telegram.SendPlanSpec | src/services/telegram.service.js:53-91 | a message up to 4000 UTF-16 units goes out whole; a longer one goes out in non-empty chunks that fit and concatenate to the message followed by one line break |
| Flags.TestModeEffects | src/scraper.js:65-109 | with TEST_MODE exactly "true" (src/config/index.js:20) the modular scraper reads one page and visits at most the first player, and the deal finder (src/deal-finder.js:91-94) keeps at most one deal, a prefix of the full list; any other value gives the full run; the scripts ignore the flag |
| Flags.TelegramNeedsBoth | src/config/index.js:33 | the deal finder (src/deal-finder.js:10-12, 112-115) sends nothing unless both the bot token and the chat ID are non-empty; with both and a deal it sends the report in at least one message |
| Telegram.DealFinderNeverSendsNoDeals | src/deal-finder.js:112-119 | the deal finder sends nothing when there are no top deals, so the "No deals found" message is never sent |

## Left out

- Browser, HTTP, Google Sheets and Telegram API calls, logins, retries and delays: effects with no logic of their own. Their results enter the model as data: pages, a map of loaded pages, and the existing sheet table, which is what `getExistingData` reads (src/services/google-sheets.service.js:108-118).
- Clocks: `toHumanReadable()`, `toISOString()`, `date('c')` and `toLocaleString()` become an opaque timestamp parameter.
- CSS and Playwright selector matching (`:has-text`, `+ td`, `td:last-child`): the texts the JavaScript selectors return are inputs of `PlayerPage`. The PHP row scans and the value lookup, which are plain loops, are modelled.
- The `Number of pages` cell is found by a selector in JavaScript; the model takes its text, or none when the lookup fails.
- Panther's `text()` in the PHP script: the model gives PHP the same cell strings as JavaScript's `textContent`. WebDriver's rendered text may normalise whitespace (a no-break space becoming a plain space) before PHP's `trim` and regexes see it; that normalisation is not modelled.
- Navigation.NoBreakSpaceDiffers: it compares the two regexes on one and the same string; it does not claim that the two runners read different counts from one page, since PHP's string may already be normalised as above.
- Playwright strict-mode failures, where one locator matches several elements, and other thrown exceptions: a negotiation page that throws is `BrokenPage`, and a player page that throws is a missing entry in the map of pages.
- JavaScript number precision and PHP integer overflow: amounts are unbounded integers. `parseInt` of more than 15 digits is not modelled.
- Deals.ScrapeNegotiation: the amounts are parsed with the unbounded `ParseValue`, so precision loss on huge amounts is not modelled.
- `formatSheet`, `createSpreadsheet`, `ensureSpreadsheet` and `createSheetTab`: sheet formatting and creation with no effect on the rows.
- `getExistingData`: the `existing` table of `SheetMerge.MergeData` and `SheetMerge.Upsert` is whatever the read of range `A:Z` returns (src/services/google-sheets.service.js:112, src/GoogleSheetsManager.php:106, google-sheets.js:158), so columns past Z never reach the key map. A failed read is caught and yields `[]` (src/services/google-sheets.service.js:115-117). The model then treats the sheet as empty, as `SheetMerge.UpsertIntoEmptySheet` states: the headers and the batch overwrite the old rows (177-185).
- `displayResults` and every log line: console output only.
- `server.js`, `run-all.js`, `index.js` and `find-deals.js`: entry points that only call the modelled code.
- Missing cells and holes: a cell a row does not have reads as `undefined` in JavaScript and `null` in PHP (src/services/scraper.service.js:111, scrape-all-with-details.js:160, scrape-all-with-details.php:157). A detail write past the end of a JavaScript row leaves holes before it (src/scraper.js:143-150). The model gives all of these the empty text (`RowShaping.TextAt`, `Enrichment.SetCell`).
- Which runners write past the end of a row. The two scripts never do: they derive the header row once and shape every row with it, and `RowShaping.ShapedRowCoversHeaders`, `Enrichment.DetailIndicesInside` and `Enrichment.DetailWritesInsideRow` prove that every detail write then lands inside the row (scrape-all-with-details.php:108-123, 155-163, 184-192). The modular scraper does. It shapes each page's rows with that page's own header row (src/services/scraper.service.js:10-33), but it enriches every row with the detail indices of the first page's headers (src/scraper.js:84-86, 115-123; `RowShaping.ScrapePagesLayout`). So a later page that keeps fewer columns gives short rows, and `Enrichment.ShortRowFilledToHeaders` states how the detail writes extend them.
- How the sheet shows holes: `writeToSheet` clears `A:Z` before it writes (src/services/google-sheets.service.js:131-148), so a hole sent as `null` shows as an empty cell, which is the empty text the model writes. If the clear fails, its error is ignored, and the old content under a hole is not modelled.
- RowShaping.RowPlayerId: a list-page cell with several player links is not modelled, since `Cell` holds at most one link. JavaScript's `getAttribute("href")` throws in Playwright's strict mode and aborts the list scrape (src/services/scraper.service.js:100, scrape-all-with-details.js:149), and PHP's `attr('href')` takes the first link (scrape-all-with-details.php:142).
- Enrichment.DetailValues: the JavaScript field texts arrive already selected, so the contract states the team, timestamp and value columns and not the selector semantics.
- The garbage-collection hint every 50 players in the modular scraper: no effect on the data.
