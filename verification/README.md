# Patrimonial-status resolution, modelled in Dafny

This project models the data logic of a botanical survey tool. The tool works out which plant species observed around a point in France are *patrimonial*: legally protected, or threatened on a red list. It models two sources:

- the browser script `biblio-patri.js`;
- the serverless handler `netlify/functions/analyze-patrimonial-status.js`.

The pipeline has these stages:

1. **Rule table index** (`RuleIndex`). The BDCstatut table arrives as semicolon-separated text. Cells are trimmed and stripped of `"`. Rows with a taxon name and a status type are indexed under that exact name, in file order.
2. **Flora inventory** (`Paging`, `Occurrences`). GBIF is crawled in pages of 1000, at most 12 pages. The crawl is all-or-nothing: a page that is not ok aborts it, and an empty harvest is an error. The unique species names are taken in first-seen order.
3. **Rule filter** (`RuleFilter`, `AdminTables`). Each observed species' rows go through four steps:
   - a geographic scope test against the point's department and region codes, using the two administrative tables copied verbatim;
   - three exclusions;
   - first-wins deduplication on the key `nom|type|adm`;
   - rendering of the status text.
4. **Serverless handler** (`Handler`, `Fences`). Its outputs are the 405/400/500/200 decision table, the rule-context text, and the code-fence stripper applied to the language model's answer.
5. **Mapping** (`Cartography`, `Legend`).
   - Each patrimonial species with a taxon key is crawled, up to 10 pages, and coloured by its position modulo 14.
   - The records are grouped under a five-decimal coordinate key, each location listing each species once with its first colour.
   - The results table acts as the legend.
6. **Analysis** (`Analysis`). This composes stages 1-5 the way `runAnalysis` does.

Every outside service is an oracle, passed in as a function:

- the GBIF searches (scripted page responses indexed by offset);
- the commune lookup (`geo.api.gouv.fr`);
- the language model;
- `JSON.parse` of the model's answer.

`FirstWins` is a generic model of the JavaScript `Map` filled with `if (!m.has(k)) m.set(k, v)`. The rule filter, the unique names, the taxon keys and the location grouping all instantiate it. Each of those operations therefore shares one proof of "distinct keys, every accepted key present, each value from the first accepted item, insertion order = first-acceptance order".

## Model

| member | source | states |
|---|---|---|
| Strings.Trim | biblio-patri.js:58-59 | `trim()` result has no white space at either end and is an infix of the input with only white space around it |
| Strings.TrimOfPadded | biblio-patri.js:66-68 | white space around a trimmed middle is exactly what `trim()` removes, so `trim` is determined by its characterisation |
| Strings.TrimIdempotent | biblio-patri.js:66-68 | trimming twice is trimming once |
| Strings.Split | biblio-patri.js:64 | `split(';')` gives at least one piece, no piece holds the separator, and joining the pieces restores the text |
| Strings.SplitJoin | biblio-patri.js:64 | splitting a join of separator-free pieces returns the pieces |
| Strings.RemoveAll | biblio-patri.js:66-68 | `replace(/"/g,'')` leaves no `"` and keeps the count of every other character, interior quotes included |
| Strings.RemoveAllChar | biblio-patri.js:66-68 | one character is dropped exactly when it is `"` |
| Strings.RemoveAllAppend | biblio-patri.js:66-68 | removal works piece by piece and keeps the order of the remaining characters; with `RemoveAllChar` this fixes the result |
| Strings.ContainsAt | biblio-patri.js:297 | `includes` holds exactly when the pattern occurs at some position |
| RuleIndex.Lines | biblio-patri.js:58 | `split(/\r?\n/)` gives one line per line feed-separated piece, none containing a line feed |
| RuleIndex.CrlfLinesRoundTrip | biblio-patri.js:58 | text written with `\r\n` line ends splits back into exactly its lines, the carriage returns gone |
| RuleIndex.LinesWithoutCR | biblio-patri.js:58 | without carriage returns the lines are the line-feed split and join back to the text |
| RuleIndex.CleanCell | biblio-patri.js:59 | a cleaned cell has no `"` and otherwise the characters of the trimmed cell |
| RuleIndex.CleanCellKeepsPlain | biblio-patri.js:59 | a cell without quotes or edge white space reads as itself |
| RuleIndex.CleanCellUnquotes | biblio-patri.js:59 | a quoted cell `"v"` reads as `v`, in order |
| RuleIndex.IndexOf | biblio-patri.js:60 | `indexOf` is -1 exactly when absent, and otherwise the first position holding the name |
| RuleIndex.ParseRow | biblio-patri.js:64-69 | no field of a parsed row holds a `"` |
| RuleIndex.ParseRowReadsCells | biblio-patri.js:64-68 | a line of clean cells joined with `;` reads back field by field: each field is the cell at its column's header position, `''` for an absent column or a short line |
| RuleIndex.BuildIndexIsFilter | biblio-patri.js:62-74 | the index has a name exactly when some row with that name has a name and a type, and lists exactly those rows in file order |
| RuleIndex.BuildIndexWellFormed | biblio-patri.js:70-73 | every list in the index is non-empty and holds only rows with a name and a type, filed under their own name |
| RuleIndex.RowsNamedSnoc | biblio-patri.js:70-73 | a new row is appended to its own name's list and to no other |
| RuleIndex.IndexRules | biblio-patri.js:57-76 | `indexRulesFromCSV`: well-formed, and for every name exactly the file-order indexable rows with that name |
| RuleIndex.AbsentColumnsReadEmpty | biblio-patri.js:60-68 | a column missing from the header yields `''` on every row, without raising |
| RuleIndex.NoIndexWithoutNameOrType | biblio-patri.js:60-73 | a header lacking the name or the type column yields an empty index |
| AdminTables.OldRegionDepartments | biblio-patri.js:44 | the historical-region table, entry by entry |
| AdminTables.AdminCode | biblio-patri.js:45 | the name-to-code table, entry by entry, department and region codes in one namespace |
| FirstWins.IndexOfKey | biblio-patri.js:196-199 | the position of a key, -1 exactly when absent |
| FirstWins.Lookup | biblio-patri.js:170 | `get` is undefined exactly when the key is absent, else a stored value under that key |
| FirstWins.LookupFinds | biblio-patri.js:170 | with distinct keys, `get` returns the value stored under the key |
| FirstWins.KeepFirstSpec | biblio-patri.js:304-308 | distinct keys, every accepted item's key present, each value from the first accepted item with its key |
| FirstWins.KeepFirstPrefix | biblio-patri.js:304-308 | visiting more items never changes the entries already made |
| FirstWins.KeepFirstOrder | biblio-patri.js:304-308 | entries are in the order their keys were first accepted |
| FirstWins.KeepFirstNoneKept | biblio-patri.js:300-303 | when no item is accepted the map stays empty |
| RuleFilter.ScopeAppliesIff | biblio-patri.js:295-299 | a row applies exactly when its scope maps to FR, its lowered type contains "nationale", its historical region holds the department, or its code equals the department or the region code |
| RuleFilter.NationalAppliesEverywhere | biblio-patri.js:297 | a national row applies at every point |
| RuleFilter.UnknownScopeAppliesNowhere | biblio-patri.js:297-299 | a scope in neither table, with a non-national type, applies nowhere |
| RuleFilter.GuadeloupeRuleAppliesInAin | biblio-patri.js:45 | a Guadeloupe-scoped row applies in department 01, whose code it shares |
| RuleFilter.SharedCodesLeakAcrossLevels | biblio-patri.js:45 | "Vaucluse" (84) applies in region 84, and "Bourgogne-Franche-Comté" (27) applies in department 27 |
| RuleFilter.ExclusionsNeverSurvive | biblio-patri.js:301-303 | the overseas-prefecture label, a "déterminante znieff" type, and a red-list row coded LC/DD/NA/NE are never kept |
| RuleFilter.RelevantEntries | biblio-patri.js:291-312 | one entry per key, at most one per candidate row, every surviving row's key present, each entry rendered from the first surviving row with its key |
| RuleFilter.KeptKeysAreSurvivingKeys | biblio-patri.js:300-307 | a key is in the map exactly when some in-scope, non-excluded candidate row has it: excluded rows claim no key |
| RuleFilter.SplitRuleKey | biblio-patri.js:304 | when name and type contain no vertical bar, the key splits back into name, type and scope |
| RuleFilter.RuleKeyInjective | biblio-patri.js:304 | when name and type contain no vertical bar, equal keys mean equal name, type and scope |
| RuleFilter.RuleKeyCollision | biblio-patri.js:304 | two different rows can share a key when a name contains a vertical bar |
| RuleFilter.MoreSpeciesExtendRules | biblio-patri.js:291-312 | adding observed species never alters the rules already produced |
| RuleFilter.RulesBelongToObservedSpecies | biblio-patri.js:291-293 | every emitted rule's species is an observed name present in the index |
| RuleFilter.AlsaceExample | biblio-patri.js:298-307 | an Alsace regional red-list VU row for a point in department 67 renders as "liste rouge régionale (VU) (Alsace)" |
| Occurrences.UniqueNames | biblio-patri.js:288 | the unique names are distinct, and a name is listed exactly when it is non-empty and some record carries it |
| Occurrences.UniqueNamesFirstSeenOrder | biblio-patri.js:288 | a name listed earlier was first seen earlier |
| Occurrences.UniqueNamesPrefix | biblio-patri.js:288 | more records only add names at the end |
| Occurrences.TaxonKeyOf | biblio-patri.js:162-167 | a species has a key exactly when some record carries its name with a key; that key comes from the first such record and is never 0 |
| Occurrences.FloraFilter | biblio-patri.js:432-435 | a record is kept exactly when it is a vascular plant or in the plant kingdom, case-insensitively |
| Occurrences.FloraFilterAppend | biblio-patri.js:432-435 | the filter keeps order: it distributes over concatenation |
| Occurrences.UppercaseKingdomIsFlora | biblio-patri.js:434 | kingdom "PLANTAE" matches the case-insensitive pattern |
| Paging.CrawlFrom | biblio-patri.js:276-285 | the requested offsets are `page*1000` for consecutive pages, in order, at least one and never past the cap |
| Paging.CrawlContinues | biblio-patri.js:276-285 | every page requested before the last one was ok and did not announce the end of records |
| Paging.CrawlStops | biblio-patri.js:276-285 | the stop reason is that of the last page: failure, end of records, or the cap reached exactly after a continuing page |
| Paging.CrawlResults | biblio-patri.js:276-285 | the results gathered are those of the ok pages requested, in page order |
| Paging.InventoryOf | biblio-patri.js:276-281 | at most 12 requests, for the offsets 0, 1000, 2000, ... in order |
| Paging.InventoryAborts | biblio-patri.js:280-282 | a not-ok page aborts with "L'API GBIF est indisponible." and a thrown error propagates its message, whatever earlier pages brought |
| Paging.InventoryCollects | biblio-patri.js:283-286 | after ok pages, the inventory holds the results of every page requested, or aborts with "Aucune occurrence de plante trouvée à proximité." when there are none |
| Paging.FirstPageEndsInventory | biblio-patri.js:284 | a first page reporting the end makes exactly one request |
| Paging.FailureDropsEarlierPages | biblio-patri.js:281 | a failing second page aborts even though the first brought results |
| Paging.SpeciesCrawl | biblio-patri.js:175-190 | at most 10 requests; a failure keeps the results of the pages before it |
| Paging.DetailCapIsTen | biblio-patri.js:175 | pages that always continue make exactly 10 requests |
| Cartography.SpeciesColourCycle | biblio-patri.js:41 | two positions share a colour exactly when they agree modulo 14 |
| Cartography.SpeciesPass | biblio-patri.js:169-189 | a species without a taxon key makes no request; otherwise its requests are the crawl of its key and its records are exactly that crawl's results, tagged with its name and the colour of its position |
| Cartography.DetailedPass | biblio-patri.js:168-191 | at most 10 requests per species; every tagged record names a listed species with that species' positional colour and a taxon key |
| Cartography.DetailedPassPerSpecies | biblio-patri.js:168-191 | with distinct names, the records of each species are exactly its own loop's: a failure in another species' crawl takes nothing away |
| Cartography.DetailedPassIndependent | biblio-patri.js:168-191 | a keyed species' records depend only on the search for its key, and are that crawl's results tagged with its name and colour |
| Cartography.Fixed5 | biblio-patri.js:195 | `toFixed(5)` is the sign and the nearest multiple of 0.00001 |
| Cartography.SameFixedIsNear | biblio-patri.js:195 | equal rounded keys mean the same sign and a difference under 0.00001 |
| Cartography.SignSplitsZero | biblio-patri.js:195 | -0.000001 and 0.000001 get different keys |
| Cartography.AggregateIsBuckets | biblio-patri.js:193-205 | the one-pass grouping equals the reference grouping: one location per key in first-seen order, at its first record's coordinates, with first-wins species |
| Cartography.AggregateSpec | biblio-patri.js:193-205 | at most one location per record; distinct keys; every located record's key present; each location at its key's first record's coordinates |
| Cartography.LocationSpeciesSpec | biblio-patri.js:199-203 | each location lists each of its species once, every species of its records, with the first colour seen there |
| Cartography.ZeroCoordinateIsDropped | biblio-patri.js:194 | a record with a coordinate of exactly 0 is never placed |
| Fences.FenceTestsArePrefixTests | netlify/functions/analyze-patrimonial-status.js:53 | the character tests are exactly "starts with ```" and "starts with ```json" |
| Fences.NoBacktickUntouched | netlify/functions/analyze-patrimonial-status.js:53 | text with no backtick comes back merely trimmed |
| Fences.RemoveFencesAppend | netlify/functions/analyze-patrimonial-status.js:53 | a line feed stops any match, so the two sides are stripped independently |
| Fences.FencedAnswer | netlify/functions/analyze-patrimonial-status.js:53 | "```json\n" + B + "\n```" comes back as B with its own fences removed, trimmed |
| Fences.PlainFencedAnswer | netlify/functions/analyze-patrimonial-status.js:53 | with no backtick in B, the fenced answer comes back as trim(B) |
| Fences.RemoveFencesTickRunFree | netlify/functions/analyze-patrimonial-status.js:53 | the replacement's output never contains three backticks in a row |
| Fences.FenceFreeUntouched | netlify/functions/analyze-patrimonial-status.js:53 | text without three backticks in a row is unchanged by the replacement |
| Fences.StripFencesIdempotent | netlify/functions/analyze-patrimonial-status.js:53 | stripping twice is stripping once |
| Handler.RuleContextEmptyIff | netlify/functions/analyze-patrimonial-status.js:17-19 | the rule context is the fixed sentence exactly when there is no rule |
| Handler.RuleContextLines | netlify/functions/analyze-patrimonial-status.js:17-18 | without line feeds in the fields, the context splits back into one line per rule |
| Handler.Handle | netlify/functions/analyze-patrimonial-status.js:7-63 | 405 exactly for a non-POST; 400 exactly for a parsed body lacking a field; 200 exactly when the lookup succeeds and the answer is empty or parses; otherwise 500; which outside calls are made, with which prompt |
| Handler.EmptyListsAccepted | netlify/functions/analyze-patrimonial-status.js:13 | empty arrays are truthy: no 400, and the prompt carries the fixed sentence |
| Handler.ModelNotOkIsServerError | netlify/functions/analyze-patrimonial-status.js:48 | a not-ok model reply gives 500 with the prefixed status text |
| Handler.MissingCandidatesIsEmptyMap | netlify/functions/analyze-patrimonial-status.js:51-52 | no candidates gives 200 with `{}` |
| Handler.EmptyCandidatesIsServerError | netlify/functions/analyze-patrimonial-status.js:52 | an empty candidates array raises a TypeError reading `content`, hence 500 |
| Handler.MissingContentOrPartIsEmptyMap | netlify/functions/analyze-patrimonial-status.js:52 | a first candidate without content, or with no first part, gives 200 with `{}` |
| Handler.FoundAnswerIsParsed | netlify/functions/analyze-patrimonial-status.js:53-58 | found text that parses gives 200 with the map; otherwise 500 "mal formée" |
| Handler.FencedAnswerIsParsedTrimmed | netlify/functions/analyze-patrimonial-status.js:53-58 | a fenced answer reaches the parser as its trimmed body |
| Legend.SortNames | biblio-patri.js:250 | the default sort gives a sorted permutation |
| Legend.LegendTableAsWritten | biblio-patri.js:250-251 | one row per name, in sorted order; the swatch of each row is taken at the row's position in the sorted list |
| Legend.LegendAsWrittenMismatch | biblio-patri.js:250-251 | for names ["B","A"], the table colours "A" differently from its markers |
| Legend.LegendTable | biblio-patri.js:250-251 | one row per name, in sorted order; the swatch of each row is taken at the position of its species in `Object.keys` order |
| Legend.LegendMatchesMarkers | biblio-patri.js:172 | with distinct names, each corrected row shows the colour of every marker of its species |
| Analysis.RunAnalysis | biblio-patri.js:265-323 | an aborted inventory or a failed commune lookup ends the analysis with its message; otherwise a reply that is not ok is a service failure (a 500); an ok reply with no verdicts means nothing patrimonial; an ok reply with verdicts gives a map of exactly those verdicts, whose legend is the table of their names, whose detailed pass is the per-species crawl of those names over the inventory, and whose locations are that pass's sightings grouped by coordinates; at most 10 detail requests per verdict |
| Analysis.ClientRequestAccepted | biblio-patri.js:313-320 | the browser's request is never answered 400 or 405, and the lookup is called with its coordinates |
| Analysis.MappedSpeciesAreVerdicts | biblio-patri.js:168-203 | every species shown at a location is a verdict, shown with the colour of the verdict's position |
| Analysis.UnkeyedVerdictNotMapped | biblio-patri.js:170-171 | only species with a taxon key in the inventory are mapped |
| Analysis.SentRulesAreObserved | biblio-patri.js:288-316 | every rule sent to the service is about a species of the inventory |

## Findings

| source | as written | input that shows it | evidently intended | confidence | as-written member | corrected member |
|---|---|---|---|---|---|---|
| biblio-patri.js:250-251 | the table's colour swatch uses the name's position after `sort()` | two patrimonial species whose keys are not in sorted order, e.g. ["B", "A"]: the table shows "A" in the first palette colour, while its markers (line 172) use the second | the swatch shows the same colour as that species' markers, i.e. the position in `Object.keys` order | medium, not executed | Legend.LegendTableAsWritten, Legend.LegendAsWrittenMismatch | Legend.LegendTable, Legend.LegendMatchesMarkers |

The analysis (`Analysis.MapVerdicts`) uses the corrected table.

## Notes on the code

- `indexRulesFromCSV` does not raise when a header column is missing: every row then reads `''` for that field. With no name or type column, the index is empty (`RuleIndex.NoIndexWithoutNameOrType`). This revision of the rule filter has no habitats-directive clause.
- The fence stripper's output can never contain three backticks in a row. After a kept backtick, the scan either kept the next character too, or that character was not a backtick. So the stripper is idempotent (`Fences.StripFencesIdempotent`).

## Left out

- DOM, Leaflet and HTML rendering. Status messages, popups, icons, the observation map and long-press handling are user interface.
- The WKT search circle and the Lambert-93 reprojection. They are floating-point trigonometry and a foreign library; the search area is inside the search oracles.
- Every network call. GBIF, the commune lookup, Nominatim, geolocation, the fetch of the reference table and the language model are scripted oracles; the model's reasoning and the prompt's fixed prose are not modelled.
- `JSON.parse` and `JSON.stringify`. Parsing the request and the model's answer are oracle outcomes, and replies carry structured bodies rather than serialised JSON.
- Non-array values in the request fields, and non-object results of parsing the answer. A field is modelled as absent or as a list, and a parsed answer as a list of species with status lists.
- The `Content-Type` header on the 200 reply, and the text of V8's TypeError messages. A TypeError is modelled by the property whose read failed.
- Object key order for integer-like keys. `Object.keys` is taken as the order of the parsed verdicts.
- Scope names that are `Object.prototype` property names. Reading `ADMIN_NAME_TO_CODE_MAP["constructor"]` yields a function, not a code; the tables are modelled as plain lookups.
- Full Unicode case mapping. `toLowerCase` is modelled for ASCII and Latin-1, which decides the three markers for every input; for the all-ASCII patterns `/tracheophyta/i` and `/plantae/i` the regex `i` flag is modelled as ASCII folding, which is exact there: without the `u` flag a non-ASCII character is never folded onto an ASCII one.
- UTF-16 code units. Strings are sequences of code points, which agree with code units outside the astral planes, for both sorting and length.
- Floating point. Coordinates are reals, with no NaN or infinity, and `toFixed(5)` is exact decimal rounding half up of the real value.
- netlify/functions/generate-shapefile.py and ui.js. They are not part of this model: file and archive I/O, theme and notification handling.
- Analysis.RunAnalysis: the legend of a mapped run is the corrected table `Legend.LegendTable`, whose swatches match the markers; the table as written is `Legend.LegendTableAsWritten` (see Findings).
- Analysis.RunAnalysis: a commune whose first result has no department or no region is a failed lookup (`GeoFailed`), so the run stops before the service is called. The browser reads `departement.code` lazily (biblio-patri.js:298-299) and can still send its request when no rule needs the codes. The handler then fails reading them (analyze-patrimonial-status.js:15-21) and the run ends as a service failure after two lookups. The model does not promise that path.
- Analysis.RunAnalysis: the model's answer is assumed to parse to verdicts with distinct species names, as `JSON.parse` of an object gives distinct keys. The parse oracle is not constrained to that. Lemmas that need distinct names (Cartography.DetailedPassPerSpecies, Legend.LegendMatchesMarkers) take it as a requirement rather than from the run.
- Analysis.RunAnalysis: one commune-lookup oracle answers both the browser's lookup (biblio-patri.js:290) and the handler's (analyze-patrimonial-status.js:15). The two calls ask for the same URL, and the model assumes they agree.
- Concurrency. A second search started while one is running is not modelled; the model is sequential.
