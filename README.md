# RandoScrapper core, modelled in Dafny

RandoScrapper collects the hike posts of randoromandie.com, a WordPress site of
hikes in French-speaking Switzerland. It turns each post's key/value table into a
`Hike` record with normalised filter fields, stores the hikes in a table keyed by
URL, and lets a browser app filter them on eight dimensions. The app then shows
one hike's information table.

This project models that core as Dafny and proves what the code promises:

| file | models |
|---|---|
| `text.dfy` | Python string operations the core uses: `strip`, `lower`, `replace`, `in`, `split`/`join`, `str(int)`; plus `or` on optional strings |
| `seqs.dfy` | duplicate removal in first-seen order, subsequences, and Python's string order with `sorted()` of a set |
| `normalize.dfy` | the enumeration constants; `_normalize_km/_duree/_denivele/_difficulte`; `_parse_duree`, `_parse_number_km` and `_parse_number_m` as hand-written recognisers of their regular expressions |
| `tables.dfy` | `_extract_table`: a dict with last write wins that keeps each key's first-seen position |
| `extract.dfy` | the table-driven part of `parse_hike_page`: synonyms, title suffix, map link, environment tags, route type, buckets |
| `links.dfy` | `get_post_links_from_page`, the pagination loop of `fetch_all_post_urls`, and the skip-on-error loop of `scrape_all` |
| `store.dfy` | `hike_to_row`, and `save_hikes_to_db` as a whole-row upsert into a map keyed by URL (a class whose method updates it in place) |
| `filtering.dfy` | `_CANONICAL_SEASONS`, `_parse_saison` and `filter_hikes` |
| `infotable.dfy` | `INFO_TABLE_KEYS` and `_hike_info_table` of the browser app |

Code that works by updating state is modelled with methods and loops proved
against specification functions. This covers:

- the table fill;
- the link loop with its `seen` set;
- the pagination `while` loop;
- the scrape loop;
- the appends that build `environnements`;
- the season loop;
- the info-table appends;
- the store's upsert.

The properties are then proved about those functions.

The outside world is passed in as parameters:

- The HTTP fetch is a function from a URL to an optional page; a failed request is `None`.
- A page arrives already taken apart: its table rows as lists of cell texts, the `<h1>` and `<title>` texts, and its anchors (href, plus the path `urlparse` gives).

Where `float()` or `int()` raise `ValueError`, the parse functions return
`Raises`. `parse_hike_page` then yields no hike, and `scrape_all` skips that URL.
Examples are `"."` as a walking time, `"1.2.3 km"`, and a space before a word
starting with "m" in the ascent cell. A bad number therefore does not give an
absent field: it costs the whole hike.

## Model

| member | source | states |
|---|---|---|
| Normalize.NormalizeKm | rando_scrapper/scraper.py:50-61 | absent iff the distance is absent; every distance gets exactly one label of KM_RANGES: under 5 strictly, then at most 10, 15, 20 inclusive, then above 20 |
| Normalize.KmBucketMonotone | rando_scrapper/scraper.py:50-61 | a longer distance never gets an earlier label of KM_RANGES |
| Normalize.KmBoundaries | rando_scrapper/scraper.py:53-61 | 4.999, 5.0, 5.001, 20.0 and 20.001 km get the labels of the strict lower and inclusive upper bounds |
| Normalize.NormalizeDuree | rando_scrapper/scraper.py:82-89 | absent iff absent; exactly one label of DUREE_RANGES: under 3 h strictly, at most 5 h, above 5 h |
| Normalize.NormalizeDenivele | rando_scrapper/scraper.py:92-99 | absent iff absent; exactly one label of DENIVELE_RANGES: under 500 m strictly, at most 1000 m, above 1000 m |
| Normalize.NormalizeDifficulte | rando_scrapper/scraper.py:102-112 | T1 iff the text has "T1", else T2 iff it has "T2", else T3 iff it has "T3", else absent; the result is always a label of DIFFICULTES |
| Normalize.ContainsStripped | rando_scrapper/scraper.py:105-106 | stripping the text before the grade tests cannot change whether a space-free token occurs |
| Normalize.ParseDuree | rando_scrapper/scraper.py:64-79 | an absent or empty walking time has no value; every value is non-negative (the values themselves are stated by the lemmas below) |
| Normalize.DureeHoursMinutes | rando_scrapper/scraper.py:68-74 | "<H>h<M>" for any digit runs H and M, leading zeros included, reads as the value of H plus the value of M / 60 hours |
| Normalize.DureeThreeHoursSix | rando_scrapper/scraper.py:65-74 | "3h06" reads as 3.1 hours |
| Normalize.DureeWholeHours | rando_scrapper/scraper.py:70-74 | "<H>h" with no minutes reads as H hours, so "2h" is 2.0 |
| Normalize.HoursMinutes | rando_scrapper/scraper.py:70-74 | the `(\d+)\s*h\s*(\d+)?` match at the start: a value needs a leading digit and an 'h', and is never negative |
| Normalize.HoursMinutesPrefix | rando_scrapper/scraper.py:70-74 | a text that starts with H, whitespace, 'h', whitespace, M, followed by anything that does not extend the minutes, gives H + M / 60 ("3h06 (aller)", "3 h 30", "2h30min", "4 heures") |
| Normalize.HoursMinutesSpacedWithRemark | rando_scrapper/scraper.py:70-74 | "3 h 30 env." gives 3.5 hours |
| Normalize.DureeHoursMinutesPrefix | rando_scrapper/scraper.py:64-74 | a walking time whose stripped, lower-cased, comma-to-dot text starts that way reads as H + M / 60 hours |
| Normalize.HoursMinutesOf | rando_scrapper/scraper.py:70-74 | the `(\d+)\s*h\s*(\d+)?` recogniser reads digits, 'h', digits as hours plus minutes / 60 |
| Normalize.LeadingNumber | rando_scrapper/scraper.py:76-78 | the `([\d.]+)\s*h?` fallback: no match iff the text does not start with a digit or a dot; a value is never negative |
| Normalize.LeadingNumberPrefix | rando_scrapper/scraper.py:76-78 | the fallback reads float() of the whole leading run of digits and dots, whatever follows it |
| Normalize.LeadingNumberWithRemark | rando_scrapper/scraper.py:76-78 | "3 (env.)" gives 3 hours |
| Normalize.NoHoursMinutes | rando_scrapper/scraper.py:70-71 | the hours pattern fails on a leading number that holds a dot, or that is not followed, after whitespace, by 'h' |
| Normalize.DureeLeadingNumber | rando_scrapper/scraper.py:64-79 | a walking time whose normalised text starts with such a number reads as float() of that number, whatever follows |
| Normalize.DureeDecimalFallback | rando_scrapper/scraper.py:67-78 | a decimal walking time "<I>.<F>" or "<I>,<F>", bare or followed by "h" or " h", is not hours-and-minutes and reads as I + F / 10^len(F) hours ("2.5", "1,5 h") |
| Normalize.DureeNeedsLeadingNumber | rando_scrapper/scraper.py:76-79 | a normalised text that does not start with a digit or a dot has no value |
| Normalize.DureeLoneDotRaises | rando_scrapper/scraper.py:76-78 | "." matches the fallback number pattern, and float(".") raises |
| Normalize.FloatOf | rando_scrapper/scraper.py:163 | float() of digits and dots: a run of digits gives its decimal value, a value is never negative, and a text either converts or raises |
| Normalize.FloatOfDecimal | rando_scrapper/scraper.py:163 | float("<I>.<F>") is I + F / 10^len(F) whenever I or F has a digit ("5.", ".5", "5.25") |
| Normalize.FloatOfRaises | rando_scrapper/scraper.py:163 | float() raises exactly when the text has no digit ("", ".") or a second dot |
| Normalize.TwoDotsRaise | rando_scrapper/scraper.py:163 | float("1.2.3") raises |
| Normalize.Search | rando_scrapper/scraper.py:161 | re.search's start: the result matches, and no earlier start position does; no result means no position matches |
| Normalize.SearchSkips | rando_scrapper/scraper.py:168 | start positions where the pattern cannot match do not change the search |
| Normalize.ParseNumberKm | rando_scrapper/scraper.py:160-164 | no match iff no position starts `([\d.,]+)\s*km` (case-insensitive); any value is non-negative |
| Normalize.KmReadsBack | rando_scrapper/scraper.py:160-164 | "<n> km" after text with no digit, dot or comma reads back as exactly n |
| Normalize.KmNumeral | rando_scrapper/scraper.py:160-163 | the first numeral before "km", after text with no digit, dot or comma, is what float() reads once its commas become dots |
| Normalize.KmDecimalReadsBack | rando_scrapper/scraper.py:160-163 | "<I>.<F> km" and "<I>,<F> km" after such text read back as I + F / 10^len(F) kilometres |
| Normalize.KmTwoDotsRaises | rando_scrapper/scraper.py:161-163 | "1.2.3 km" matches, but converting its group raises |
| Normalize.ParseNumberM | rando_scrapper/scraper.py:167-171 | no match iff no position starts `([\d\s]+)\s*m`; any value is non-negative |
| Normalize.IntOfSpacedDigits | rando_scrapper/scraper.py:170 | the spaces and no-break spaces are removed before int(): a value is the number the group's digits spell, and a group of digits and those separators raises only when it has no digit |
| Normalize.MetresGroupedReadsBack | rando_scrapper/scraper.py:167-171 | digits grouped by spaces or no-break spaces, possibly after spaces, then " m", after text with no digit or space, read back as the number their digits spell |
| Normalize.MetresThousands | rando_scrapper/scraper.py:167-171 | "1 200 m" is 1200 metres |
| Normalize.MetresReadsBack | rando_scrapper/scraper.py:167-171 | "<n> m" after text with no digit or space reads back as exactly n |
| Normalize.SpacedDigitsOf | rando_scrapper/scraper.py:170 | a numeral plus the space the greedy group swallows converts to its value |
| Normalize.MetresLoneSpaceRaises | rando_scrapper/scraper.py:167-170 | a space then 'm' with no number before it gives a group of only whitespace, and int("") raises |
| Tables.Assign | rando_scrapper/scraper.py:156 | dict assignment: the value is replaced; the key is appended to the order only when new |
| Tables.TableOf | rando_scrapper/scraper.py:146-157 | a key is in the dict iff some qualifying row (two or more cells, non-empty key and value) has it |
| Tables.ExtractTable | rando_scrapper/scraper.py:146-157 | one loop over the rows of every table, taken in document order (the two nested loops flattened), computes TableOf of the rows |
| Tables.TableKeysFirstSeen | rando_scrapper/scraper.py:146-157 | the keys are the keys of the qualifying rows (two or more cells, non-empty key and value), without repeats, in first-seen order |
| Tables.TableLastWriteWins | rando_scrapper/scraper.py:155-156 | a key's value is that of its last qualifying row; a key with no qualifying row is absent |
| Tables.LastValue | rando_scrapper/scraper.py:152-156 | the value is absent iff no qualifying row has the key |
| Options.Or | rando_scrapper/scraper.py:188 | `a or b`: a when a is truthy, otherwise b (also the two `Lieu d'arrivée` spellings and the two walking-time labels) |
| Extract.StripSiteSuffix | rando_scrapper/scraper.py:184-185 | a title without the site suffix is unchanged |
| Extract.SiteSuffixRemoved | rando_scrapper/scraper.py:184-185 | a title ending in the suffix becomes the stripped rest |
| Extract.TitleKeepsInnerDash | rando_scrapper/scraper.py:183-185 | only the trailing site name goes: "A – B" plus the suffix keeps its own " – " |
| Extract.TitleOf | rando_scrapper/scraper.py:179-185 | a present `<h1>` gives the title, with the site suffix removed; only without one does `<title>` give it, the same way; with neither the title is empty |
| Extract.MapLinkOf | rando_scrapper/scraper.py:201-205 | no link iff no anchor points at schweizmobil.ch or suissemobile; a link is an anchor's href |
| Extract.FindMapLink | rando_scrapper/scraper.py:201-205 | the loop with `break` returns the first such href |
| Extract.MatchTags | rando_scrapper/scraper.py:209-220 | the tags kept are, in list order, exactly those whose lower-cased form occurs in the lower-cased raw cell |
| Extract.EnvTags | rando_scrapper/scraper.py:207-225 | empty iff the raw cell is empty and the season has no "hiver"; otherwise the matched tags then Hivernal for a winter season; failing both, the stripped raw cell |
| Extract.DeriveEnvironnements | rando_scrapper/scraper.py:207-225 | the appending loops compute EnvTags |
| Extract.TypeParcours | rando_scrapper/scraper.py:227-232 | set iff both places are truthy; "En boucle" iff they are equal once stripped, otherwise "Linéaire" |
| Extract.HikeOf | rando_scrapper/scraper.py:174-266 | no hike iff converting the distance, ascent, descent or walking time raises; the hike keeps the URL and the extracted table |
| Extract.ParseHikePage | rando_scrapper/scraper.py:174-266 | the method computes HikeOf |
| Extract.EnvironnementIsFirst | rando_scrapper/scraper.py:241-242 | `environnement` is the head of `environnements` when that is non-empty, and absent exactly when it is empty |
| Extract.HikeLabelsCanonical | rando_scrapper/scraper.py:234-239 | every normalised field is a label of its list; the km and ascent labels are set iff the numbers are |
| Links.IsDatePath | rando_scrapper/scraper.py:17-18 | a date path has a non-empty first slug character after /YYYY/MM/DD/ |
| Links.DatePathAccepts | rando_scrapper/scraper.py:17-18 | /YYYY/MM/DD/slug matches, with or without the final slash |
| Links.DatePathRejects | rando_scrapper/scraper.py:18 | a missing day, an empty slug or a slug holding a slash does not match |
| Links.TrimSlash | rando_scrapper/scraper.py:277-278 | exactly one trailing slash is removed |
| Links.Candidate | rando_scrapper/scraper.py:275-283 | an anchor yields a URL only if it contains randoromandie.com and its trimmed path is a date path |
| Links.CandidatesMembers | rando_scrapper/scraper.py:274-283 | a URL is a candidate iff some anchor yields it |
| Links.SlashVariantsAgree | rando_scrapper/scraper.py:276-280 | "/path/" and "/path" give the same URL, so the site's two link forms are not counted twice |
| Links.PostLinks | rando_scrapper/scraper.py:269-287 | the loop with its `seen` set computes the candidates without repeats |
| Links.PostLinksSpec | rando_scrapper/scraper.py:269-287 | the links are distinct, in first-seen anchor order, each contains randoromandie.com, and they are exactly the candidates |
| Links.PageUrl | rando_scrapper/scraper.py:295 | every listing address is under the site root and ends with "/" |
| Links.PageUrlInjective | rando_scrapper/scraper.py:295 | different pages have different addresses |
| Links.PageUrls | rando_scrapper/scraper.py:293-295 | pages 1 .. n in order: the root plus "/" for page 1, "/page/n/" otherwise |
| Links.StopPage | rando_scrapper/scraper.py:294-304 | every page before the stop was fetched and listed a post; the stop is a failed or empty page, or lies past the bound |
| Links.UnionLinksMembers | rando_scrapper/scraper.py:305-306 | a URL is collected iff some crawled page before the stop lists it |
| Links.Requests | rando_scrapper/scraper.py:294 | at most max_pages pages are requested |
| Links.RepeatsDoNotStop | rando_scrapper/scraper.py:302-306 | a crawled page whose links were all collected before adds nothing to the union, yet the crawl goes past it |
| Links.FetchAllPostUrls | rando_scrapper/scraper.py:290-310 | the loop returns the sorted list of the links of the crawled pages, after requesting the pages in order |
| Links.CrawlMembers | rando_scrapper/scraper.py:290-310 | that list is strictly sorted and holds exactly the links listed by the pages before the stop |
| Links.HikeAt | rando_scrapper/scraper.py:328-332 | a hike scraped from a URL carries that URL |
| Links.HikesOf | rando_scrapper/scraper.py:326-337 | no more hikes than URLs; each is what the fetch and parse of one URL gave |
| Links.HikesOfOrder | rando_scrapper/scraper.py:326-337 | the hikes keep the order of their URLs |
| Links.HikesOfUrls | rando_scrapper/scraper.py:326-337 | a URL has a hike iff it is in the list and its fetch and parse succeed |
| Links.ScrapeOne | rando_scrapper/scraper.py:328-335 | a failed fetch or parse skips the URL |
| Links.ScrapeUrls | rando_scrapper/scraper.py:326-337 | the loop appends the hike of each URL that succeeds, in order |
| Links.ScrapeAll | rando_scrapper/scraper.py:313-337 | the hikes are those parsed, in sorted URL order, from the crawled URLs whose page fetches and parses; the others are skipped |
| Links.ScrapedUrlsSorted | rando_scrapper/scraper.py:325-337 | the scraped hikes have distinct URLs in the sorted order of the crawl |
| Seqs.Dedup | rando_scrapper/scraper.py:284-286 | the result is duplicate-free and has the same elements as its input |
| Seqs.DedupFirstSeenOrder | rando_scrapper/scraper.py:284-286 | kept elements appear in the order of their first occurrence |
| Seqs.SortedOf | rando_scrapper/scraper.py:310 | the sorted list of a set is strictly ascending and holds exactly the set's elements |
| Seqs.SortSet | rando_scrapper/scraper.py:310 | sorted() returns that list, the only strictly sorted list of the set's elements |
| Seqs.SortedUnique | rando_scrapper/scraper.py:310 | two strictly sorted lists with the same elements are equal, so sorted() is determined by the set |
| Seqs.StrLessTotal | rando_scrapper/scraper.py:310 | Python's string order compares any two distinct strings |
| Seqs.StrLessTransitive | rando_scrapper/scraper.py:310 | Python's string order is transitive |
| Store.HikeToRow | rando_scrapper/scraper.py:340-366 | the row keeps the URL; the tag list and the raw table are NULL exactly when empty |
| Store.RowTagsRoundTrip | rando_scrapper/scraper.py:350 | splitting the stored tag text on commas gives back the tag list |
| Store.UpsertAll | rando_scrapper/scraper.py:419-422 | no row is dropped, and every saved hike's URL holds a row with that URL |
| Store.UpsertAllLookup | rando_scrapper/scraper.py:419-422 | after the upserts a URL maps to the row of its last hike, other rows are kept, and no other URL appears |
| Store.UpsertAllIdempotent | rando_scrapper/scraper.py:419-422 | saving the same hikes twice gives the same table as saving them once |
| Store.HikeStore.SaveHikes | rando_scrapper/scraper.py:407-424 | an empty list writes nothing; otherwise each hike's row replaces any row with the same URL |
| Filtering.SeasonOfPart | rando_scrapper/filtering.py:30-41 | on the stripped, lower-cased segment: Printemps iff it has "printemps"; else Été iff it has "été" or "ete"; else Automne iff "automne"; else Hiver iff "hiver"; none iff it has none of the five words |
| Filtering.PartsSeasons | rando_scrapper/filtering.py:29-42 | the seasons named by the segments, a subset of the canonical four |
| Filtering.SaisonSet | rando_scrapper/filtering.py:22-42 | absent or blank gives {}; "toute l'année" after normalising gives all four; otherwise the seasons the segments name |
| Filtering.ParseSaison | rando_scrapper/filtering.py:22-42 | the loop over the segments computes SaisonSet |
| Filtering.NoSeasonText | rando_scrapper/filtering.py:24-25 | None and "" give no season |
| Filtering.YearRoundText | rando_scrapper/filtering.py:26-28 | "Toute l'année" gives all four seasons |
| Filtering.HiverPart | rando_scrapper/filtering.py:40-41 | the segment "Hiver" names winter |
| Filtering.EtePart | rando_scrapper/filtering.py:36-37 | the segment " Été" names summer |
| Filtering.TwoSeasonsText | rando_scrapper/filtering.py:29-42 | "Hiver, Été" gives exactly winter and summer |
| Filtering.MatchesSaison | rando_scrapper/filtering.py:92-103 | an empty selection matches nothing; without the year-round label a row matches iff its parsed seasons meet the selection; with it, a row matches iff its seasons are all four or meet the other selected labels (the union of the paths) |
| Filtering.YearRoundOrSeason | rando_scrapper/filtering.py:92-103 | with "Toute l'année" and "Hiver" selected a winter-and-summer row matches; with "Toute l'année" and "Printemps" it does not |
| Filtering.HasAllEnvs | rando_scrapper/filtering.py:106-112 | a row passes iff every selected tag is among its environment tags |
| Filtering.FilterHikes | rando_scrapper/filtering.py:45-116 | the result is a subsequence of the input holding exactly the rows that pass every active dimension |
| Filtering.KeepWhere | rando_scrapper/filtering.py:57-59 | the reference filter: an order-preserving subsequence of the rows that every active dimension admits |
| Filtering.StepsAreKeepWhere | rando_scrapper/filtering.py:66-114 | the chain of comprehensions equals one pass of the reference filter |
| Filtering.FilterIsConjunction | rando_scrapper/filtering.py:57-116 | filter_hikes keeps, in order, exactly the rows that pass every selected dimension |
| Filtering.AdmitsOrder | rando_scrapper/filtering.py:66-114 | passing the eight steps is passing every active dimension |
| Filtering.FilterNoSelection | rando_scrapper/filtering.py:63-66 | with nothing selected the input comes back unchanged |
| Filtering.FilterMonotone | rando_scrapper/filtering.py:66-116 | adding a selection never enlarges the result, which stays a subsequence |
| Filtering.NarrowsAdmits | rando_scrapper/filtering.py:66-114 | a row admitted by a narrower selection is admitted by the wider one |
| Filtering.LiteralYearRoundIsAllSeasons | rando_scrapper/filtering.py:95-100 | the literal year-round test implies the all-four-seasons test |
| Filtering.OnlyYearRound | rando_scrapper/filtering.py:94-103 | selecting only "Toute l'année" keeps exactly the rows whose season set is all four |
| Filtering.JoinedTagsReadBack | rando_scrapper/filtering.py:106-111 | the tags read back from a joined tag list are the tags joined |
| Filtering.StoredTagsReadBack | rando_scrapper/filtering.py:106-111 | when every tag and the single environnement are non-empty, comma-free and unpadded, the environment set the filter reads from the stored row is the hike's tags plus its single environnement |
| Filtering.RawFallbackReadBack | rando_scrapper/filtering.py:106-111 | a hike whose only tag is its stripped raw environment cell reads back as that cell plus each stripped piece of it between commas |
| Filtering.AndAcrossDimensions | rando_scrapper/filtering.py:67-84 | of two Vaud rows graded T1 and T2, selecting Vaud and T1 keeps only the first |
| Filtering.EnvironmentsAreAllRequired | rando_scrapper/filtering.py:104-114 | selecting Montagne and Gorges rejects a row tagged Montagne only and keeps one tagged with both |
| InfoTable.KnownKeys | app.py:36 | the site keys the raw table holds, and nothing else |
| InfoTable.KnownKeysOrder | app.py:36 | those keys keep site order and stay distinct |
| InfoTable.OtherKeys | app.py:37-39 | the raw keys that are not site keys, and nothing else |
| InfoTable.OtherKeysOrder | app.py:37-39 | those keys keep insertion order and stay distinct |
| InfoTable.SiteKeysDistinct | app.py:16-29 | the twelve site keys are distinct |
| InfoTable.RawKeysExact | app.py:34-40 | the raw branch's keys are distinct and are exactly the table's keys |
| InfoTable.RawRowsPermutation | app.py:34-40 | every raw entry appears exactly once, with its value, so there are as many rows as keys |
| InfoTable.RawRowsOrder | app.py:36-39 | site keys come first in site order; the others follow in insertion order |
| InfoTable.FieldRowsSelection | app.py:41-66 | the fallback shows, in site order, one entry for each key whose field is set, and nothing else |
| InfoTable.SiteEntries | app.py:36 | the comprehension gives the entries of the held site keys in site order |
| InfoTable.AppendOtherEntries | app.py:37-39 | the loop appends the other entries in insertion order |
| InfoTable.RawInfoRows | app.py:34-40 | the raw branch computes RawRows |
| InfoTable.FieldInfoRows | app.py:41-66 | the twelve field tests compute FieldRows |
| InfoTable.InfoRows | app.py:32-66 | a non-empty raw table gives rows whose keys are a permutation of its keys; otherwise the keys are a subsequence of INFO_TABLE_KEYS |
| InfoTable.HikeInfoTable | app.py:32-66 | the raw table when it is non-empty, the field rows otherwise |

## Left out

- HTTP is left out: sessions, headers, timeouts, `raise_for_status`, `time.sleep` and `print`. The fetch is a function parameter, and a failed request is `None`.
- BeautifulSoup and `get_text` are left out. Table rows, heading texts and anchors arrive as sequences of strings. The double visit of a nested table's rows by `find_all("tr")` is not modelled.
- `urlparse` is left out: each anchor carries the path it would give. `urljoin(BASE_URL, path)` for a path starting with "/" is `BASE_URL + path`.
- The general regular-expression engine is left out. Only the four patterns used are recognised by hand.
- `str.lower` covers ASCII and the Latin-1 letters (plus Œ and Ÿ), not full Unicode case mapping. `\d` and `str.isdigit` cover ASCII digits only.
- IEEE floating point is left out: distances and hours are exact reals.
- `create_schema`, `json.dumps`/`json.loads` and `load_hikes_from_db` are left out. A row keeps the raw table as the dict that JSON text encodes, and a NULL raw table reads as empty.
- The Streamlit UI of `app.py` outside `_hike_info_table` is not part of this model. Neither are `filter_options`, a constant lookup, or the command-line driver `scripts/run_scraper.py`.
- InfoTable.FieldRowsSelection: a distance or an ascent is shown as a number with its unit (`Kilometres`, `Metres`), not as the text Python's formatting produces. The twelve literal `if`s are modelled as one loop over the key positions.
- Links.FetchAllPostUrls: the list of requested page addresses is a ghost output, so the request order is stated but not checked as a value the caller can see.
- Filtering.FilterIsConjunction: a selection of `None` and an empty list both switch a dimension off and are modelled alike as the empty sequence.
- Exceptions other than the `ValueError` of a numeric conversion are not modelled.

## Notes on the code

- The docstring of `filter_hikes` says a hike needs at least one of the selected environments. The code, and its own comment, require all of them (rando_scrapper/filtering.py:112). The model follows the code: `Filtering.EnvironmentsAreAllRequired`.
- When no known environment matches and the season does not mention "hiver" (which would add "Hivernal" first, rando_scrapper/scraper.py:221-223), the stripped raw cell becomes the only tag and the single `environnement` (rando_scrapper/scraper.py:224-225, 242). The stored tag text is split at commas again by the filter, so a raw cell such as "Forêt, pâturages" reads back as the whole cell and as "Forêt" and "pâturages": `Filtering.RawFallbackReadBack`.
- The crawl stops on a listing page with no links at all. A page whose links were all seen before does not stop it: `Links.RepeatsDoNotStop`.
