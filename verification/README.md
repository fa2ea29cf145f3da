# scrape-cineco: snapshot diff and report engine, in Dafny

scrape-cineco reads the Cine Colombia listing pages "cartelera" (showing) and
"pronto" (coming soon). It turns each listed movie into a record and assembles
the records of one scrape into a snapshot. It then compares today's snapshot
with an earlier one and renders the differences as a Markdown message. This
project models that engine and proves what it promises:

- `wrappers.dfy`, module `Wrappers`: `Option` and `Result`.
- `pystr.dfy`, module `PyStr`: the Python string operations the parser relies
  on: `strip`, `lower`, `replace(label, "")`, `in`, `split(sep)`, `sep.join`,
  `splitlines`, `split()` on whitespace and sorting a set of strings. Some carry
  contracts of their own. Others (`Join`, `HasSubstring`, `SplitLines`) are
  plain definitions, and lemmas state their properties. The module also holds
  the zero-padded decimal digits that spell a date the way `str(date)` does in
  the report's headings. It also has a character count (`Count`), used only to
  prove how many lines the report renders.
- `months.dfy`, module `SpanishMonths`: the twelve-entry month table and its lookup.
- `movies.dfy`, module `Movies`: movie records, their identity (title and
  premiere date), membership by identity, `group_by_status`, the stable sort by
  premiere date, and the `sorted(set(movies))` assembly of a snapshot.
- `parser.dfy`, module `ListingParser`: the field rules of `parse_html`, applied
  to the text the HTML selection has already extracted. These are the premiere
  date rewrite, the genre normalisation, the badge rules, the default status
  from the page and the empty-page error. The method `ParseHtml` runs the item
  loop and the meta loop the way `parse_html` does. It is proved equal to the
  specification function `ParsePage`.
- `report.dfy`, module `CompareReport`: `build_compare_message`. The function
  `Compare` says which lines the message holds and how each is marked. The
  `Render…` functions say how they are spelled. The method `BuildCompareMessage`
  grows the message with `build_compare_message`'s loops and is proved to produce
  `RenderReport(Compare(newer, older))`.

## Behaviour of the code worth noting

- The date text is stripped only at its ends, then split on "-". The tokens
  themselves keep their spaces, so "Estreno: 05 - dic" fails on the month " dic"
  (`ListingParser.SpacedDateFails`).
- The month token is looked up whole and must equal one of the twelve keys.
  The tokens are then written in reverse order, so the year is whatever the
  text gives as its last token.
- An empty badge text raises like any other unknown badge.
- Genres keep their case, and an empty genre token is kept as an empty genre.
- When the same movie is listed on both pages, the set keeps the first record
  it meets, with that record's status.
- The sort orders by premiere date only and is stable. Pronto movies that share
  a date stay in snapshot order.

## Model

| member | source | states |
|---|---|---|
| Movies.SameMovie | src/scrape_cineco/__main__.py:42-43 | `__eq__`: two records are equal when their titles and premiere dates agree, whatever their other fields; SameMovieIsIdentity and SameMovieEquivalence state what this means |
| Movies.SameMovieIsIdentity | src/scrape_cineco/__main__.py:39-43 | two records are equal exactly when their (title, premiere date) keys are equal |
| Movies.SameMovieEquivalence | src/scrape_cineco/__main__.py:42-43 | equality of records is reflexive, symmetric and transitive |
| Movies.SameMovieIgnoresOtherFields | src/scrape_cineco/__main__.py:42-43 | changing URL, status, genres or the two flags leaves a record equal to itself |
| Movies.EqualMoviesHashEqual | src/scrape_cineco/__main__.py:39-43 | equal records have equal hashes, whatever the tuple hash is |
| Movies.MovieHash | src/scrape_cineco/__main__.py:39-40 | `__hash__`: the hash of the (title, premiere date) pair under a hash function taken as a parameter; EqualMoviesHashEqual states that it agrees with `__eq__` |
| Movies.Contains | src/scrape_cineco/__main__.py:83-84 | `movie in list` holds exactly when some element has the same title and premiere date |
| Movies.ContainsRespectsIdentity | src/scrape_cineco/__main__.py:42-43 | membership gives the same answer for two equal records |
| Movies.ContainsAppend | src/scrape_cineco/__main__.py:83-84 | a list with one more element contains a movie exactly when the shorter list does or the new element equals it |
| Movies.InSnapshot | src/scrape_cineco/__main__.py:83-84 | `movie in snapshot`: membership, by `__eq__`, among all the snapshot's movies whatever their status; ProntoFarewells shows that the Pronto farewells test against the whole newer snapshot |
| Movies.OfStatus | src/scrape_cineco/__main__.py:51-52 | the filtered list holds exactly the movies of that status, and only movies of that status |
| Movies.GroupByStatus | src/scrape_cineco/__main__.py:49-53 | both statuses are keys, even when a list is empty, and each maps to the movies of that status |
| Movies.GroupingCounts | src/scrape_cineco/__main__.py:49-53 | each movie occurs in its own status's list as often as in the snapshot, and in the other list not at all |
| Movies.GroupingPartitions | src/scrape_cineco/__main__.py:49-53 | together the two lists are the snapshot, as a multiset |
| Movies.GroupingKeepsOrder | src/scrape_cineco/__main__.py:51 | each list is a subsequence of the snapshot, so relative order is kept |
| Movies.InsertByDate | src/scrape_cineco/__main__.py:105 | inserting into a date-sorted list keeps it sorted and adds exactly that element |
| Movies.SortByDate | src/scrape_cineco/__main__.py:105 | `sorted(key=premiere_date, reverse=…)` is ordered by date and is a permutation of its input |
| Movies.SortIsStable | src/scrape_cineco/__main__.py:178-182 | movies with the same date keep their input order after the sort, in either direction |
| Movies.AddAllToSet | src/scrape_cineco/__main__.py:105 | `set(movies)` has no two equal records, takes its elements from the input and represents every input |
| Movies.SetKeepsFirstOccurrence | src/scrape_cineco/__main__.py:105 | the record a set keeps is the first occurrence of its identity in the input |
| Movies.Assemble | src/scrape_cineco/__main__.py:105 | the snapshot has no two equal records, ascends by date, represents every input identity and holds only inputs |
| Movies.AssemblySize | src/scrape_cineco/__main__.py:105 | any such assembly has one record per distinct identity of the input |
| SpanishMonths.SpanishMonthToNumber | src/scrape_cineco/_utils.py:17-18 | the lookup succeeds exactly on the twelve keys and always gives two characters |
| SpanishMonths.TableInCalendarOrder | src/scrape_cineco/_utils.py:2-13 | the i-th key in calendar order maps to i as two zero-padded digits |
| SpanishMonths.TableInjective | src/scrape_cineco/_utils.py:1-14 | two keys with the same number are the same key |
| SpanishMonths.KeyOfNumber | src/scrape_cineco/_utils.py:1-14 | the number a key maps to, read as a decimal, is that key's place in calendar order |
| SpanishMonths.TableOnto | src/scrape_cineco/_utils.py:1-14 | every number from "01" to "12" is the image of some key |
| SpanishMonths.LookupIsMonthNumber | src/scrape_cineco/_utils.py:1-14 | every result is two decimal digits denoting a month from 1 to 12 |
| SpanishMonths.LookupIsExactMatch | src/scrape_cineco/_utils.py:17-18 | only three lower-case ASCII letters can be found |
| SpanishMonths.NearMissesFail | src/scrape_cineco/_utils.py:17-18 | "Dic", "diciembre" and " dic" are not found |
| PyStr.Strip | src/scrape_cineco/__main__.py:131 | the result is the text between the leading and trailing whitespace and begins and ends with non-whitespace |
| PyStr.Lower | src/scrape_cineco/__main__.py:131 | each character is lower-cased in place and the length is kept |
| PyStr.RemoveAll | src/scrape_cineco/__main__.py:131 | `replace(pat, "")` never lengthens the text and leaves text without the pattern unchanged; RemoveLabel and GenreLabelRemoved show it removing the labels |
| PyStr.HasSubstringAt | src/scrape_cineco/__main__.py:130 | `label in text` holds exactly when the label occurs at some position |
| PyStr.Split | src/scrape_cineco/__main__.py:131 | `split(sep)` gives at least one piece, none containing the separator, and joining them gives the text back |
| PyStr.Join | src/scrape_cineco/__main__.py:133 | `sep.join(parts)` for a one-character separator; SplitJoin states that `split` undoes it on separator-free pieces |
| PyStr.SplitJoin | src/scrape_cineco/__main__.py:131-133 | splitting the join of separator-free pieces gives the pieces back |
| PyStr.SplitLines | src/scrape_cineco/__main__.py:138 | `splitlines()`: the lines between line boundaries, a `\r\n` pair counting as one; WordsIgnoreLineJoin states that re-joining them with spaces keeps the words |
| PyStr.Words | src/scrape_cineco/__main__.py:140 | `split()` with no argument gives only non-empty pieces free of whitespace; CollapseSpaces and WordsAcrossSpace state how it treats runs of whitespace |
| PyStr.WordsIgnoreLineJoin | src/scrape_cineco/__main__.py:138 | joining the lines with spaces changes none of the words |
| PyStr.CollapseSpaces | src/scrape_cineco/__main__.py:140 | `" ".join(text.split())` is single-spaced with no space at its ends and has the same words |
| PyStr.SplitSingleSpaced | src/scrape_cineco/__main__.py:141 | splitting single-spaced text gives single-spaced pieces |
| PyStr.StripCollapsed | src/scrape_cineco/__main__.py:141 | stripping a single-spaced piece leaves it single-spaced with no space at its ends |
| PyStr.StrLtTransitive | src/scrape_cineco/__main__.py:141 | the string order used by `sorted` is transitive |
| PyStr.StrLtTotal | src/scrape_cineco/__main__.py:141 | any two different strings are ordered one way or the other |
| PyStr.StrLtIrreflexive | src/scrape_cineco/__main__.py:141 | no string precedes itself |
| PyStr.SortedSet | src/scrape_cineco/__main__.py:141 | `sorted({…})` strictly increases and holds exactly the input's elements |
| PyStr.StrictlySortedUnique | src/scrape_cineco/__main__.py:141 | two strictly sorted lists with the same elements are equal |
| PyStr.DigitsValue | src/scrape_cineco/__main__.py:206 | zero-padded digits read back as the number they render |
| ListingParser.DateTokens | src/scrape_cineco/__main__.py:131 | the date tokens are at least one, none contains "-", and joined with "-" they give back the stripped, lower-cased text without the label |
| ListingParser.ReorderDate | src/scrape_cineco/__main__.py:132-133 | the rewrite succeeds exactly when there is a second token and it is a month key |
| ListingParser.RewriteDate | src/scrape_cineco/__main__.py:131-133 | the "Estreno:" meta text cut at its dashes, the month token replaced by its number and the tokens joined in reverse order; it fails when there is no month token or the month is not in the table; RewriteDateTokens, DayMonthYearText and SpacedDateFails state what it produces and when it fails |
| ListingParser.DayMonthYear | src/scrape_cineco/__main__.py:131-133 | dd-mmm-yyyy tokens come out as yyyy-mm-dd with the month's number |
| ListingParser.DayMonthYearText | src/scrape_cineco/__main__.py:130-133 | "Estreno: dd-mmm-yyyy" with a numeric day and year rewrites to yyyy-mm-dd |
| ListingParser.SpacedDateFails | src/scrape_cineco/__main__.py:131-132 | "Estreno: dd - mmm" fails on the unknown month " mmm" |
| ListingParser.RewriteDateTokens | src/scrape_cineco/__main__.py:131-133 | the rewritten date splits into the text's tokens reversed, with the month replaced by its number |
| ListingParser.RemoveLabel | src/scrape_cineco/__main__.py:131 | a leading "Estreno:" is removed like every other occurrence: the rest is treated as if the label were not there |
| ListingParser.PlainLabelRemoved | src/scrape_cineco/__main__.py:131 | "Estreno:" followed by a space and plain date text leaves exactly the space and that text |
| ListingParser.GenreTokens | src/scrape_cineco/__main__.py:141 | every trimmed genre token is single-spaced, has no space at its ends and has no comma |
| ListingParser.NormalizeGenres | src/scrape_cineco/__main__.py:136-141 | the genres strictly increase, are exactly the trimmed tokens, and are single-spaced without commas |
| ListingParser.GenreLabelRemoved | src/scrape_cineco/__main__.py:136-137 | a leading "Género:" is removed like every other occurrence: the rest is treated as if the label were not there |
| ListingParser.GenreText | src/scrape_cineco/__main__.py:136-140 | the genre text without its label, its lines joined and its whitespace collapsed; GenreTextKeepsWords and PlainGenreText state what it keeps |
| ListingParser.PlainGenreText | src/scrape_cineco/__main__.py:136-140 | "Género:" followed by text without a "G" is read as that text alone, stripped, its lines joined with spaces and its spaces collapsed |
| ListingParser.GenreTextKeepsWords | src/scrape_cineco/__main__.py:136-140 | collapsing lines and whitespace keeps every word of the label-free text |
| ListingParser.GenresAreTheSortedSet | src/scrape_cineco/__main__.py:141 | the genre list is the one strictly sorted list of the token set, whatever the tokens' order or repeats |
| ListingParser.ApplyMeta | src/scrape_cineco/__main__.py:127-141 | one meta step: a date meta sets the date or fails, a genre meta sets the genres, any other text changes nothing; ScanFailsOnBadDate, LastDateMetaWins and LastGenreMetaWins state its effect over a whole item |
| ListingParser.ScanMetas | src/scrape_cineco/__main__.py:127-141 | the meta loop as a fold of ApplyMeta over the item's metas; ReadMetas is proved equal to it, and ScanFailsOnBadDate, LastDateMetaWins and LastGenreMetaWins state its result |
| ListingParser.ScanFailsOnBadDate | src/scrape_cineco/__main__.py:127-133 | the meta loop raises exactly when some date meta fails to rewrite |
| ListingParser.DateUnsetWithoutDateMeta | src/scrape_cineco/__main__.py:121-133 | the premiere date stays unset exactly when no meta contains "Estreno:" |
| ListingParser.LastDateMetaWins | src/scrape_cineco/__main__.py:127-133 | a set premiere date is the rewrite of the last date meta |
| ListingParser.GenresEmptyWithoutGenreMeta | src/scrape_cineco/__main__.py:122-141 | without a meta containing "Género:" (and no "Estreno:"), the genres stay empty |
| ListingParser.LastGenreMetaWins | src/scrape_cineco/__main__.py:135-141 | the genres are the normalisation of the last genre meta |
| ListingParser.ApplyBadge | src/scrape_cineco/__main__.py:143-151 | the badge match: no badge, "Estreno" or "Preventa" give the flags and status, any other text raises; BadgeRules and UnknownBadgeRaises state each case |
| ListingParser.BadgeRules | src/scrape_cineco/__main__.py:123-151 | no badge keeps the page's status and both flags off; "Estreno" sets only premiere; "Preventa" sets presale and status Pronto; no other badge gets through |
| ListingParser.UnknownBadgeRaises | src/scrape_cineco/__main__.py:150-151 | any other badge text, the empty text included, raises with that text |
| ListingParser.ParseItem | src/scrape_cineco/__main__.py:120-163 | one item: the metas, then the badge, then the record, failing at the first of these that raises and when the premiere date is missing or does not convert; BadgeRules, ParsedFields and UnknownBadgeRaises state the record it builds |
| ListingParser.ParsedFields | src/scrape_cineco/__main__.py:153-162 | a record has the item's title, the base URL plus the href, the converted premiere date and the normalised genres |
| ListingParser.ParseItems | src/scrape_cineco/__main__.py:117-163 | the item loop: every item parsed in page order, or the first failure; PageIsItemwise and FailurePropagates state this |
| ListingParser.ParsePage | src/scrape_cineco/__main__.py:117-166 | `parse_html` after the HTML is read: the item loop, and an error on a page without items; ParseHtml is proved equal to it, and EmptyPageFails and ParsedPageNonEmpty state the empty-page case |
| ListingParser.PageIsItemwise | src/scrape_cineco/__main__.py:118-163 | the item loop succeeds exactly when every item parses, giving their records in page order |
| ListingParser.EmptyPageFails | src/scrape_cineco/__main__.py:164-165 | a page without items raises "no movies found" for its status |
| ListingParser.ParsedPageNonEmpty | src/scrape_cineco/__main__.py:164-166 | a page that succeeds has one record per item and at least one |
| ListingParser.FailurePropagates | src/scrape_cineco/__main__.py:120-163 | once an item fails, the page fails with that item's error |
| ListingParser.ReadMetas | src/scrape_cineco/__main__.py:127-141 | the meta loop ends with the fields, or the error, of the meta scan |
| ListingParser.ParseHtml | src/scrape_cineco/__main__.py:117-166 | the loops return the page's records, or its first error, or the empty-page error |
| CompareReport.Compare | src/scrape_cineco/__main__.py:172-216 | the four parts of the message as data; CarteleraSection, CarteleraFarewells, ProntoCoversNewer, ProntoOrder, ProntoLines and ProntoFarewells state what each part holds |
| CompareReport.Mark | src/scrape_cineco/__main__.py:183-188 | one line per movie, in order, marked new when the older list lacks it and with popcorn when allowed and premiering; CarteleraMarks and ProntoLines state these marks for the report |
| CompareReport.Departed | src/scrape_cineco/__main__.py:192-194 | the farewell list holds each old movie absent from the current list, as often as it occurs, and nothing else, in the older list's order |
| CompareReport.RunsByDate | src/scrape_cineco/__main__.py:200-203 | the runs rebuild the list, each run is non-empty and of one date, and neighbouring runs differ in date |
| CompareReport.RunsAscend | src/scrape_cineco/__main__.py:198-204 | on a date-sorted list the run dates strictly ascend, so each date is one dictionary key |
| CompareReport.Blocks | src/scrape_cineco/__main__.py:198-212 | one Pronto block per run of equal dates, headed by that date; BlocksHoldRuns and ProntoDatesAscend state what the blocks hold and their order |
| CompareReport.BlocksHoldRuns | src/scrape_cineco/__main__.py:205-212 | the Pronto blocks hold the runs' movies, run after run |
| CompareReport.IsoFormat | src/scrape_cineco/__main__.py:206 | `str(date)` as year-month-day with zero padding; IsoFormatReadsBack states that the heading reads back as the date |
| CompareReport.RenderEntry | src/scrape_cineco/__main__.py:183-189 | the spelling of one movie line; EntryLine is proved to build the same text, and EntriesAreLines states that each line is one line |
| CompareReport.RenderReport | src/scrape_cineco/__main__.py:172-216 | the spelling of the whole message from its four parts; BuildCompareMessage is proved to build the same text |
| CompareReport.BuildCompareMessage | src/scrape_cineco/__main__.py:169-218 | the message is the rendering of the comparison of the newer snapshot with the older |
| CompareReport.AppendEntries | src/scrape_cineco/__main__.py:178-190 | the loop appends one line per movie, marked against the older list |
| CompareReport.AppendFarewells | src/scrape_cineco/__main__.py:192-194 | the loop appends a farewell for each old movie the current list lacks |
| CompareReport.AppendBlocks | src/scrape_cineco/__main__.py:205-212 | the loop appends a date heading and the lines of each run |
| CompareReport.EntryLine | src/scrape_cineco/__main__.py:183-189 | a line is "- ", the optional markers, then the Markdown link |
| CompareReport.CarteleraSection | src/scrape_cineco/__main__.py:178-190 | Cartelera lines list the newer Cartelera movies, newest first and stable; popcorn exactly on premieres; new exactly when absent from the older Cartelera list |
| CompareReport.CarteleraFarewells | src/scrape_cineco/__main__.py:192-194 | a Cartelera farewell is bid exactly for each older Cartelera movie absent from the newer Cartelera list |
| CompareReport.DemotionIsAFarewell | src/scrape_cineco/__main__.py:192-194 | a Cartelera movie that moved to Pronto gets a Cartelera farewell |
| CompareReport.ProntoDatesAscend | src/scrape_cineco/__main__.py:198-206 | the Pronto date headings strictly ascend, so each appears once |
| CompareReport.ProntoLines | src/scrape_cineco/__main__.py:205-212 | each block is non-empty with only movies of its date; no popcorn; new exactly when absent from the older Pronto list |
| CompareReport.ProntoCoversNewer | src/scrape_cineco/__main__.py:198-212 | each newer Pronto movie is listed as often as the snapshot holds it, and nothing else is |
| CompareReport.ProntoOrder | src/scrape_cineco/__main__.py:198-212 | the Pronto blocks list the newer Pronto movies sorted ascending by date, and movies sharing a date keep their snapshot order |
| CompareReport.ProntoFarewells | src/scrape_cineco/__main__.py:214-216 | a Pronto farewell is bid exactly for each older Pronto movie absent from the whole newer snapshot |
| CompareReport.GraduationIsNoFarewell | src/scrape_cineco/__main__.py:214-216 | a Pronto movie that moved to Cartelera gets no farewell and is listed under Cartelera |
| CompareReport.GraduationIsNew | src/scrape_cineco/__main__.py:186-188 | a movie that moved from Pronto to Cartelera is marked new under Cartelera |
| CompareReport.SelfCompareNoNewShowing | src/scrape_cineco/__main__.py:186-188 | comparing a snapshot with itself marks no Cartelera line new |
| CompareReport.SelfCompareNoNewComing | src/scrape_cineco/__main__.py:209-210 | comparing a snapshot with itself marks no Pronto line new |
| CompareReport.SelfCompareNoFarewell | src/scrape_cineco/__main__.py:192-216 | comparing a snapshot with itself bids no farewell |
| CompareReport.IsoFormatReadsBack | src/scrape_cineco/__main__.py:206 | a date heading splits into year, month and day digits that read back as the date |
| CompareReport.EntriesAreLines | src/scrape_cineco/__main__.py:183-190 | with one-line titles and URLs, the listing has exactly one line break per movie |
| CompareReport.FarewellsAreLines | src/scrape_cineco/__main__.py:194 | with one-line titles, each farewell is exactly one line |

## Left out

- Fetching the two pages (`CinecoScraper.scrape`): HTTP and `asyncio.as_completed`. The order in which pages arrive is a given input order of records.
- HTML selection with selectolax. A listing item comes in as its already extracted texts (`RawItem`): title, href, the stripped meta texts and the stripped badge text.
- Saving HTML and JSON, S3 upload and download, `main()` with its clock, time zone, gist and notification subprocesses, and the settings loading. These are I/O only.
- Pydantic's conversions. The "yyyy-mm-dd" text becomes a date through a conversion function passed in as a parameter. The page slug comes in as a `Status` already, and a record whose date is missing or rejected is an `InvalidMovie` error.
- Movies.MovieHash: Python's tuple and string hashing is seeded per process, so the tuple hash is a parameter. Only "equal records hash equally" is stated.
- Movies.Assemble: Python's set iterates in hash order, which is not modelled. `Assemble` keeps the first occurrence and sorts stably. The promise itself is `IsAssembly`, which allows any representative and any order among equal dates.
- PyStr.Lower: only ASCII capitals are lower-cased. Python's full Unicode case mapping is not modelled; the month keys and date digits are ASCII.
- PyStr.RemoveAll: its own contract states only that the result is no longer than the text, and unchanged when the label does not occur. The label removals the parser needs are proved separately: for the date in `ListingParser.RemoveLabel` and `ListingParser.PlainLabelRemoved`, for the genres in `ListingParser.GenreLabelRemoved` and `ListingParser.PlainGenreText`.
- Dates are triples of natural numbers, and the model accepts any of them, including month 0 or 13 and year 0. Months 1..12, years 1..9999 and the number of days in a month are all left to the conversion parameter `toDate`.
- CompareReport.IsoFormatReadsBack: requires a year below 10000, the largest a Python date holds. For a larger year, `IsoFormat` writes only its last four digits.
- The rendered message is related to the comparison by `RenderReport`, not re-parsed. The report-level lemmas speak of `Compare`, because a title may itself contain a marker emoji.
