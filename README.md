# A model of the Moroccan House of Representatives legislation scraper

The scraper (`scraper.py`) drives a browser over the House of Representatives web site.
It does five things:

1. It reads the "التشريع" (legislation) menu to find three links: the bills
   ("مشاريع القوانين"), the private members' bills ("مقترحات القوانين") and the adopted
   texts ("النصوص المصادق عليها").
2. It walks the paginated listing of a bill category. It opens each bill's detail page
   and returns to the listing every time.
3. From each detail page it reads the readings. Each reading has a stage title, a deposit
   date, a committee and a vote tally.
4. It reads the vote tally out of free Arabic text.
5. For adopted texts, it gathers the legislature periods from a select control, keeping
   those from 2011 on. It then walks each period's listing and dates every record with
   the latest date heading seen so far.

The model replaces the browser with values:

- a page is a datatype holding what the scraper's CSS and XPath lookups would find on it;
- a site is a map from URL to page;
- a walk of listing pages is the sequence of pages that the "التالي" (next) link leads
  through;
- an element that is missing, or an exception, is an `Option` or a fault marker;
- navigation is an assignment to the scraper object's `current` field.

Python's string operations are modelled exactly, in module `Text`:

- `strip()` with ASCII whitespace;
- the `in` test;
- `split(sep)[0]`;
- `split(sep)[-1]`, as Python's left-to-right, non-overlapping scan.

`int()` on strings is in `Numbers`. It allows a sign, surrounding blanks and `_` digit
grouping. `urllib.parse.unquote` is in `Percent`, as UTF-8 decoding with replacement
characters.

Modules:

- `Text`, `Numbers`, `Percent`: the string primitives above.
- `Votes`: the tally parser. The three regular expressions are modelled as leftmost
  matches.
- `Readings`: the sections, blocks and detail lines of a detail page. It includes the
  loops as methods proved equal to the specification functions.
- `Listing`: the specification of the bill listing walk.
- `Adopted`: the legislature filter and the adopted-text walk, both as functions and as
  loop methods.
- `Scraper`: the menu-link classifier, and the class `Scraper`. The class holds the
  browser location `current`, the accumulated `laws` and the `legislationLinks`. Its methods
  change these fields as the source does.

## Model

| member | source | states |
|---|---|---|
| `Votes.LabelledAt` | scraper.py:256-286 | what one `re.search` match of `label\s*[:：]\s*(\d+)` (for abstentions, `(\d+|لا أحد)`) starting at a given position reads, None when no match starts there; a match begins with the label (definition; see `Votes.LabelledAtDigits`, `Votes.LabelledAtShape`) |
| `Votes.FirstMatch` | scraper.py:256-277 | the position found is where the labelled pattern matches, and no earlier position matches; None means no position matches |
| `Votes.SearchCount` | scraper.py:256-286 | `re.search` with the group's value: None exactly when the pattern matches nowhere; otherwise the value read at the leftmost match |
| `Votes.ParseVote` | scraper.py:245-293 | unanimous exactly when the text contains "الإجماع"; otherwise the yes, no and abstention counts are the leftmost matches of their patterns (only the abstention pattern takes "لا أحد"); rejected exactly when the rejection phrase occurs; approved exactly when the approval phrase occurs without the rejection phrase |
| `Votes.LabelledAtDigits` | scraper.py:256-272 | a label, optional blanks, an ASCII or full-width colon, optional blanks and a run of digits read as the digits' value |
| `Votes.LabelledAtNobody` | scraper.py:274-286 | after the abstention label and colon, "لا أحد" reads as 0, and the yes and no patterns do not accept it |
| `Votes.LabelledAtShape` | scraper.py:256-286 | conversely, every match of a labelled pattern is one of those two layouts, with the value read from the digits or 0 for "لا أحد" |
| `Votes.SearchCountAt` | scraper.py:256-286 | when the pattern matches at the first occurrence of its label, `re.search` reads the value there |
| `Votes.TallyOfLayout` | scraper.py:245-293 | a text such as "الموافقون: 120 … المعارضون: 30 … الممتنعون: لا أحد … صادقه مجلس النواب" parses to yes 120, no 30, abstain 0 and approved |
| `Readings.DepositOf` | scraper.py:220-225 | the deposit date is the stripped text after the last "تاريخ إحالته على المجلس:", and it never contains that phrase |
| `Readings.DepositWithoutColon` | scraper.py:220-225 | a line with the deposit phrase but no colon after it yields the whole line as the date |
| `Readings.VoteOf` | scraper.py:247-249 | the vote of a line is the tally parsed from the stripped text after its last "نتيجة التصويت" (definition; its properties are those of `Votes.ParseVote`) |
| `Readings.Touches` | scraper.py:217-296 | a stripped detail line sets its block's field exactly when it contains the kind's marker phrase, and for the plenary kind only when its vote is non-empty; an unrecognised caption sets nothing (definition; see `Readings.UntouchedKeeps`) |
| `Readings.ApplyDetail` | scraper.py:217-296 | one detail line strips its text and, when it touches the kind's field, overwrites that field (definition; see `Readings.DetailsKeepOthers`) |
| `Readings.ApplyDetails` | scraper.py:217-296 | the detail lines of a block applied in order (definition; see `Readings.LastMatchWins`) |
| `Readings.ApplyBlock` | scraper.py:208-244 | a block without a caption span is skipped; otherwise its details are applied under the kind of its stripped caption (definition; see `Readings.StageKept`) |
| `Readings.ApplyBlocks` | scraper.py:206-300 | the blocks of a section applied in order (definition; see `Readings.AttachedVotesNonEmpty`) |
| `Readings.DetailReadings` | scraper.py:184-302 | `law["readings"]` after the visit: the readings of the sections handled before any fault (definition; see `Readings.FaultKeepsPrefix`) |
| `Readings.CommissionOf` | scraper.py:230-240 | the committee name is cut before the first "في", so it never contains "في" |
| `Readings.SectionReading` | scraper.py:196-204 | a section yields a reading exactly when it has a title whose stripped text is non-empty, and the reading's stage is that text |
| `Readings.ReadingsOf` | scraper.py:195-302 | at most one reading per section, and every reading has a non-empty stage |
| `Readings.ReadingsStages` | scraper.py:198-204 | the readings of a page are, in order, one per section with a non-empty stripped title, staged by that title |
| `Readings.StageKept` | scraper.py:206-300 | no block changes a reading's stage |
| `Readings.DetailsKeepOthers` | scraper.py:217-244 | the detail lines of a block change only the field that its caption's kind owns |
| `Readings.UntouchedKeeps` | scraper.py:217-244 | detail lines without the kind's marker phrase leave the reading unchanged |
| `Readings.LastMatchWins` | scraper.py:217-244 | the field holds what the last matching detail line of the block says, whatever earlier lines set |
| `Readings.AttachedVotesNonEmpty` | scraper.py:295-296 | a vote dictionary is attached only when it has at least one key |
| `Readings.DetailVotesNonEmpty` | scraper.py:242-296 | the detail lines of one block keep a vote absent or non-empty |
| `Readings.ReadingsAppend` | scraper.py:195-302 | the readings of consecutive runs of sections are consecutive |
| `Readings.FaultKeepsPrefix` | scraper.py:184-195 | when an error interrupts a detail page, the readings already appended form a prefix of what the whole page would give |
| `Readings.ReadBlock` | scraper.py:208-244 | the detail-line loop computes the block's specification `ApplyDetails` |
| `Readings.ReadSection` | scraper.py:195-302 | the block loop plus the title and the non-empty-title test compute `SectionReading` |
| `Readings.ReadDetail` | scraper.py:191-302 | the readings of a detail page are those of the sections handled before any fault |
| `Readings.ReadSections` | scraper.py:195-302 | the section loop computes `ReadingsOf`, appending each section's reading in order |
| `Listing.Basic` | scraper.py:164-182 | an item yields a basic record exactly when it has a link with a `p`; the record carries the category and no readings |
| `Listing.Collected` | scraper.py:163-182 | `page_laws`: never more laws than items; the basic records of the items that have them, in item order |
| `Listing.CollectedFilter` | scraper.py:163-182 | a law is collected exactly when some item has a link with a `p` whose basic record it is |
| `Listing.CollectedHas` | scraper.py:163-182 | a law is collected exactly when it is among the items' basic records, item by item |
| `Listing.CollectedAppend` | scraper.py:163-182 | collecting two runs of items is collecting each, one after the other |
| `Listing.VisitedKeeps` | scraper.py:184-309 | every collected law is visited once, in order; it keeps its type, title and URL and gains its detail page's readings |
| `Listing.VisitedAppend` | scraper.py:184-309 | visiting two runs of laws is visiting each |
| `Listing.Visit` | scraper.py:184-309 | a law after its detail visit: the readings its URL's page yields are appended; no URL or a failing load adds none (definition; see `Listing.VisitedKeeps`) |
| `Listing.Visited` | scraper.py:184-309 | every law of a page visited in order (definition; see `Listing.VisitedKeeps`) |
| `Listing.Chain` | scraper.py:147-338 | the walk from page `i`: a page without items ends it, an enabled next link goes on to the next page, any other next link (missing, disabled, or its click or page load raising) ends it after the page (definition; see `Listing.ChainIsPages`) |
| `Listing.PageLaws` | scraper.py:163-309 | what one listing page contributes: its readable items' basic records, each visited in item order (definition; see `Listing.VisitedAppend`, `Listing.CollectedFilter`) |
| `Listing.Walk` | scraper.py:147-338 | the walk over the pages' contributions (definition; see `Listing.WalkIsPages`) |
| `Listing.WalkEnd` | scraper.py:147-338 | the browser ends on the last listing page the walk processed, where each detail visit returns, or on the page a next link was loading when its click or page load raised (definition; see `Listing.WalkEndAt`) |
| `Listing.WalkIsPages` | scraper.py:147-338 | the laws of the listing walk are the contributions of exactly the pages it processes, in page order |
| `Listing.ChainIsPages` | scraper.py:147-338 | the walk's recursion joins the contributions of the pages that `Span` counts |
| `Listing.SpanStops` | scraper.py:159-332 | the walk continues exactly while pages have items and an enabled next link is followed |
| `Listing.WalkEndAt` | scraper.py:154-332 | when the last processed page's next link was clicked, the browser ends on the page it led to, whether its load went through (leaving a page without items) or raised; otherwise it ends on the last processed page: the start page, or the page the page before it led to |
| `Adopted.LegislatureUrl` | scraper.py:450 | the period's URL starts with the adopted-texts link and ends with the fixed filter query |
| `Adopted.YearOfPeriod` | scraper.py:445-449 | an option titled "YYYY-…", blanks before it allowed and any text after the dash, reads year YYYY, and is kept exactly when it has a value and YYYY is at least 2011 |
| `Adopted.YearOfDigits` | scraper.py:448 | `int(text.strip().split("-")[0])` on blanks, digits, a dash and any rest reads the digits |
| `Adopted.StripDashed` | scraper.py:445-448 | stripping blanks, digits, a dash and a rest leaves the digits and the dash at the front |
| `Adopted.YearOf` | scraper.py:448 | the year of an option's text: `int` of the part before the first dash of the stripped text (definition; see `Adopted.YearOfPeriod`) |
| `Adopted.Kept` | scraper.py:447-449 | the keep condition: the option has a value and `int()` of its stripped text before the first `-` reads a year of at least 2011 (definition; see `Adopted.FilterHolds`) |
| `Adopted.Judge` | scraper.py:444-451 | an option raises exactly when it has a value and an unreadable year; it adds an entry exactly when it is kept, under its stripped text and with its period URL |
| `Adopted.Put` | scraper.py:451 | a new key is appended at the end of the dict; an existing key keeps its place, and every key stays where it was |
| `Adopted.LookupPut` | scraper.py:451 | after `d[key] = v`, the key holds v and every other key keeps its value |
| `Adopted.PutDistinct` | scraper.py:451 | assignment keeps the dict's keys distinct and adds no key but `key` |
| `Adopted.FoldFails` | scraper.py:444-457 | the option loop fails exactly when some verdict raises |
| `Adopted.Fold` | scraper.py:444-453 | the option loop over the verdicts: a new key is appended, an existing key takes the new URL, and the loop fails once a verdict raises (definition; see `Adopted.FoldHolds`, `Adopted.FoldFails`) |
| `Adopted.FoldHolds` | scraper.py:444-453 | when the loop succeeds, its keys are distinct and each maps to the URL of the last verdict adding it |
| `Adopted.FilterFails` | scraper.py:444-457 | the whole filter yields the empty dict exactly when some option with a value has an unreadable year (all-or-nothing) |
| `Adopted.FilterHolds` | scraper.py:444-453 | when the filter succeeds, each key maps to the URL of the last kept option with that stripped text, and no other key is present |
| `Adopted.Filter` | scraper.py:444-457 | the fold of the verdicts on the select's options (definition; see `Adopted.FilterHolds`, `Adopted.FilterFails`) |
| `Adopted.LegislatureLinks` | scraper.py:430-457 | `get_legislature_links`: the empty dict when the select is missing or the filter raises, otherwise the filter's dict (definition; see `Adopted.GetLegislatureLinks`) |
| `Adopted.LastAddedIs` | scraper.py:451 | the URL found is that of the last verdict adding the key; none is found exactly when no verdict adds it |
| `Adopted.LastAddedAt` | scraper.py:451 | the index of the verdict whose URL a key keeps |
| `Adopted.FoldStaysFailed` | scraper.py:444-457 | once an option raises, the whole filter fails |
| `Adopted.GetLegislatureLinks` | scraper.py:430-457 | the method computes `LegislatureLinks`: the empty dict when the select is missing or the filter fails |
| `Adopted.FoldVerdicts` | scraper.py:444-453 | the option loop computes the fold of the verdicts |
| `Adopted.Record` | scraper.py:372-411 | an item is recorded exactly when it has a link, a committee span, a non-empty `href` and a non-empty title; the record carries that title and `href`, the date in force, the period and the stripped committee |
| `Adopted.Records` | scraper.py:372-411 | at most one record per item; every record has the given date and period, a non-empty URL and a non-empty title |
| `Adopted.TitleOf` | scraper.py:378-385 | the title is the stripped link text, or when that is empty and the `href` is not, the percent-decoded last `/` segment of the `href` (definition; see `Adopted.TitleFromHref`) |
| `Adopted.TitleFromHref` | scraper.py:378-385 | with a blank link text, the title of an `href` whose last segment spells a name, each character either kept (ASCII, not `%` or `/`) or replaced by the `%HH` escapes of all its UTF-8 bytes, is that name |
| `Adopted.PageDateIsLatest` | scraper.py:361-366 | the date in force after a page is the latest stripped heading on the pages so far |
| `Adopted.DateCarried` | scraper.py:352-366 | carrying `last_date` from page to page dates every page's records by the latest heading seen in the period |
| `Adopted.PeriodStartsUndated` | scraper.py:351-352 | each period's walk starts without a date, so no date leaks from one period into the next |
| `Adopted.PageDate` | scraper.py:361-366 | the date in force after a page: the stripped text of its last date heading, or the carried date when it has none (definition; see `Adopted.PageDateIsLatest`) |
| `Adopted.PeriodLaws` | scraper.py:348-352 | one period: None when its URL cannot be loaded, otherwise the period's page walk from the first page with no date yet (definition; see `Adopted.PeriodWalkStops`, `Adopted.PeriodStartsUndated`) |
| `Adopted.PeriodWalk` | scraper.py:354-426 | one period's page loop: a page without items raises, a followed next link goes on with the page's date, any other next link ends the walk (definition; see `Adopted.PeriodWalkStops`) |
| `Adopted.DatedWalkStops` | scraper.py:354-426 | clicking through to a page whose next link is missing or fails gives the dated records of every page up to and including that one |
| `Adopted.DatedWalkFails` | scraper.py:354-359 | clicking through to a page without items, or past the last page, fails the walk |
| `Adopted.DatedWalkShape` | scraper.py:354-426 | every walk that yields records ends at such a page and yields exactly those records |
| `Adopted.PeriodWalkStops` | scraper.py:351-426 | a period whose next link fails at page `k` after succeeding on every earlier page gives exactly the records of pages `0` to `k`, each dated by the latest heading so far |
| `Adopted.PeriodWalkFails` | scraper.py:351-426 | a period that reaches a page without items makes the extraction raise |
| `Adopted.PeriodWalkShape` | scraper.py:351-426 | every period walk that yields records is of the `PeriodWalkStops` shape |
| `Adopted.ReadAdoptedPage` | scraper.py:368-411 | the item loop computes `Records` |
| `Adopted.WalkPeriod` | scraper.py:354-426 | the page loop of a period computes `PeriodWalk` from the first page with no date |
| `Adopted.ExtractAdoptedLawInfo` | scraper.py:340-428 | the method computes `AdoptedLaws`: the kept periods in dict order, or a failure once any period raises |
| `Adopted.WalkPeriods` | scraper.py:344-426 | the period loop computes `AllPeriods`, each period's records after those of the earlier periods |
| `Adopted.AllPeriodsStaysFailed` | scraper.py:344-359 | once one period raises, the whole extraction fails |
| `Adopted.AllPeriods` | scraper.py:344-426 | the records of the periods in dict order, each after the earlier ones; None once a period's URL fails to load or its walk raises (definition; see `Adopted.WalkPeriods`) |
| `Adopted.AdoptedLaws` | scraper.py:340-428 | `extract_adopted_law_info`: the periods of `get_legislature_links`, walked in dict order (definition; see `Adopted.ExtractAdoptedLawInfo`) |
| `Text.Strip` | scraper.py:113 | `strip()` gives the infix of the input left once whitespace is cut from both ends, and it neither starts nor ends with whitespace |
| `Text.StripCuts` | scraper.py:113 | everything `strip()` cuts off is whitespace |
| `Text.StripFront` | scraper.py:448 | when the text opens with blanks up to a non-blank position, `strip()` keeps the text from there |
| `Text.SplitFirst` | scraper.py:235 | `split(sep)[0]` is the prefix before the first occurrence of `sep`, or the whole string when there is none, and it does not contain `sep` |
| `Text.SplitLast` | scraper.py:222-224 | `split(sep)[-1]` is a suffix without `sep`, preceded by an occurrence of `sep` when there is one |
| `Text.SplitLastAfterChar` | scraper.py:382 | `split(c)[-1]` of a string whose last part has no `c` is that part |
| `Numbers.ParseInt` | scraper.py:448 | Python's `int(text)`: surrounding whitespace, an optional sign, digits with optional single `_` between them; a result only for a text that is not blank |
| `Numbers.ParseIntOfDecimal` | scraper.py:448 | `int(str(n)) == n`, also with blanks around |
| `Numbers.Value` | scraper.py:448 | the number a run of ASCII digits stands for, most significant first, as `int()` reads it here and for the vote counts at scraper.py:261-285 (definition; see `Numbers.ValueOfDecimal`) |
| `Numbers.ValueOfDecimal` | scraper.py:261-263 | reading back the decimal rendering of a number gives the number |
| `Percent.DecodeEncode` | scraper.py:383 | UTF-8 decoding undoes UTF-8 encoding |
| `Percent.UnquotePercentEncode` | scraper.py:383 | `unquote` undoes percent-encoding of every byte |
| `Percent.UnquoteWithoutPercent` | scraper.py:383 | `unquote` leaves a string without `%` unchanged |
| `Percent.Unquote` | scraper.py:383 | `urllib.parse.unquote`: `%HH` runs decoded as UTF-8 with replacement characters; the result is never longer than the input |
| `Percent.Decode` | scraper.py:383 | UTF-8 decoding with replacement: never more characters than bytes |
| `Percent.UnquoteMixed` | scraper.py:383 | `unquote` gives back a name written with some characters kept and the others escaped byte by byte |
| `Percent.UnquoteRunShorter` | scraper.py:383 | decoding gives at most one character per byte or character read |
| `Scraper.LastLinkWins` | scraper.py:110-129 | each category's link is the `href` of the last menu link whose text names it, and is unchanged when none does; `last_page` is never set |
| `Text.Contains` | scraper.py:121-127 | Python's substring test `p in s`, also used for the detail labels at scraper.py:217-251 and 288-291 (definition; see `Text.ContainsIff`) |
| `Text.ContainsIff` | scraper.py:121-127 | `p in s` holds exactly when `p` occurs in `s` at some position |
| `Scraper.LinkTarget` | scraper.py:111-129 | a link whose text cannot be read targets nothing; otherwise the first of the three phrases its stripped text contains names the field (definition; see `Scraper.LastLinkWins`) |
| `Scraper.ApplyLink` | scraper.py:110-129 | one pass of the link loop sets the targeted field to the link's `href` and changes nothing else (definition; see `Scraper.LastLinkWins`) |
| `Scraper.ApplyLinks` | scraper.py:110-129 | the link loop over the menu links in order (definition; see `Scraper.LastLinkWins`) |
| `Scraper.CollectLaws` | scraper.py:163-182 | the item loop collects the basic records in item order |
| `Scraper.Scraper.GetLegislationLinks` | scraper.py:89-140 | without the menu, nothing changes and the result is empty; without the dropdown, the links are reset and the result is empty; otherwise the links are those of the last matching menu links, and they are returned |
| `Scraper.Scraper.ProcessLaw` | scraper.py:184-314 | the visited law is appended once, whether or not its page loads, and the browser is back on the listing page |
| `Scraper.Scraper.VisitAll` | scraper.py:184-314 | the law loop appends the page's laws as visited, in order, and ends on the listing page |
| `Scraper.Scraper.ProcessPage` | scraper.py:163-314 | one listing page appends its `PageLaws`, and the browser stays on it |
| `Scraper.Scraper.ExtractLawInfo` | scraper.py:142-338 | `laws` ends as the walk's laws, in page and item order; the browser ends where `WalkEnd` says: on the last listing page walked, or on the page a raising next-link click or load was reaching; the menu links are unchanged |

## Left out

- Logging, `time.sleep`, random delays and the `current_page` counter: they do not affect
  any result.
- `get_driver`, `wait_for_page_load`, `cleanup` and the Selenium driver itself. Elements and
  exceptions are modelled as the values described above. Every exception type other than
  `NoSuchElementException` is folded into one fault marker.
- The navigation back in the `finally` block (scraper.py:311-314) is modelled as always
  succeeding. In the source, when `driver.get(current_page_url)` or `wait_for_page_load` raises
  there, the outer `except` (scraper.py:334-336) catches it and the page loop stops:
  `extract_law_info` returns the laws gathered so far, the law just visited included, and
  drops the page's later laws and every later page. The model has no such early stop.
- `pages[i]` is the listing shown after `i` clicks on the next link. This assumes that
  reloading `current_page_url` (scraper.py:154, 312) after each detail visit shows the same
  page with the same next link. On a site whose listing URL does not identify the page, the
  source would go on from a different page; the model cannot express that.
- `scrape_legislation` and `save_to_json` (scraper.py:459-528): orchestration and file
  I/O. The same output file name is reused for each category there. `utils.py` and `main.py`
  are not part of this model.
- The browser's location during the adopted-text walk is not tracked. A URL that the site
  map does not hold stands for a period page that fails to load.
- `\d`, `\s`, `strip()` and `int()` accept only ASCII digits and six of the ASCII whitespace
  characters (space, tab, newline, carriage return, vertical tab, form feed). Python also
  treats the separators U+001C to U+001F and other Unicode spaces as whitespace, and other
  Unicode digits as digits.
- `Numbers.ParseInt`: Python 3.11 and later raise `ValueError` on an `int()` of a string of
  more than 4300 digits, which at scraper.py:448 would empty the whole legislature dict. The
  model reads such a string as its value.
- `Adopted.PeriodWalk`, `Listing.Chain`: `pages` is a finite sequence, so the model cannot
  express a walk that never ends. The adopted-text loop (scraper.py:413-426) never tests
  `is_enabled()`, so a last page whose "التالي" link is present but leaves the browser where
  it is makes the source scrape that page again and again; the listing walk does the same
  when an enabled link does not navigate. Running past the end of `pages` means a page
  without items: in `PeriodWalk` the wait for items raises and the walk gives None, in
  `Chain` the walk simply ends.
- The "Unknown Title" and "Unknown Commission" fallbacks (scraper.py:384-394) are not
  modelled. `unquote` with replacement never raises, and `find_element` either raises or
  returns an element, so neither branch can be taken.
- `laws` in `extract_law_info` is a local list in the source; the model keeps it as a field
  of the scraper object, which the walk resets at its start.
- The option's `value` attribute is modelled as a string: an absent attribute (None) is
  skipped exactly like an empty one.
- `Readings.Classify`, `Scraper.TargetOf`: the first-match `if`/`elif` chains are stated by
  their bodies. Their consequences are stated through `Readings.DetailsKeepOthers` and
  `Scraper.LastLinkWins`.
