# tippecanews, modelled in Dafny

tippecanews is a Slack bot for a student newsroom. It has three parts:

- `app.py` runs a `/newsfetch` route. It reads the Purdue newsroom RSS feeds, keeps a Firestore collection of the (title, link) pairs it has already seen, and posts each new item to Slack.
- `rss.py` is the older script that does the same job with a sqlite table keyed by title.
- `tippecanews/utils/retrievers.py` builds Slack replies from pages it scrapes:
  - `crime_scrape` turns the police daily log into a mapping from day keys such as "MONDAY 3-14-22" to incident descriptions;
  - `get_pngs` lists the persona-non-grata table;
  - `directory_search` turns directory results into a message;
  - `get_bylines` picks a pay-period window and lists reporters;
  - `send_slack` shapes a message.

The model covers the logic between the HTTP calls. Its inputs are already parsed: paragraph trees, table rows, directory listings, feed items, and a record store held as a sequence.

Modules, one per file:

- `Wrappers`: `Option`.
- `Strings`: Python's `str.strip` (Unicode whitespace), `" ".join`, the `in` substring test, and decimal formatting of a `nat`.
- `Patterns`: the two regular expressions of `retrievers.py` and `re.findall`.
  - The day key is `[A-Z]+DAY [0-9]*[0-9]-[0-9]*[0-9]-[0-9][0-9]`.
  - The slash date is `[0-9]*[0-9]/[0-9]*[0-9]/[12][09][012][0-9]`.
  - Both are written as deterministic recognisers. Backtracking cannot change where a match that starts at a given position ends, so leftmost-first, non-overlapping `findall` is a simple scan.
- `IncidentLog`: `crime_scrape`. Each paragraph is cleaned and classified as skip, new key or description. The output is a `defaultdict(list)`, modelled as a map plus the order in which keys were inserted.
- `Slack`: link normalisation, the `send_slack` payload, and the `sendSlack` attachment.
- `Pngs`: `get_pngs`.
- `Directory`: `directory_search` from the parsed result list onwards, both as written and with the header noun corrected (see "## Findings").
- `Bylines`: the window chosen by `get_bylines`, and its blocks built from the output of `process_bylines`, both as written and with the window's end corrected (see "## Findings").
- `NewsFetch`: `newsfetch` as a class. Its fields are the collection (`store`) and the messages sent (`outbox`). The run is proved against a left fold over the events the run meets.
- `LegacyRss`: `rss.py` as a class. Its fields are the table rows and the titles posted. The run is proved against folds over entries and over feeds.

The code does the following, which a quick reading may miss:

- Descriptions that come before any day key are stored under the key `""`, not dropped.
- A key enters the output only when a description is first appended to it, not when the key is recognised. A key with no description never appears.
- A single plain paragraph that matches the day key becomes the key as its first match substring, not as the whole paragraph.
- `get_pngs` keeps a row whose cells are all blank after stripping. Only rows with no `td` cell are dropped.
- `newsfetch` has no per-feed error containment. The first failure ends the run.

## Model

| member | source | states |
|---|---|---|
| Strings.Strip | tippecanews/utils/retrievers.py:142 | the stripped string neither starts nor ends with whitespace |
| Strings.StripIsMiddle | tippecanews/utils/retrievers.py:142 | the stripped string is a contiguous middle of the input, and everything cut off at either end is whitespace |
| Strings.StripIdempotent | tippecanews/utils/retrievers.py:286 | stripping twice equals stripping once |
| Strings.StripEmptyIffAllSpace | tippecanews/utils/retrievers.py:286 | the stripped string is empty exactly when the input is all whitespace |
| Strings.JoinSpace | tippecanews/utils/retrievers.py:286 | the joined length is the sum of the part lengths plus one separator between each pair of neighbours |
| Strings.JoinSpaceEmpty | tippecanews/utils/retrievers.py:298 | the join is empty exactly when there are no parts or a single empty part |
| Strings.JoinSpaceAllSpace | tippecanews/utils/retrievers.py:298 | joining whitespace-only parts gives a whitespace-only string |
| Strings.ContainsAt | tippecanews/utils/retrievers.py:162 | a substring written at some position is found by the `in` test |
| Strings.AllSpaceContainsNone | tippecanews/utils/retrievers.py:162 | a whitespace-only string contains no text that starts with a non-space |
| Strings.Decimal | tippecanews/utils/retrievers.py:104 | the decimal rendering of a count is non-empty, all digits, and has no leading zero |
| Strings.DecimalRoundTrip | tippecanews/utils/retrievers.py:242 | reading the decimal rendering back gives the number |
| Patterns.SpansOrdered | tippecanews/utils/retrievers.py:303-305 | `findall` spans are in text order and do not overlap |
| Patterns.SpansAreMatches | tippecanews/utils/retrievers.py:303-305 | every `findall` span is a match of the pattern that starts at its first index |
| Patterns.FindAll | tippecanews/utils/retrievers.py:289-291 | every substring returned is non-empty |
| Patterns.FindAllMeaning | tippecanews/utils/retrievers.py:289-291 | `findall` returns one substring per span; each span starts where the pattern matches and ends where that match ends, the spans run left to right without overlapping, every match position lies inside one of them, and each substring is its span's text |
| Patterns.SpansCover | tippecanews/utils/retrievers.py:303-305 | no match is skipped: every position where the pattern matches, from the scan's start on, lies inside a span the scan returns |
| Patterns.FindAllSkipsNone | tippecanews/utils/retrievers.py:303-305 | every position where the pattern matches lies inside one of the spans `findall` returns |
| Patterns.FindAllEmptyIff | tippecanews/utils/retrievers.py:289-291 | `findall` returns nothing exactly when the pattern matches at no position |
| Patterns.DayKeyMatchShape | tippecanews/utils/retrievers.py:290 | a day-key match is upper-case letters, "DAY ", digits, '-', digits, '-' and two digits |
| Patterns.FoundAreDayKeys | tippecanews/utils/retrievers.py:303-305 | every day-key `findall` result has that shape |
| Patterns.DayKeyMatchesAt | tippecanews/utils/retrievers.py:290 | every text of that shape, with one or more digits in the first two groups, matches where it is written and ends where it ends |
| Patterns.DayKeyFirstMatch | tippecanews/utils/retrievers.py:289-294 | a text that starts with a day key has that key as its first `findall` result, whatever follows |
| Patterns.DayKeyAlone | tippecanews/utils/retrievers.py:303-307 | a lone day key is found exactly once |
| Patterns.TwoDayKeys | tippecanews/utils/retrievers.py:303-307 | two day keys joined by a space give two matches |
| Patterns.NoMarkerNoMatch | tippecanews/utils/retrievers.py:303-305 | a text without "DAY " has no day-key match |
| Patterns.SlashDateMatchesAt | tippecanews/utils/retrievers.py:205 | every text of one or more digits, '/', one or more digits, '/' and a four-digit year whose digits are 1 or 2, then 0 or 9, then 0 to 2, then any digit, matches where it is written |
| Patterns.SlashDateAlone | tippecanews/utils/retrievers.py:205-207 | a lone slash date is found exactly once |
| Patterns.OneSlashNoDate | tippecanews/utils/retrievers.py:205-207 | a text with at most one '/' has no slash-date match |
| IncidentLog.TextRuns | tippecanews/utils/retrievers.py:283-285 | exactly the strings among the children are kept, no more of them than there are children, and a paragraph of only tags has none |
| IncidentLog.TextRunsAppend | tippecanews/utils/retrievers.py:283-285 | the strings of two runs of children are those of the first run followed by those of the second, so order and repeats are kept |
| IncidentLog.TextRunsOne | tippecanews/utils/retrievers.py:283-285 | a string child contributes itself, and a tag child contributes nothing |
| IncidentLog.Clean | tippecanews/utils/retrievers.py:279-298 | `is_key` is set exactly for a lone plain-text paragraph with a day-key match, and the cleaned text is then a day key |
| IncidentLog.KeysHoldADayKey | tippecanews/utils/retrievers.py:289-312 | only an empty cleaned text is skipped; every key taken is the cleaned text and holds a day-key match; a lone plain string is never stored as a description |
| IncidentLog.Append | tippecanews/utils/retrievers.py:310 | `ret_dict[key].append`: only that key's list grows, by the description, and a new key joins the key order at the end |
| IncidentLog.AppendTotal | tippecanews/utils/retrievers.py:310 | each append adds exactly one description to the total |
| IncidentLog.ReplayMeaning | tippecanews/utils/retrievers.py:274-312 | after any sequence of actions the key is the last key seen (or `""`) and the output equals the reference: each description under the key current when it was seen, keys in order of first append |
| IncidentLog.ScanMeaning | tippecanews/utils/retrievers.py:264-317 | the same for the scan of any paragraph list, and the number of stored descriptions is the number of description paragraphs |
| IncidentLog.CrimeScrape | tippecanews/utils/retrievers.py:264-317 | the loop computes the scan: keys in order of first append, each key's descriptions in paragraph order, total count of descriptions |
| IncidentLog.OrphansUnderEmptyKey | tippecanews/utils/retrievers.py:275-310 | without any key, every description is stored under `""` |
| IncidentLog.KeyPresentIffDescribed | tippecanews/utils/retrievers.py:307-315 | a key is in the output exactly when some description was appended under it |
| IncidentLog.TrailingKeyAbsent | tippecanews/utils/retrievers.py:307-308 | a final key no description follows changes the current key but not the output |
| IncidentLog.EmptyCleanedChangesNothing | tippecanews/utils/retrievers.py:300-301 | a paragraph whose cleaned text is empty leaves the key and output unchanged |
| IncidentLog.EmptyBlockSkipped | tippecanews/utils/retrievers.py:296-301 | a paragraph with no contents is skipped |
| IncidentLog.LonePlainWithoutKeySkipped | tippecanews/utils/retrievers.py:287-301 | a lone plain string without a day key is skipped |
| IncidentLog.LoneTagOfTagsSkipped | tippecanews/utils/retrievers.py:282-301 | a lone tag whose children are all tags is skipped |
| IncidentLog.WhitespaceMixedKept | tippecanews/utils/retrievers.py:296-310 | a mixed paragraph of whitespace only is not stripped, so it is stored as a description |
| IncidentLog.PlainKeyIsFirstMatch | tippecanews/utils/retrievers.py:289-308 | a lone plain string with a day-key match becomes the key as its first match |
| IncidentLog.PlainKeyDropsTrailer | tippecanews/utils/retrievers.py:289-295 | text after the date in such a paragraph is not part of the key |
| IncidentLog.LoneKeyTaken | tippecanews/utils/retrievers.py:289-308 | a paragraph that is only a day key becomes that key |
| IncidentLog.OtherKeyNeedsOneMatch | tippecanews/utils/retrievers.py:296-310 | any other paragraph becomes the key exactly when its cleaned text has one day-key match, and is a description otherwise |
| IncidentLog.TwoKeysStoredAsDescription | tippecanews/utils/retrievers.py:303-310 | a mixed paragraph holding two day keys is stored as a description |
| IncidentLog.MixedDescribed | tippecanews/utils/retrievers.py:296-310 | a mixed paragraph without "DAY " is a description of its joined text |
| IncidentLog.TwoDaysReplay | tippecanews/utils/retrievers.py:274-312 | key, two descriptions, key, one description: two keys in that order, with two and one descriptions in order |
| Slack.NormalizeLink | tippecanews/utils/retrievers.py:162-163 | the result contains "http", is unchanged exactly when "http" was present, and ends with the original link |
| Slack.NormalizeIdempotent | app.py:66-67 | normalising twice equals normalising once |
| Slack.NormalizeAddsScheme | app.py:66-67 | the link is either unchanged or prefixed with "http://" |
| Slack.SendSlackPayload | tippecanews/utils/retrievers.py:162-188 | the title is always shown and the date is in the context line; the button is there exactly for a press release, whose section holds the normalised link; anything else shows the bare title |
| Slack.LinkOnlyInPressReleases | tippecanews/utils/retrievers.py:169-188 | a payload that is not a press release does not depend on the link |
| Slack.SchemeOptionalInPressReleases | tippecanews/utils/retrievers.py:162-182 | giving a link with or without "http://" makes the same press release |
| Slack.SendSlackAttachment | app.py:65-83 | the item's title, present or not, is both fallback and title; the title link holds "http" and the item's link |
| Slack.AttachmentNormalisedOnce | app.py:66-67 | a link already normalised gives the same attachment, so no second scheme is ever added |
| Slack.AttachmentIgnoresDate | app.py:65-83 | the attachment does not depend on the date argument |
| Pngs.StripCells | tippecanews/utils/retrievers.py:142 | one cell per `td`, each that `td`'s own text with only whitespace cut from its two ends and none left there, and a cell is empty exactly when its text was blank |
| Pngs.KeptShape | tippecanews/utils/retrievers.py:140-144 | one kept row per row with cells; no kept row is empty; every kept cell is stripped; every kept row is a row of the table with the whitespace cut from the ends of each of its cells |
| Pngs.KeptAppend | tippecanews/utils/retrievers.py:140-144 | the rows are filtered one by one, in order |
| Pngs.CellLessRowDropped | tippecanews/utils/retrievers.py:143 | a row without `td` cells leaves no trace |
| Pngs.BlankCellsKept | tippecanews/utils/retrievers.py:142-144 | a row whose cells are all whitespace is kept in place, as empty strings |
| Pngs.GetPngs | tippecanews/utils/retrievers.py:138-146 | the loop returns the filtered table: row count, row order and stripped cells |
| Directory.Noun | tippecanews/utils/retrievers.py:96 | the corrected header says "result" exactly for one listing |
| Directory.NounAsWritten | tippecanews/utils/retrievers.py:96 | the noun as written is "result" or "results", and "result" exactly for zero listings |
| Directory.NounAsWrittenInverted | tippecanews/utils/retrievers.py:96 | the header as written reads "results" for one listing and "result" for zero, the opposite of the corrected noun in both cases |
| Directory.NounAgreesAboveOne | tippecanews/utils/retrievers.py:96 | for two or more listings both nouns agree |
| Directory.PersonTextSkipsSecondField | tippecanews/utils/retrievers.py:117 | a person's section shows fields 0, 2, 3 and 4 and ignores field 1 |
| Directory.PersonBlocks | tippecanews/utils/retrievers.py:111-120 | the sections exist exactly when every row has five fields, and then there is one per row, in order |
| Directory.Rows | tippecanews/utils/retrievers.py:84-94 | one field list per listing, in order |
| Directory.SearchBlocksShape | tippecanews/utils/retrievers.py:96-120 | a found message has 2 + n blocks: the header with n, the divider, and one section per listing in order |
| Directory.SearchFailsIff | tippecanews/utils/retrievers.py:80-117 | the search raises exactly when the page has no result list or some listing has fewer than five fields |
| Directory.Collect | tippecanews/utils/retrievers.py:85-92 | the inner loops collect the listing's fields |
| Directory.CollectAll | tippecanews/utils/retrievers.py:82-94 | the outer loop builds one field list per listing |
| Directory.PersonSections | tippecanews/utils/retrievers.py:111-120 | the loop builds the person sections, or stops at the first short row |
| Directory.AsWrittenDiffersInHeaderOnly | tippecanews/utils/retrievers.py:96-104 | the message as written and the corrected one fail together and share every block but the header, which they share too exactly from two listings up |
| Directory.AsWrittenSaysResultIffNone | tippecanews/utils/retrievers.py:96-104 | the header as written says "result" exactly when there is no listing |
| Directory.SaysResultIffOne | tippecanews/utils/retrievers.py:96-104 | the corrected header says "result" exactly when there is one listing |
| Directory.Search | tippecanews/utils/retrievers.py:80-122 | the loops build the message for the noun given, or fail as described above |
| Directory.DirectorySearchAsWritten | tippecanews/utils/retrievers.py:80-122 | the message `directory_search` builds as written, or the error |
| Directory.DirectorySearch | tippecanews/utils/retrievers.py:80-122 | the corrected message, or the error |
| Bylines.DefaultWindowIsPayPeriod | tippecanews/utils/retrievers.py:212-219 | without two dates in the query, the window is the half of today's month that holds today: the 1st to the 15th, or the 16th to today |
| Bylines.WindowAsWritten | tippecanews/utils/retrievers.py:207-219 | the window as written starts where the corrected one starts and equals it except at the end of a first half-month |
| Bylines.QueryWindowInTextOrder | tippecanews/utils/retrievers.py:207-211 | with two dates in the query, the start is written before the end |
| Bylines.EndAsWrittenIsNoDate | tippecanews/utils/retrievers.py:216 | the first-half end as written is not a date the date pattern finds |
| Bylines.EndIsDate | tippecanews/utils/retrievers.py:216 | the corrected end, for years 2000 to 2029, is found as exactly one date |
| Bylines.ArticleListLines | tippecanews/utils/retrievers.py:250-252 | the article list has one line per article |
| Bylines.ArticleListAppend | tippecanews/utils/retrievers.py:250-252 | the article list of several articles is their lists one after the other |
| Bylines.SectionsShape | tippecanews/utils/retrievers.py:249-259 | one section per reporter, in the summary's order |
| Bylines.BylineBlocksShape | tippecanews/utils/retrievers.py:235-259 | 2 + n blocks: the header with n reporters and the window, the divider, then one section per reporter in order |
| Bylines.ArticleLines | tippecanews/utils/retrievers.py:250-252 | the inner loop builds the article list |
| Bylines.ReporterLine | tippecanews/utils/retrievers.py:250-253 | a reporter's text is the name, the count and the article list |
| Bylines.BuildBlocks | tippecanews/utils/retrievers.py:235-259 | the loops build those blocks |
| Bylines.GetBylinesAsWritten | tippecanews/utils/retrievers.py:205-261 | the blocks `get_bylines` builds for the window as written and the summary |
| Bylines.GetBylines | tippecanews/utils/retrievers.py:205-261 | the blocks for the corrected window and the summary |
| NewsFetch.ProcessAppend | app.py:44-47 | the run over two event lists is the run over the first, continued over the second |
| NewsFetch.FailedAbsorbs | app.py:44-61 | nothing happens after the run has failed |
| NewsFetch.FailureIsFinal | app.py:44-61 | once a prefix fails, later feeds and items change nothing |
| NewsFetch.NotifyIffAbsent | app.py:48-61 | an item is notified exactly when its pair is absent, it has a link and a date, and the post goes through; at most that one notice is added |
| NewsFetch.NotifyIffAbsentWhenNoError | app.py:48-61 | in a step without error, an absent pair is notified and a present pair changes nothing |
| NewsFetch.InsertBeforeSend | app.py:54-61 | an absent pair is in the store after its step, whether or not the send succeeds |
| NewsFetch.RejectedSendStaysStored | app.py:55-88 | a rejected post leaves the pair stored, nothing notified, and the run failed |
| NewsFetch.StoreOnlyGrows | app.py:53-60 | existing documents are kept in place, at most one is added per event, the outbox only grows, and a store without duplicate pairs keeps none |
| NewsFetch.SuccessStoredAll | app.py:44-60 | after a run without error every item's pair is stored |
| NewsFetch.AllStoredNothingNew | app.py:48-54 | items whose pairs are all stored change nothing |
| NewsFetch.SecondRunSendsNothing | app.py:44-61 | running again over the same feeds with the kept store adds and sends nothing |
| NewsFetch.FreshCovers | app.py:48-60 | the pairs stored are the old ones plus those of the items first seen |
| NewsFetch.RunOrder | app.py:44-61 | after a run without error, exactly the first occurrence of each unseen pair is stored and notified, in feed order and then item order |
| NewsFetch.FreshKeysDistinct | app.py:48-60 | the pairs of the items first seen are all different |
| NewsFetch.NoNoticeTwice | app.py:44-61 | a run without error sends no two equal notices, so no item is notified twice |
| NewsFetch.NewsCollection.constructor | app.py:34-35 | the collection starts with the given documents and nothing sent |
| NewsFetch.NewsCollection.PostItems | app.py:47-61 | the inner loop updates store and outbox as the run does over those items |
| NewsFetch.NewsCollection.NewsFetch | app.py:44-62 | the nested loops leave the store and outbox that the run over all feeds gives, and report whether it ended in an error |
| LegacyRss.InsertedRowFound | rss.py:21-27 | an accepted insert keeps every row and makes the entry's title found by the next lookup; an ignored one changes nothing |
| LegacyRss.TitleOnlyLookup | rss.py:21-25 | a readable entry is posted exactly when no row has its title |
| LegacyRss.LookupIgnoresLink | rss.py:21-25 | two entries with the same title are posted alike, whatever their links |
| LegacyRss.EveryEntryOffered | rss.py:21-27 | every entry that does not raise is offered to `insert or ignore`, posted or not |
| LegacyRss.RaiseChangesNothing | rss.py:14-25 | an entry that raises changes nothing: an unprintable field, or a failing post for a title not in the table |
| LegacyRss.StoredTitleNotPosted | rss.py:21-25 | a title already in the table is not posted |
| LegacyRss.EntryStepExtends | rss.py:21-27 | rows are only added at the end, and posts only appended |
| LegacyRss.FeedRunExtends | rss.py:14-27 | the same for a whole feed |
| LegacyRss.RunGrows | rss.py:11-30 | the same for the whole run |
| LegacyRss.RaiseAbandonsFeed | rss.py:13-30 | after an entry raises, the rest of that feed changes nothing |
| LegacyRss.FeedRunAppend | rss.py:14-27 | entries are handled in order, each from the state the earlier ones left |
| LegacyRss.RunAllAppend | rss.py:11-30 | feeds are handled in link order, each from the state the earlier ones left |
| LegacyRss.StoredTitleNeverPosted | rss.py:11-27 | once the table has a title, no later feed posts it |
| LegacyRss.InsertedTitleNotPostedAgain | rss.py:21-27 | once an entry's row is actually inserted, no later entry with that title is posted |
| LegacyRss.IgnoredRowPostedAgain | rss.py:21-29 | when the insert is ignored, a later entry with the same title finds no row: it is posted again if that post returns, and abandons the feed if it raises |
| LegacyRss.PurdueNews.constructor | rss.py:6-7 | the script starts from the given table and nothing posted |
| LegacyRss.PurdueNews.Feed | rss.py:13-30 | the inner loop leaves the state of the feed run, and reports a raise |
| LegacyRss.PurdueNews.Run | rss.py:11-30 | the outer loop leaves the state of the whole run |

## Left out

- HTTP requests, Slack posting, the cipher-list changes and environment variables are I/O. A send is a notice appended to an outbox. Whether it goes through is the parameter `delivers` (app.py) or `postReturns` (rss.py).
- BeautifulSoup, feedparser and atoma are foreign parsers. Their output is taken as input: paragraph trees, table rows, listings, feed items and entries.
- A page without the element the scrapers look for (`crime_div`, `table`) is not modelled. Those calls raise before the modelled logic starts. `directory_search`'s missing result list is modelled, as `None`.
- The Firestore collection and the sqlite table are sequences of records.
- The unique constraint behind rss.py's `insert or ignore` is not visible, so whether a row is added is the parameter `accepts`.
- rss.py never creates `purdue_news`; the model assumes the table exists. On a database without it, every `select` raises, the `except` swallows it, and nothing is posted or stored.
- Whether a post goes through is a function of the messages sent before it and the message itself (`delivers` in app.py, `postReturns` in rss.py). For rss.py, "before" counts only the posts that returned; a post that raised is not remembered by later outcomes.
- rss.py calls `feedparser.parse` outside the `try`, and feedparser does not raise on a bad feed. A feed is therefore its list of entries.
- `process_bylines` is not part of this model. Its reporter summary is an input, with the count as a `nat`.
- `get_quote` is left out: HTTP pagination and plotting.
- `datetime.now()` and `pub_date.strftime` are the clock and date formatting. Today's date and each item's formatted date are inputs.
- The Flask routes, the server start and every `print` are left out. The prints of rss.py matter only because they can raise, and that is modelled.
- `crime_scrape`'s closing loop copies each list into a `list`. It changes no value, so it is not modelled.
- `send_slack`'s HTTP headers and channel are not part of the payload model.
- NewsFetch.NewsCollection.NewsFetch: app.py does not contain feed errors. Any failure, whether a fetch, a missing date, a missing link or a rejected post, ends the run. The model does the same.
- IncidentLog.TwoDaysReplay: states the two-day example over the scanner's actions, not over literal paragraphs. The paragraph-to-action step is covered by the classification lemmas.
- NewsFetch.NewsCollection.PostItems, Directory.Collect, Directory.CollectAll, Directory.PersonSections, Bylines.ArticleLines and Bylines.ReporterLine: these are the inner loops of the source, split out as methods of their own. Each nested loop is the composition of these methods. Directory.Search is the loop body shared by the as-written and the corrected `directory_search`, with the header noun as a parameter.
- Slack.SendSlackAttachment: the contract does not list the fixed colour, author name and footer. The body sets them as app.py:73-80 does; the `footer_icon` URL is not part of the model.

## Findings

| source | as written | input that shows it | evidently intended | confidence | as-written member | corrected member |
|---|---|---|---|---|---|---|
| tippecanews/utils/retrievers.py:216 | When the query holds no pair of dates and today is in the first half of the month, the end of the window is built with no slash between the day and the year. | A query without dates on 3 October 2020 gives the end "10/152020", which is not a date the product's own date pattern finds. | The end is "10/15/2020". | not executed | Bylines.GetBylinesAsWritten, Bylines.EndAsWrittenIsNoDate | Bylines.GetBylines, Bylines.EndIsDate |
| tippecanews/utils/retrievers.py:96 | The header uses "results" for every non-zero count and "result" for zero. | One listing gives "Found *1* results", and no listing gives "Found *0* result". | The singular goes with exactly one listing. | not executed | Directory.DirectorySearchAsWritten, Directory.AsWrittenSaysResultIffNone | Directory.DirectorySearch, Directory.SaysResultIffOne |
