# FDA cosmetics news feed, modelled in Dafny

`generate_feed.py` turns the FDA page "Cosmetics News & Events" into an RSS 2.0 document.
It works in these steps:

1. It isolates the "Recent News & Updates" section of the page.
2. It finds every `date - <a href="...">title</a>` entry in that section.
3. For each entry it parses the `M/D/Y` date as midnight UTC, cleans the title and resolves the link against `https://www.fda.gov`.
4. It drops entries whose date does not parse.
5. It keeps the first entry of every (title, url, date) key, and only entries with a non-empty title.
6. It sorts the entries newest first and keeps at most 50.
7. It renders one `<item>` block per entry, with escaped title, link and guid and an RFC 822 `pubDate`.
8. It wraps the blocks in a channel whose `lastBuildDate` is the build instant.

The model has one module per concern:

- `Text` holds the Python string built-ins the script relies on: `str.isspace`, `strip`, `lower`, `find`, `split`, `join` and `int()`.
- `Dates` models `parse_mmddyyyy` and `rfc2822`, on the proleptic Gregorian calendar of Python's `datetime`.
- `Markup` covers tag removal, whitespace collapsing, `html.unescape` and `html.escape`.
- `Urls` covers the part of `urljoin(SITE_BASE, href)` the page exercises.
- `Extract` models `extract_recent_news_items`:
  - section isolation;
  - the candidate loop, as a method with a `seen` set;
  - the stable newest-first sort and the cap.
- `Render` models the rendering in `main`: the item loop, the channel header and the whole document.

Parsing, `rfc2822` and escaping are pure functions. The loop of `extract_recent_news_items` and the item loop of `main` are methods with loop invariants, proved against specification functions (`RecentNewsItems`, `Feed`).

There are two parameters of the model that stand for code outside it:

- `scan` stands for the regular expression's `finditer`. It gives the matches of the section in order, as (group 1, group 2, group 3) triples.
- `otherJoin` stands for urljoin's resolution of the hrefs whose cases the model does not spell out.

The build instant is a parameter instead of a clock read.

Section isolation follows the code. The comment at generate_feed.py:48 says the section is cut between the two headings "if present", and the code slices `page[start:end]` whenever both markers are found. When the end marker comes before the start marker, that slice is empty, and then the feed has no items. `SectionBetweenMarkers` states this behaviour as written.

## Model

| member | source | states |
|---|---|---|
| Text.Strip | generate_feed.py:23 | the result neither starts nor ends with whitespace, it is a slice of the input, and everything cut off on either side is whitespace |
| Text.TrimStart | generate_feed.py:23 | what is cut off on the left is whitespace, the rest is a suffix of the input that does not start with whitespace |
| Text.TrimEnd | generate_feed.py:23 | what is cut off on the right is whitespace, the rest is a prefix of the input that does not end with whitespace |
| Text.StripUnchanged | generate_feed.py:23 | strip() leaves a text alone when it neither starts nor ends with whitespace |
| Text.Lower | generate_feed.py:49 | lower-casing keeps the length and maps each character on its own, so an index found in the lowered page is an index of the page |
| Text.Find | generate_feed.py:49-52 | -1 exactly when the needle occurs nowhere, otherwise the first index at which it occurs |
| Text.FindFrom | generate_feed.py:49-52 | the search from position i returns -1 exactly when no occurrence starts at or after i, otherwise the first such occurrence |
| Text.Split | generate_feed.py:24 | at least one field, no field holds the separator, and joining the fields with the separator gives the input back |
| Text.SplitJoin | generate_feed.py:24 | splitting a join of separator-free fields gives the fields back |
| Text.ParseIntDigits | generate_feed.py:28-30 | int() reads a non-empty string of at most 4300 digits as its decimal value; the model also reads longer ones (see Text.ParseInt under "## Left out") |
| Text.ParseIntDecimal | generate_feed.py:28-30 | int(str(n)) == n for every natural n below 10^4300; the model states it for every n (see Text.ParseInt under "## Left out") |
| Text.Decimal | generate_feed.py:36 | %Y's digits: digits only, no leading zero, reading back to n, four of them for years 1000-9999 |
| Text.Pad2 | generate_feed.py:36 | %d, %H, %M and %S: exactly two digits whose value is n |
| Text.IntCore | generate_feed.py:28-30 | int() strips exactly its own whitespace set from both ends: what remains does not start or end with it, and text that already does not is left as it is |
| Text.ParseInt | generate_feed.py:28-30 | an accepted text holds a digit, a negative value needs a '-', and a text of int()'s whitespace only is rejected |
| Text.ParseIntSeparator | generate_feed.py:28-30 | the information separator U+001C is not stripped, so "5" followed by it is rejected, while a trailing line feed is stripped |
| Dates.MidnightUtc | generate_feed.py:33 | the datetime constructor succeeds exactly on valid calendar dates, giving midnight; its errors are calendar errors only, and it names the year exactly when the year is out of 1..9999 |
| Dates.ParseMmddyyyy | generate_feed.py:18-33 | an accepted date is a valid midnight-UTC datetime; the field-count error arises exactly when the stripped text does not split into three fields on '/' |
| Dates.ParseFieldsRule | generate_feed.py:23-33 | with three integer fields the result is the datetime constructor applied to (expanded year, month, day), and a year below 100 becomes 2000 plus the year |
| Dates.ParseDigitFields | generate_feed.py:24-33 | "a/b/c" with digit fields parses to the constructor applied to the fields' values, the year expanded |
| Dates.SplitDigitFields | generate_feed.py:23-25 | "a/b/c" with non-empty digit fields strips to itself and splits into exactly the three fields |
| Dates.ParseRoundTrip | generate_feed.py:18-33 | every valid midnight date with a year of at least 100, written M/D/YYYY, parses back to itself |
| Dates.ExpandYear | generate_feed.py:31-32 | the last two digits of the year are kept, a non-negative year becomes at least 100, and a year of 100 or more is left as it is |
| Dates.Rfc2822 | generate_feed.py:35-36 | the date text is 27 characters plus the year's digits and ends with the UTC offset " +0000" |
| Dates.ParseTwoDigitYear | generate_feed.py:31-32 | every valid midnight date in 2000-2099, written with a two-digit year, parses back to itself |
| Dates.ShapedDateRejectedOnlyByCalendar | generate_feed.py:28-33 | a date text of the shape the pattern accepts (1-2, 1-2, 2-4 digits) is either accepted or rejected for its month or day, never for its field count, integers or year |
| Dates.ParseRejectsMonth13 | generate_feed.py:33 | "13/40/2026" is rejected because of its month |
| Dates.Weekday | generate_feed.py:36 | the weekday index is 0..6 (Monday first) |
| Dates.DaysBeforeNextYear | generate_feed.py:36 | a year adds 366 days to the day count when it is a leap year and 365 otherwise |
| Dates.YearStep | generate_feed.py:36 | the day count before year y + 1 exceeds that before year y by 365 plus the leap days of the three divisibility rules |
| Dates.LeapDaysOfLeap | generate_feed.py:36 | the three divisibility rules add one day exactly in leap years |
| Dates.MondayOrdinal | generate_feed.py:36 | a date is a Monday exactly when its ordinal is one more than a multiple of seven |
| Dates.OrdinalNextDay | generate_feed.py:36 | the day after a valid date is a valid date whose ordinal is one more |
| Dates.WeekdayNextDay | generate_feed.py:36 | the weekday advances by one, modulo 7, from each day to the next |
| Dates.FirstDayIsMonday | generate_feed.py:36 | 1 January of year 1 has ordinal 1 and is a Monday, as in Python's calendar |
| Dates.Rfc2822Fields | generate_feed.py:35-36 | for years 1000-9999 the date text has 31 characters, "Www, DD Mon YYYY HH:MM:SS +0000", and every field reads back: the weekday of the date, the day, the month name, the year and the time |
| Dates.Layout | generate_feed.py:36 | with fields of widths 3, 2, 3, 4, 2, 2, 2 every field of the strftime text sits at a fixed offset, and the text has 31 characters |
| Dates.Rfc2822ExampleA | generate_feed.py:35-36 | 21 January 2026 renders as "Wed, 21 Jan 2026 00:00:00 +0000" |
| Dates.Rfc2822ExampleB | generate_feed.py:35-36 | 29 December 2025 renders as "Mon, 29 Dec 2025 00:00:00 +0000" |
| Markup.StripTags | generate_feed.py:70 | no `<...>` tag span is left, the text only shrinks, no character is introduced, and a leading non-'<' character stays in front |
| Markup.StripTagsUnchanged | generate_feed.py:70 | text without tag spans is left as it is |
| Markup.StripTagsCons | generate_feed.py:70 | a character other than '<' stays in front of the rest with its tags removed |
| Markup.StripTagsKeepsText | generate_feed.py:70 | text without '<' is kept as it is in front of the rest with its tags removed |
| Markup.StripTagsDropsTag | generate_feed.py:70 | a tag "<y>" with a non-empty y free of '>' is removed entirely |
| Markup.StripTagsOneTag | generate_feed.py:70 | for '<'-free t and a tag "<y>" as above, the text t + "<y>" + z becomes t followed by z with its tags removed |
| Markup.CollapseSpaces | generate_feed.py:71 | no two whitespace characters are adjacent, every remaining whitespace character is a space, non-space characters come from the input, and emptiness and a leading space are kept |
| Markup.NonSpaceAppend | generate_feed.py:71 | the non-whitespace characters of a concatenation are those of each part, in order |
| Markup.CollapseKeepsNonSpace | generate_feed.py:71 | collapsing keeps every non-whitespace character in order: only whitespace is replaced or dropped |
| Markup.CollapseCons | generate_feed.py:71 | a non-whitespace character stays in front of the collapsed rest |
| Markup.CollapseLeadingRun | generate_feed.py:71 | a leading whitespace run becomes one space in front of the collapsed rest |
| Markup.CollapseRun | generate_feed.py:71 | with whitespace-free a, a whitespace run w and text z not starting with whitespace, a + w + z becomes a + " " + the collapsed z |
| Markup.CollapseKeepsNoTagSpan | generate_feed.py:70-71 | collapsing whitespace does not create a tag span |
| Markup.Unescape | generate_feed.py:71 | decoding keeps emptiness and whether the text starts with whitespace |
| Markup.UnescapeKeepsNoSpaceRun | generate_feed.py:71 | decoding does not create a run of whitespace |
| Markup.TitleShape | generate_feed.py:70-71 | before decoding the title holds no tag span; the final title has no whitespace at either end and no run of two whitespace characters |
| Markup.NormalizeTitle | generate_feed.py:70-71 | the title neither starts nor ends with whitespace |
| Markup.Escape | generate_feed.py:100-102 | html.escape's output has no raw '<', '>', '"' or '\'' and each '&' in it begins one of the five entities |
| Markup.EscapeCharEscaped | generate_feed.py:100-102 | the replacement of each single character is escaped text |
| Markup.EscapedConcat | generate_feed.py:100-102 | escaped texts stay escaped when concatenated |
| Markup.UnescapeEscape | generate_feed.py:100-102 | decoding undoes html.escape: unescape(escape(s)) == s |
| Markup.UnescapeAfterEscapeChar | generate_feed.py:100-102 | decoding the replacement of one character, followed by anything, gives back that character followed by the decoding of the rest |
| Urls.LStripControls | generate_feed.py:73 | urlsplit's lstrip removes a prefix of characters at or below the space and leaves a text that starts above it |
| Urls.RemoveUnsafe | generate_feed.py:73 | no tab, line feed or carriage return remains, and text without them is unchanged |
| Urls.SchemeOf | generate_feed.py:73 | a scheme is found exactly when a ':' is preceded by a non-empty run of scheme characters starting with a letter, and that ':' directly follows the scheme |
| Urls.Resolve | generate_feed.py:73 | an empty href gives the site base, an href with a scheme other than https and no "//" after it is returned as it is, and a plain absolute path is appended to the site base |
| Urls.PlainPathHasNoScheme | generate_feed.py:73 | a plain absolute path carries no scheme of its own |
| Urls.SlashedHasNoScheme | generate_feed.py:73 | a text starting with '/' and free of tabs and line breaks has no scheme |
| Urls.SiteBaseScheme | generate_feed.py:9 | the site base, followed by anything, has the scheme https |
| Urls.ResolvedIsAbsolute | generate_feed.py:73 | every href resolved by a modelled rule becomes a URL with a scheme, and an empty href or a plain path becomes an https URL |
| Urls.CleanedSite | generate_feed.py:73 | urlsplit's cleaning leaves the site base followed by text free of tabs and line breaks unchanged |
| Urls.CleanedUnchanged | generate_feed.py:73 | urlsplit's cleaning leaves a text that starts above the space and holds no tab or line break unchanged |
| Urls.SchemeAt | generate_feed.py:73 | the scheme of a text whose first ':' follows a letter and scheme characters is the lower-cased text before it |
| Urls.ForeignSchemeKept | generate_feed.py:73 | "mailto:x" is returned as it is |
| Urls.ForeignNetlocDeferred | generate_feed.py:73 | "http://[x", whose network location urlsplit parses before comparing schemes, is not returned as it is but left to the general resolver |
| Extract.SectionOf | generate_feed.py:49-53 | the section is the page itself or strictly shorter |
| Extract.SectionWithoutMarkers | generate_feed.py:49-53 | with no start marker in either spelling, or no end marker, the section is the whole page |
| Extract.SectionBetweenMarkers | generate_feed.py:49-53 | with the first "&amp;" start marker at a and the first end marker at b, the section is page[a..b] when a <= b and empty when b < a |
| Extract.SectionFromPlainMarker | generate_feed.py:50-53 | without an "&amp;" start marker, the plain "&" marker is used, with the same two outcomes |
| Extract.Candidate | generate_feed.py:65-78 | a match yields an item exactly when its date parses, and the item's date is a valid midnight UTC instant |
| Extract.Candidates | generate_feed.py:65-78 | at most one candidate per match, each a valid midnight UTC date |
| Extract.CandidatesAppend | generate_feed.py:65-78 | candidates of consecutive runs of matches concatenate, so each match is judged on its own |
| Extract.CandidatesSnoc | generate_feed.py:65-78 | one more match at the end adds its candidate, if any, at the end |
| Extract.CandidatesAppendStep | generate_feed.py:65-78 | if candidates distribute over ms + ps, they distribute over ms + (ps with one more match) |
| Extract.SkipRejectedDate | generate_feed.py:75-78 | a match whose date is rejected contributes nothing, wherever it stands |
| Extract.SkipMonth13 | generate_feed.py:75-78 | a match dated "13/40/2026" is skipped |
| Extract.KeysMembers | generate_feed.py:80-82 | the seen set holds exactly the keys of the kept items |
| Extract.DedupShape | generate_feed.py:80-83 | kept items have distinct keys and non-empty titles, each is a candidate, and there are no more of them than candidates |
| Extract.Dedup | generate_feed.py:80-83 | there are no more kept items than candidates, and every kept title is non-empty |
| Extract.TitledKeys | generate_feed.py:80-82 | each candidate with a non-empty title has its key in the set, and each key in the set belongs to such a candidate |
| Extract.DedupKeys | generate_feed.py:80-83 | every titled candidate's key is kept: the kept keys are exactly the titled candidates' keys |
| Extract.DedupKeepsFirstOfEachKey | generate_feed.py:80-83 | the loop keeps exactly the first titled candidate of every key, in match order |
| Extract.EarlierTransitive | generate_feed.py:86 | the order on datetimes is transitive |
| Extract.InsertPermutes | generate_feed.py:86 | insertion adds the item and nothing else |
| Extract.InsertKeepsNewestFirst | generate_feed.py:86 | insertion into a newest-first list keeps it newest first |
| Extract.InsertKeepsOrderOfEquals | generate_feed.py:86 | insertion puts the new item after the items with the same date |
| Extract.Insert | generate_feed.py:86 | insertion adds exactly one element |
| Extract.NewestFirstCons | generate_feed.py:86 | an item no older than any item of a newest-first list can go in front of it |
| Extract.NewestFirstTail | generate_feed.py:86 | the rest of a newest-first list is newest first |
| Extract.WithPubCons | generate_feed.py:86 | selecting the items of one date from a list with a first item takes that item exactly when it has that date |
| Extract.SortNewestFirstSorts | generate_feed.py:86 | the sorted list is newest first and a permutation of the input |
| Extract.SortNewestFirst | generate_feed.py:86 | the sort keeps the number of items |
| Extract.SortIsStable | generate_feed.py:86 | items with equal dates keep their input order, as Python's sort with reverse=True guarantees |
| Extract.WithPubAppend | generate_feed.py:86 | selecting the items of one date distributes over concatenation |
| Extract.DedupKeepsValid | generate_feed.py:80-83 | de-duplication keeps only valid midnight dates |
| Extract.MidnightItemsAppend | generate_feed.py:76-83 | appending a valid midnight item keeps every item a valid midnight date |
| Extract.SortedPrefixShape | generate_feed.py:86-87 | the first min(n, 50) of the sorted kept items are newest first, drawn from the kept items, with distinct keys, titles and valid midnight dates |
| Extract.SortedKeepsProperties | generate_feed.py:86 | sorting keeps keys distinct and introduces no item |
| Extract.PermutationKeepsKeys | generate_feed.py:86 | a permutation of a list with distinct keys has distinct keys and holds only items of that list |
| Extract.CandidatesStep | generate_feed.py:65-78 | one more match adds its candidate, if any, at the end |
| Extract.DedupStep | generate_feed.py:81-83 | one more candidate is kept exactly when it has a title and an unseen key |
| Extract.KeysStep | generate_feed.py:82 | appending an item adds its key to the seen set |
| Extract.Admit | generate_feed.py:65-83 | one pass of the loop body: the candidate list grows by the match's candidate, and items and seen stay the de-duplicated candidates and their keys |
| Extract.ExtractRecentNewsItems | generate_feed.py:38-87 | the loop with its seen set computes RecentNewsItems: min(kept, 50) items, each one of the kept items, newest first, distinct keys, non-empty titles, valid midnight dates |
| Extract.RecentNewsItems | generate_feed.py:38-87 | at most MaxItems (50) items are returned |
| Render.EscapeNoLt | generate_feed.py:100-102 | escaped text has no '<' |
| Render.Rfc2822NoLt | generate_feed.py:103 | the RFC 822 date text has no '<' |
| Render.MidnightPubsValid | generate_feed.py:91-96 | the items extract_recent_news_items returns all have dates rfc2822 can render |
| Render.ItemBlockIsBlock | generate_feed.py:97-104 | strip() removes only the newline and indentation in front of "<item>" |
| Render.ItemBlock | generate_feed.py:97-104 | the stripped block is non-empty, starts with '<' and ends with '>' |
| Render.StripIndented | generate_feed.py:104 | strip() of a block starting with '<' and ending with '>' behind a newline and indentation is the block |
| Text.TrimStartSkips | generate_feed.py:104 | leading whitespace in front of a non-space character is exactly what strip removes on the left |
| Render.After | generate_feed.py:98-104 | the reader's literal check succeeds exactly when the text begins with the literal, and then yields the rest |
| Render.UpToLt | generate_feed.py:98-104 | the reader splits before the first '<', into a '<'-free part and a rest that starts with '<' |
| Render.UpToLtSplits | generate_feed.py:98-104 | a '<'-free text followed by a tag splits back into the two |
| Render.ReadBlockBlock | generate_feed.py:98-104 | reading a block back gives the four '<'-free field texts it was built from |
| Render.ItemBlockReadsBack | generate_feed.py:95-105 | each item block reads back as its item: title and link are escaped and decode to the item's title and URL, the guid equals the link, the pubDate is the item's RFC 822 date |
| Render.NoItemStartCount | generate_feed.py:114 | text in which no '<' is followed by 'i' opens no "<item>" tag |
| Render.NoLtNoItemStart | generate_feed.py:114 | a text without '<' starts no "<item>" tag and does not end in '<' |
| Render.NoItemStartConcat | generate_feed.py:114 | two texts in which no tag starts, the first not ending in '<', concatenate to such a text |
| Render.TailNoLtConcat | generate_feed.py:114 | no '<' among the last five characters of either text means none among the last five of their concatenation |
| Render.ItemOpensConcat | generate_feed.py:114 | "<item>" tags of a concatenation add up when none can straddle the seam |
| Render.BlockOpensOne | generate_feed.py:98-104 | an item block opens exactly one "<item>" tag |
| Render.LiteralThenField | generate_feed.py:98-104 | a literal ending in '>', a '<'-free field and tag-free text concatenate to text in which no tag starts |
| Render.BlockLiterals | generate_feed.py:98-104 | the fixed text of an item block can start a tag only at its first character, and no piece ends in '<' |
| Render.ItemBlockOpensOne | generate_feed.py:95-105 | the block of every item opens exactly one "<item>" tag |
| Render.JoinOpens | generate_feed.py:114 | joining blocks with newlines opens one "<item>" tag per block |
| Render.ChannelOpensNone | generate_feed.py:107-113 | the channel header opens no "<item>" tag whatever its '<'-free fields |
| Render.HeaderLiterals | generate_feed.py:107-117 | the fixed text of the channel header and the closing tags starts no "<item>" tag |
| Render.HeaderOpensNone | generate_feed.py:107-113 | the header with the feed's title, link, description and build date opens no "<item>" tag |
| Render.Header | generate_feed.py:107-113 | the header begins with the XML declaration and goes on after it |
| Render.DocumentOpens | generate_feed.py:107-117 | header, joined blocks and closing tags together open one "<item>" tag per block |
| Render.FeedOpensOnePerItem | generate_feed.py:95-117 | the feed document holds exactly one "<item>" tag per item |
| Render.Feed | generate_feed.py:107-117 | the document ends with the closing channel and rss tags |
| Render.RenderItems | generate_feed.py:95-105 | the loop fills rss_items with the block of each item, in list order |
| Render.RenderFeed | generate_feed.py:95-117 | the rss text is the feed document and holds one "<item>" tag per item |
| Render.GenerateFeed | generate_feed.py:89-117 | the document holds the recent news items, newest first, at most 50, one "<item>" block each |

## Left out

- Fetching the page (generate_feed.py:13-16, 90) is network I/O, so the page text is a parameter.
- Writing feed.xml and printing the count (generate_feed.py:119-123) are file and console I/O.
- The process exit code is not modelled either.
- The regular expression (generate_feed.py:57-60) is not modelled: its `finditer` is the parameter `scan`. The model does not prove that group 1 has the `\d{1,2}/\d{1,2}/\d{2,4}` shape. `Dates.ShapedDateRejectedOnlyByCalendar` states what follows when it has that shape.
- `datetime.now(timezone.utc)` (generate_feed.py:93) reads the clock. It is the parameter `buildTime`.
- Microseconds are not modelled, because the strftime format never prints them.
- `astimezone(timezone.utc)` is the identity on the UTC datetimes the script builds, so it is not modelled.
- Urls.Resolve: urljoin is spelled out only for three kinds of href: an empty href, an href with a scheme other than https and no network location, and a plain absolute path. Network-path references, queries, fragments, parameters, dot segments and relative paths go to the parameter `otherJoin`. An href with the scheme https also goes to `otherJoin`.
- Urls.Resolve: urlsplit raises ValueError for a network location with unbalanced or invalid brackets, such as the one in `http://[x`. Line 73 calls urljoin outside the try of lines 75-78 and before the date is parsed, so such an href ends the whole run, whatever its date. The model has no such failure: every href with "//" after its scheme goes to the total function `otherJoin`, so Extract.Candidate and Extract.RecentNewsItems always produce a result.
- Markup.TitleShape: its claim that the final title holds no run of two whitespace characters depends on Markup.Unescape decoding only five entities. Python's html.unescape also decodes `&nbsp;` to U+00A0, which is whitespace, so a title such as `a &nbsp;b` has such a run in Python.
- Markup.Unescape: it decodes only the five entities html.escape produces (`&amp;`, `&lt;`, `&gt;`, `&quot;`, `&#x27;`). Python's html.unescape also decodes the rest of the HTML5 entity table and numeric character references. The model leaves those as they are.
- Text.Lower: it lower-cases ASCII letters only. Python's str.lower also folds non-ASCII letters. A few of those change length, which would move the indices the section slice uses.
- Text.ParseInt: it reads ASCII digits only. Python's int() and the pattern's `\d` also accept other Unicode decimal digits.
- Text.ParseInt: it has no length limit. From CPython 3.11 on, int() raises ValueError for a decimal text of more than 4300 digits (`sys.int_info.default_max_str_digits`), and str(n) does the same for such an n. The pattern's date groups hold at most four digits, so the feed is the same.
- Text.ParseIntDigits: holds in Python only for at most 4300 digits, because of the limit above.
- Text.ParseIntDecimal: holds in Python only for n below 10^4300, because of the limit above.
- Dates.Rfc2822: the names of the days and months are those of the C locale. Years below 1000 are modelled without padding. That is what CPython 3.12.0 prints on glibc, where strftime hands %Y to the C library. Releases that include the fix for CPython issue gh-120713 pad %Y to four digits themselves. `Dates.Rfc2822Fields` covers years 1000 to 9999 only.
- The duplicate key's third component is the date itself rather than its isoformat() string. isoformat spells each valid date differently, so the two keys are equal in the same cases.
- Dates.MidnightUtc: a field beyond the range of a C int makes `datetime` raise OverflowError while it reads its arguments, before any range check. A month of 2^31, for example, raises OverflowError, where the model reports `MonthOutOfRange`. Both are exceptions the loop's `except Exception` catches, so the items are the same. Years from 10000 up to the C int maximum raise ValueError, which is the model's `YearOutOfRange`.
