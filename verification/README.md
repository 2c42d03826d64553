# namecheap-checker: the reporting transforms, in Dafny

`namecheap-checker.py` asks the Namecheap API for the account's domains,
turns each `<Domain>` element into a record, and prints a report. The
report has four parts:

- a table of all domains, sorted by expiry date, with a days-left note on each row;
- the renewals due in the next 90 days;
- counts of auto-renewing, locked and WHOIS-guarded domains;
- a calendar that groups the domains by expiry month.

This project models the pure logic behind the report and proves its
properties. The modules are:

- `Records` (`records.dfy`): the attribute map of a `<Domain>` element and the record built from it. Each of the five flags holds exactly when its attribute is the literal `"true"`.
- `Dates` (`dates.dfy`): `datetime` values. This covers their validity rules, their field-wise ordering, and `(expiry - now).days`, computed from the proleptic Gregorian ordinal and rounded down as `timedelta` rounds.
- `DateParse` (`date_parse.dfy`): `parse_date`. It tries `%m/%d/%Y`, `%m/%d/%y`, `%Y-%m-%dT%H:%M:%S` and `%Y-%m-%d` in that order. `strptime` is modelled on these four formats as a sequence of literal and numeric directives. Numeric fields follow `strptime`'s rules:
  - each field reads a maximal run of digits;
  - `%Y` must be four digits and `%y` two; a `%y` value up to 68 means 2000+y, any other means 1900+y;
  - the other fields take one or two digits, within their ranges;
  - `%d` also accepts a space followed by a digit 1-9;
  - the `T` matches without regard to case.

  After a match, `datetime` rejects day 31 of a 30-day month, 29 February of a common year, and a second of 60 or 61.
- `Listing` (`listing.dfy`): annotates each record with its parsed expiry, puts the dated records first and sorts them stably by date, with the undated records after them in input order.
- `Renewals` (`renewals.dfy`): the "RENEW SOON!" / "EXPIRED!" / plain days-left note of each row, and the upcoming filter `0 < days <= 90`.
- `Statistics` (`statistics.dfy`): the three counts and the total, behind the early return on an empty list.
- `Calendar` (`calendar.dfy`): covers these steps:
  - the label `strftime("%B %Y")`;
  - the grouping `domains_by_month`;
  - `month_year_key`, with Python's `str.split()` and `int()`;
  - the chronological order of the groups.
- `Report` (`report.dfy`): `display_domains` as a whole, as written and with the correction described under Findings.
- `Text`, `Sequences`, `Wrappers` (`text.dfy`, `sequences.dfy`, `wrappers.dfy`): decimal digits, whitespace splitting, `int()` parsing, subsequences and `Option`.

The current time is a parameter (`now`). No clock is read.

## Model

| member | source | states |
|---|---|---|
| Records.Flag | namecheap-checker.py:86-91 | a flag holds exactly when the attribute is present and equals the exact string `"true"` |
| Records.FromAttributes | namecheap-checker.py:80-92 | the five flags are true exactly when their attributes are `"true"`; `ID`, `name`, `user`, `created`, `expires` and `whois_guard` are present exactly when the element has the attribute, and then carry its value, as `attrib.get` returns it |
| Records.FromElements | namecheap-checker.py:79-93 | one record per element, in document order |
| Records.FromToAttributes | namecheap-checker.py:80-92 | every record is recovered from the attributes of an element describing it, so no field is lost or confused with another |
| Records.OnlyRecordKeysMatter | namecheap-checker.py:80-92 | attributes other than the eleven the record reads do not affect it |
| Dates.NotAfterIsTotalOrder | namecheap-checker.py:153 | the `datetime` comparison the sort uses is a total order |
| Dates.DaysLeft | namecheap-checker.py:164-165 | `(expiry - now).days` is the whole number of days that rounds the exact difference down |
| Dates.InstantMonotone | namecheap-checker.py:153 | field-wise chronological order agrees with the time line |
| Dates.DaysLeftMonotone | namecheap-checker.py:164 | a later expiry never has fewer days left |
| DateParse.ExpandShortYear | namecheap-checker.py:114 | a two-digit `%y` year lands in 1969..2068 with the same last two digits |
| DateParse.ReadField | namecheap-checker.py:113-115 | a numeric field consumes a whole digit run and yields a value in its range (`%Y` 0..9999, `%y` 1969..2068, month 1..12, day 1..31, hour 0..23, minute 0..59, second 0..61) |
| DateParse.ReadFieldValue | namecheap-checker.py:113-115 | which inputs a field accepts and the value it reads: `%Y` exactly four digits, their number; `%y` exactly two digits, pivoted at 68; the other fields one or two digits within range, their number; a space and one digit 1-9 only for `%d`, that digit |
| DateParse.ReadUnpadded | namecheap-checker.py:113-115 | a month, day, hour, minute or second written without padding, as `str(v)`, reads back as `v` |
| DateParse.ReadSpaceDay | namecheap-checker.py:113-115 | a day written as a space and one digit reads back as that day |
| DateParse.Strptime | namecheap-checker.py:115 | a successful parse is a valid `datetime` with no microseconds |
| DateParse.FirstMatch | namecheap-checker.py:113-119 | no result exactly when every format fails; otherwise the result of the first format that succeeds |
| DateParse.ParseDate | namecheap-checker.py:105-124 | absent or empty input gives `None`; otherwise the result is the first of the four formats, in their fixed order, that accepts the string, and `None` when none does |
| DateParse.IsoDateRoundTrip | namecheap-checker.py:113-117 | a `YYYY-MM-DD` date parses back to that date at midnight |
| DateParse.MonthDayFullYearRoundTrip | namecheap-checker.py:113-117 | an `MM/DD/YYYY` date parses back to that date at midnight |
| DateParse.MonthDayShortYearRoundTrip | namecheap-checker.py:113-117 | an `MM/DD/YY` date of 1969..2068 parses back to that date at midnight |
| DateParse.ShortYearRejectedByFullYear | namecheap-checker.py:113-115 | `%m/%d/%Y` rejects a two-digit year, so a short-year date falls through to the second format |
| DateParse.ShortYearReadByShortYear | namecheap-checker.py:113-115 | `%m/%d/%y` reads an `MM/DD/YY` date of 1969..2068 back to that date at midnight |
| DateParse.UnpaddedMonthDayRoundTrip | namecheap-checker.py:113-117 | an `M/D/YYYY` date without zero padding, such as `1/5/2024`, parses back to that date at midnight |
| DateParse.SpacePaddedDayRoundTrip | namecheap-checker.py:113-117 | an `MM/ D/YYYY` date, such as `01/ 5/2024`, parses back to that date at midnight |
| DateParse.MatchMonthDayFullYear | namecheap-checker.py:113-117 | a string of month, `/`, day, `/`, year in which each piece reads back as its field parses to that date at midnight under the first format |
| DateParse.IsoDateTimeRoundTrip | namecheap-checker.py:113-117 | a `YYYY-MM-DDTHH:MM:SS` timestamp parses back to itself; it is not cut short by the date-only format tried after it |
| DateParse.NonDigitStartUnparseable | namecheap-checker.py:119-124 | a string that does not start with a digit matches no format and yields `None` |
| Listing.AnnotateAll | namecheap-checker.py:140-142 | every record receives the parse of its own `expires` field |
| Listing.Dated | namecheap-checker.py:150 | `valid_dates` is the subsequence of the input holding exactly its entries with a parsed date, in input order and each as often as in the input |
| Listing.Undated | namecheap-checker.py:151 | `invalid_dates` is the subsequence of the input holding exactly its entries without a parsed date, in input order and each as often as in the input |
| Listing.ExpiryOrder | namecheap-checker.py:153 | the listing's order on optional dates, with "no date" last, is a total order |
| Listing.SortByExpiry | namecheap-checker.py:153 | the stable sort permutes its input into order |
| Listing.SortByExpiryStable | namecheap-checker.py:153 | entries with equal dates keep their input order |
| Listing.DatedUndatedPermutation | namecheap-checker.py:150-151 | the two groups together hold every entry exactly once, so each dated entry is in `valid_dates` and each undated one in `invalid_dates` |
| Listing.DatedUndatedStable | namecheap-checker.py:150-151 | for every expiry value, the entries carrying it appear in `valid_dates` (a date) or `invalid_dates` (no date) in the same order as in the input; input order of each whole group is the subsequence clause of `Listing.Dated` and `Listing.Undated` |
| Listing.SortedListing | namecheap-checker.py:150-153 | the listing is a permutation of the entries; the dated entries come first and the undated after them; dates never decrease; entries with the same date, and the undated ones, keep input order |
| Listing.SortedStableUnique | namecheap-checker.py:153 | two sorted orders that keep every group of equal dates in the same order are equal, so a stable sort has exactly one result |
| Listing.ListingIsOneStableSort | namecheap-checker.py:150-153 | splitting off the undated entries and sorting the rest gives the same listing as one stable sort in which "no date" counts as latest |
| Listing.SubsequenceSorted | namecheap-checker.py:182-184 | any order-preserving selection from the listing is still sorted |
| Listing.ListingOf | namecheap-checker.py:139-153 | the listing has one entry per record, each record as many times as in the input, each with its own parsed date, in sorted order |
| Renewals.Classify | namecheap-checker.py:168-173 | the three notes partition the integers: renew soon exactly for 1..30 days, expired exactly for 0 or fewer, plain exactly above 30; renew soon and plain carry the day count, expired carries none |
| Renewals.NoteOf | namecheap-checker.py:162-173 | an entry has no note exactly when it has no parsed date |
| Renewals.ClassifyMonotone | namecheap-checker.py:168-173 | more days left never gives a more urgent note |
| Renewals.NotesFollowListingOrder | namecheap-checker.py:157-173 | down the sorted listing the notes run from expired through renew soon to plain and then none |
| Renewals.Upcoming | namecheap-checker.py:182-184 | the upcoming list is the order-preserving selection of exactly the dated entries with 0 < days <= 90, each as often as in the listing |
| Renewals.UpcomingMatchesNotes | namecheap-checker.py:168-184 | an entry is upcoming exactly when its note is renew soon, or plain with at most 90 days |
| Renewals.UpcomingDaysAscending | namecheap-checker.py:182-192 | the upcoming list shows non-decreasing days left |
| Statistics.Count | namecheap-checker.py:199-201 | each count is the number of records satisfying its predicate, at most the total |
| Statistics.Summarize | namecheap-checker.py:130-132 | no statistics exactly for an empty list; otherwise the total is the positive length and each count is bounded by it |
| Statistics.Percentage | namecheap-checker.py:204-206 | the share is defined only for a positive total, is exactly 100·count/total, and lies in 0..100 |
| Statistics.WhoisGuardCountsExactString | namecheap-checker.py:201 | a record counts as WHOIS-guarded exactly when the attribute is the string `"ENABLED"` |
| Calendar.MonthNumber | namecheap-checker.py:215-219 | `month_map.get(name, 13)`: a month's number is its position among the twelve names, and 13 exactly for any other string |
| Text.ParseInt | namecheap-checker.py:236 | `int()` of a string: after dropping surrounding white space, it accepts exactly an optional sign followed by a numeral of at most 4300 digits (single underscores between digits allowed), and gives the numeral's value, negated after `-`; anything else, such as `"2025x"` or `"1__2"`, is rejected |
| Text.NatToStringParses | namecheap-checker.py:236 | `int(str(n)) == n` for every natural number of at most 4300 digits |
| Text.Split | namecheap-checker.py:228 | `str.split()`: the string is the returned words separated by runs of white space, with optional white space before and after; the words are non-empty and hold no white space |
| Text.LayoutDeterminesSplit | namecheap-checker.py:228 | any reading of a string as words separated by white space yields exactly `str.split()`'s words |
| Text.SplitCharacterised | namecheap-checker.py:228 | a sequence of strings is `s.split()` exactly when `s` is those words separated by white space |
| Calendar.Label | namecheap-checker.py:223 | `strftime("%B %Y")` splits into exactly two words, the month's English name and the year's decimal digits |
| Calendar.MonthYearKey | namecheap-checker.py:226-242 | `month_year_key(heading)` is the key of the words of the heading, whichever way the heading is read as words separated by white space; with Calendar.KeyOfWords this gives (9999, 13) for a heading without exactly two words |
| Calendar.KeyOfWords | namecheap-checker.py:227-242 | a label that does not split into two words, or whose year `int()` rejects (including a year of more than 4300 digits), keys to (9999, 13); otherwise the key is the year and the month number, 13 for an unknown name |
| Calendar.MonthYearKeyOfLabel | namecheap-checker.py:223-240 | the key read back from a printed label is the year and month of the date it was printed from |
| Calendar.LabelIdentifiesMonth | namecheap-checker.py:223 | two dates share a label exactly when they share year and month |
| Calendar.HeadingOrderIsChronological | namecheap-checker.py:245 | one heading sorts no later than another exactly when its month is no later, so "March 2025" precedes "April 2025" though the strings compare the other way |
| Calendar.Members | namecheap-checker.py:221-224 | a group holds exactly the dated entries with its label, each as many times as in the listing, in listing order |
| Calendar.FirstOccurrences | namecheap-checker.py:212-224 | the dictionary's keys are the labels, each once |
| Calendar.SortBy | namecheap-checker.py:245 | sorting the keys permutes them into non-decreasing key order |
| Calendar.Headings | namecheap-checker.py:212-245 | the printed headings are the labels of the dated entries, each once, in non-decreasing key order |
| Calendar.GroupByMonth | namecheap-checker.py:212-248 | groups have distinct labels; each group is non-empty and ordered like the listing, and holds each entry of its label as many times as the listing does and no other entry; each dated entry is in the group of its own label, and undated entries are in none; groups are in non-decreasing key order |
| Calendar.GroupsChronological | namecheap-checker.py:221-248 | every entry of an earlier group expires in a strictly earlier month than every entry of a later group |
| Report.Rows | namecheap-checker.py:157-178 | one row per listing entry, in listing order, each with its entry's note |
| Report.FirstUnprintable | namecheap-checker.py:175-178 | the first row whose name or WHOIS guard is absent, and all rows before it complete |
| Report.DisplayAsWritten | namecheap-checker.py:126-248 | empty input takes the early return; otherwise the report stops exactly when some record lacks a name or WHOIS guard, at the first such row of the sorted table |
| Report.DisplayDomains | namecheap-checker.py:126-248 | never fails; empty input exactly gives the early return; otherwise the sections are the sorted listing, its rows, its upcoming renewals, the statistics of the input, and its calendar |
| Report.CorrectionAgreesWhenPrintable | namecheap-checker.py:157-178 | when every record has a name and a WHOIS guard, the corrected report equals the report as written |
| Report.MissingWhoisGuardFails | namecheap-checker.py:178 | an element with a name but no `WhoisGuard` stops the report as written at its row |
| Report.MissingWhoisGuardShown | namecheap-checker.py:158-159 | the corrected report shows that row with "N/A" |

## Left out

- The HTTP request, query parameters and API-key masking (namecheap-checker.py:21-50): network I/O.
- Writing `api_response.xml`: file I/O.
- XML parsing, namespaces, the paging summary and API error printing (namecheap-checker.py:58-71, 95-101): a foreign library. An element is given as its attribute map.
- `datetime.now()`, `time.time()` and the timing output: clocks. `now` is a parameter of every operation that needs it.
- Environment variables, the start-up banner and the exit code (namecheap-checker.py:9-15, 250-254): configuration and I/O.
- Column widths, the header lines and the texts of the printed lines: presentation. A row is modelled by its entry, its note and its name and WHOIS guard cells. The "N/A" shown for an absent expiry or creation date is not modelled.
- Statistics.Percentage: the exact quotient is modelled, not the binary float or the `.1f` rounding of what is printed.
- DateParse.ParseDate: digits are the ASCII digits. `strptime` and `int()` also accept other Unicode decimal digits, and `str.split()` splits on Unicode whitespace; only the whitespace set is modelled fully.
- Calendar.Label: the C locale's English month names, and a `%Y` printed without zero padding (glibc), are assumed. The labels come from valid dates only, so years are 1..9999.
- Text.ParseInt: surrounding white space is the `str.isspace()` set of `Text.IsSpace`, while `int()` on an all-ASCII string strips only space and `\t\n\v\f\r` (it rejects `"\x1c5"`, which `ParseInt` reads as 5). The only caller passes words produced by `str.split()`, which contain none of these characters, so the difference never shows in the program.
- Text.ParseInt: the digit limit is the default of `sys.get_int_max_str_digits()`, 4300. A different interpreter setting is not modelled.
- Calendar.KeyOfMonthAndYear: stated for years up to 9999 only, because labels come from valid dates.
- Calendar.SortBy: stability is not stated, because the calendar's labels have pairwise distinct keys (Calendar.LabelIdentifiesMonth), so any sort gives the same order.
- Nothing here divides by zero: the percentages are reached only after the early return on an empty list, as Statistics.Summarize states.

## Findings

| source | as written | input that shows it | evidently intended | confidence | as-written member | corrected member |
|---|---|---|---|---|---|---|
| namecheap-checker.py:175-178 | the row is printed with `f"{domain['name']:<30}"` and `f"{domain['whois_guard']:<15}"`. Both fields come from `attrib.get` and are `None` when the attribute is missing, and formatting `None` with a width raises `TypeError` | a `<Domain>` element with `Name="example.com"` and no `WhoisGuard` attribute | show "N/A" for a missing value, as lines 158-159 already do for the expiry and creation dates | medium; not executed | Report.DisplayAsWritten, Report.MissingWhoisGuardFails | Report.DisplayDomains, Report.MissingWhoisGuardShown |
