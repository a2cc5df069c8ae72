# License Tracker — a verified model of its core

License Tracker is a small dashboard for software licenses. Each record has a
product, a vendor, a key, an expiry date and optional notes, department and category.
The dashboard searches, filters and sorts the records. It badges each record with
its expiry status, redacts license keys, and shows four summary cards: the total
and three filtered counts; the three filtered counts are modelled. A daily
Python job picks the licenses that expire within a window of days and writes
the text of an alert issue.

This project models three parts of the repository in Dafny:

- `app/page.tsx`, the dashboard page (module `PageTracker`);
- `src/App.tsx`, a second copy of the dashboard (module `AppTracker`);
- `scripts/check-expiring-licenses.py`, the daily check (module `ExpiryCheck`).

What the two dashboards share is in `Licenses`: the record, the view state, the
search and expiry filters, the comparator skeleton, the ceiling day arithmetic and
the cards. `JsArray` models `Array.prototype.filter` as a function. It models
`Array.prototype.sort` as an in-place insertion sort on an `array`. `Strings`
holds the string operations used: `toLowerCase`, `includes`, `<` on strings,
`split`/`join`, `repeat`, and decimal formatting. `AppDemo` states what the four
demonstration records of `src/App.tsx` show on 2024-06-01. `Wrappers` holds `Option`.

Modelling choices:

- Time: a JavaScript date is its millisecond time value, the integer that
  `new Date(expiryDate).getTime()` yields. The current instant `new Date()` is the
  parameter `now`. In the Python job a date is a day number, and
  `datetime.date.today()` is the parameter `today`.
- The step-by-step operations are methods with loops or in-place array updates,
  each proved against a specification function: `filterAndSortLicenses` against
  `Visible` and `SortedFor`; `check_expiring_licenses` against `ExpiringIn`; and
  `create_github_issue`, modelled as `CreateGithubIssue` with its loop
  `AppendSections`, against `IssueFor`.
- Python records: the job writes `daysUntilExpiry` into the dictionary of each
  license in the window, so a license entry is a class, and that key is its one
  mutable field.

## Notes on the code

- `app/page.tsx` has four status bands ("expired", "expiring", "warning",
  "active"); `src/App.tsx` has three ("Expired", "Expiring Soon", "Active").
  Both are modelled.
- `app/page.tsx` redacts a key group by group; `src/App.tsx` replaces every
  upper-case letter and digit with `X`. Both are modelled.
- The department comparator of `app/page.tsx` is not a consistent order when a
  record has no department (see Findings).
- The "expiring" and "expired" windows are measured from the current instant
  `new Date()`, not from midnight.
- Neither page has an "unknown" status for an unparseable date; dates enter the
  model already parsed (see Left out).

## Model

| member | source | states |
|---|---|---|
| Strings.IncludesIsSubstring | app/page.tsx:128-131 | `includes` holds exactly when the term occurs at some position of the string |
| Strings.StrLeTotalOrder | app/page.tsx:166-170 | the code-point order on strings that models JavaScript's `<` is total, antisymmetric and transitive |
| Strings.JoinSplit | app/page.tsx:194-195 | joining the pieces of `split("-")` with `-` gives back the key |
| Strings.SplitJoin | app/page.tsx:194-195 | splitting a join of dash-free groups gives back the groups |
| Strings.Lower | app/page.tsx:128-131 | `toLowerCase` keeps the length and lower-cases each character in place |
| Strings.Split | app/page.tsx:194 | `split("-")` gives at least one piece, and no piece contains the separator |
| Strings.Join | app/page.tsx:195 | definition without ensures: the pieces with the separator between each two; its properties are Strings.JoinSplit and Strings.SplitJoin |
| Strings.Repeat | app/page.tsx:195 | `"X".repeat(n)` has length `n` and holds only `X` |
| Strings.ParseNatToString | app/page.tsx:184 | the decimal text of a count reads back as that count |
| Strings.StrLess | app/page.tsx:166-170 | definition without ensures: `<` on strings, lexicographic on characters; its meaning is Strings.StrLeTotalOrder |
| Strings.Includes | app/page.tsx:128-131 | definition without ensures: the scan of `includes`; its meaning is Strings.IncludesIsSubstring |
| Strings.NatToString | app/page.tsx:184 | the decimal text of a count is non-empty, all digits and without a leading zero |
| Strings.IntToString | scripts/check-expiring-licenses.py:52 | definition without ensures: `str` of an integer, a minus sign before the digits of a negative one; its meaning is Strings.IntToStringDigits |
| Strings.IntToStringDigits | scripts/check-expiring-licenses.py:52 | the text of a non-negative integer is all digits and reads back as it; that of a negative one is `-` and the digits of its magnitude |
| JsArray.Filter | app/page.tsx:126-132 | `filter` keeps only elements of the input that satisfy the predicate, keeps each element that does, and never grows the list |
| JsArray.FilterMembership | app/page.tsx:126-132 | an element is in the filtered list exactly when it is in the input and satisfies the predicate |
| JsArray.FilterSubMultiset | app/page.tsx:122-149 | filtering invents and duplicates nothing: the result is a sub-multiset of the input |
| JsArray.FilterConcat | scripts/check-expiring-licenses.py:26-32 | filtering a concatenation is the concatenation of the filtered parts, so order is kept |
| JsArray.FilterPartitionCount | app/page.tsx:279-311 | three predicates that split the elements split the count: the filtered lengths add up to the input length |
| JsArray.SortInPlace | app/page.tsx:152-171 | `sort` leaves a permutation of the array; with a consistent comparator every element may precede every later one |
| Licenses.MatchesSearch | app/page.tsx:126-132 | definition without ensures: the search callback over the four fields; its meaning is Licenses.MatchesSearchMeansContainsTerm |
| Licenses.SearchFilter | app/page.tsx:125-133 | an empty search term is falsy and leaves the list unchanged |
| Licenses.MatchesSearchMeansContainsTerm | app/page.tsx:127-131 | the search predicate holds exactly when the lower-cased term is a substring of a lower-cased product, vendor, present department or present category |
| Licenses.SearchFilterKeepsExactlyMatches | app/page.tsx:125-133 | a non-empty term keeps exactly the records that contain it in one of the four fields; absent fields never match |
| Licenses.InExpiringWindow | app/page.tsx:137-142 | definition without ensures: the expiry instant lies in `[now, now + 30 days]` |
| Licenses.IsPast | app/page.tsx:147 | definition without ensures: the expiry instant is before `now` |
| Licenses.ExpiryFilter | app/page.tsx:139-149 | mode "all" leaves the list unchanged |
| Licenses.ExpiryFilterKeepsExactly | app/page.tsx:136-149 | "expiring" keeps exactly the records in `[now, now + 30 days]`, "expired" exactly those before `now`; no record passes both |
| Licenses.Visible | app/page.tsx:121-149 | definition without ensures: the search filter, then the expiry filter; its meaning is Licenses.VisibleMembership |
| Licenses.VisibleMembership | app/page.tsx:121-149 | a record is visible exactly when it is a record, matches the search term or the term is empty, and passes the mode; nothing is invented or duplicated |
| Licenses.JsLess | app/page.tsx:166-170 | definition without ensures: JavaScript's `<` on two sort values, false whenever one is `undefined` |
| Licenses.CompareValues | app/page.tsx:166-170 | definition without ensures: the two ternaries of the comparator; its meaning is Licenses.CompareValuesMeansOrder |
| Licenses.DescIsSwappedAsc | app/page.tsx:166-170 | the descending comparator is the ascending one with its arguments swapped |
| Licenses.CompareValuesMeansOrder | app/page.tsx:166-170 | on two defined values of one kind, the comparator returns at most 0 exactly when the first value is not after the second in the chosen direction |
| Licenses.CompareValuesConsistent | app/page.tsx:166-170 | among defined values of one kind the comparator is total and transitive |
| Licenses.SortedByExpiryUnique | src/App.tsx:152-171 | records with distinct expiry times have one ascending order only: two sorted permutations are equal |
| Licenses.DaysUntilExpiry | app/page.tsx:179 | the days left are the ceiling of the difference: the least whole number of days not less than the difference |
| Licenses.DaysUntilExpiryMonotone | app/page.tsx:179 | a later expiry never has fewer days left |
| Licenses.ExpiryFiltersAgainstDays | app/page.tsx:136-149 | a record in the "expiring" window has 0 to 30 days left; an "expired" one has at most 0; a negative day count implies "expired" |
| Licenses.ExpiringSoonCard | app/page.tsx:279-284 | definition without ensures: 0 to 30 whole days left; counted by Licenses.ExpiringSoonCount |
| Licenses.ExpiredCardAt | app/page.tsx:295 | definition without ensures: the expiry instant is before `now`, the test of the "expired" filter |
| Licenses.ActiveCard | app/page.tsx:306-311 | definition without ensures: more than 30 whole days left |
| Licenses.ExpiringSoonCount | app/page.tsx:279-284 | definition without ensures: the number on the "Expiring Soon" card |
| Licenses.ExpiredCount | app/page.tsx:295 | definition without ensures: the number on the "Expired" card |
| Licenses.ActiveCount | app/page.tsx:306-311 | definition without ensures: the number on the "Active" card |
| Licenses.ExpiringSoonAndActiveAtMostTotal | app/page.tsx:279-311 | no license is counted on both the "Expiring Soon" and "Active" cards |
| Licenses.ExpiredCardOverlapsExpiringSoon | app/page.tsx:295 | a license that expired less than a day ago is counted on both "Expired" and "Expiring Soon", so the cards count more licenses than exist |
| Licenses.CardsPartitionLicenses | app/page.tsx:279-311 | with "Expired" counted on whole days, the three cards count every license exactly once |
| PageTracker.SortValueOf | app/page.tsx:153-164 | definition without ensures: the lower-cased text, the time value, or `undefined` for a missing department |
| PageTracker.Compare | app/page.tsx:152-171 | definition without ensures: the comparator; its meaning is PageTracker.CompareMeansOrder |
| PageTracker.CompareMeansOrder | app/page.tsx:152-171 | for records that have the key, the comparator returns at most 0 exactly when the records are in sort order |
| PageTracker.ComparatorConsistent | app/page.tsx:152-171 | on records that all have the sort key, the comparator is total and transitive |
| PageTracker.DepartmentComparatorInconsistent | app/page.tsx:153-154 | a record without a department ties with "a" and with "b" while "b" sorts after "a", so the department comparator is not consistent |
| PageTracker.FilterAndSortLicenses | app/page.tsx:121-174 | the result holds exactly the visible records, with their multiplicities; when every visible record has the sort key it is in sort order |
| PageTracker.GetExpiryStatus | app/page.tsx:176-190 | each of the four bands holds exactly on its range of the time left; the text is "Expired" or the days left followed by " days"; the variant follows the band |
| PageTracker.StatusMonotone | app/page.tsx:179-189 | a later expiry never gets an earlier band |
| PageTracker.StatusTextShowsDays | app/page.tsx:184-188 | the number in a "<days> days" badge is all digits and reads back as the days left |
| PageTracker.FilterAgainstBadge | app/page.tsx:139-190 | a record the "expiring" filter keeps has the "expiring" badge; a record due earlier today passes the "expired" filter yet shows "0 days" |
| PageTracker.MaskGroups | app/page.tsx:195 | definition without ensures: every group but the last replaced by as many `X`; its meaning is PageTracker.ObfuscatePreservesGroups |
| PageTracker.ObfuscateLicenseKey | app/page.tsx:192-196 | definition without ensures: split on `-`, mask every group but the last, join; its properties are the three lemmas below |
| PageTracker.ObfuscatePreservesGroups | app/page.tsx:192-196 | with keys shown the key is unchanged; otherwise the result has as many groups of the same lengths, every group but the last all `X`, the last unchanged |
| PageTracker.ObfuscatePreservesLength | app/page.tsx:192-196 | redaction keeps the key's length |
| PageTracker.ObfuscateIdempotent | app/page.tsx:192-196 | redacting a redacted key changes nothing |
| AppTracker.SortValueOf | src/App.tsx:153-164 | definition without ensures: the lower-cased text with a missing key read as `""`, or the time value |
| AppTracker.Compare | src/App.tsx:152-171 | definition without ensures: the comparator; its meaning is AppTracker.CompareMeansOrder |
| AppTracker.CompareMeansOrder | src/App.tsx:152-171 | with a missing key read as `""`, the comparator returns at most 0 exactly when the records are in sort order, for every pair |
| AppTracker.ComparatorConsistent | src/App.tsx:152-171 | the comparator is total and transitive on every list, for every key and direction |
| AppTracker.CompareAgreesWithPage | src/App.tsx:153-154 | on records that have the key, this comparator equals the comparator of `app/page.tsx` |
| AppTracker.FilterAndSortLicenses | src/App.tsx:121-174 | the result holds exactly the visible records, with their multiplicities, always in sort order |
| AppTracker.GetExpiryStatus | src/App.tsx:176-188 | "Expired", "Expiring Soon" and "Active" each hold exactly on their range of the time left; the variant follows the text |
| AppTracker.StatusAgreesWithPage | src/App.tsx:176-188 | the three bands are the four of `app/page.tsx` with "warning" and "active" merged |
| AppTracker.FilterAgainstBadge | src/App.tsx:139-188 | a record the "expiring" filter keeps is badged "Expiring Soon"; one the "expired" filter keeps is never "Active", and is "Expiring Soon" within its first day past expiry |
| AppTracker.IsMasked | src/App.tsx:192 | definition without ensures: the character class `[A-Z0-9]` |
| AppTracker.ReplaceMasked | src/App.tsx:192 | the replacement keeps the length, turns every upper-case letter and digit into `X`, and keeps every other character in place |
| AppTracker.ObfuscateLicenseKey | src/App.tsx:190-193 | with keys shown the key is unchanged; otherwise the positional mask of the replacement holds |
| AppTracker.ObfuscatedHasNoDigits | src/App.tsx:192 | a redacted key has no digits and no upper-case letter other than `X` |
| AppTracker.ObfuscateIdempotent | src/App.tsx:190-193 | redacting a redacted key changes nothing |
| AppTracker.ObfuscateKeepsDashes | src/App.tsx:192 | dashes stay exactly where they were, so the groups and their lengths survive |
| AppDemo.DemoExpiring | src/App.tsx:76-119 | at noon on 2024-06-01 the "expiring" view of the demonstration records is exactly Slack Pro |
| AppDemo.DemoExpired | src/App.tsx:76-119 | at noon on 2024-06-01 the "expired" view of the demonstration records is empty |
| AppDemo.DemoSortedByExpiry | src/App.tsx:76-119 | sorted by expiry date ascending, the records are Slack Pro, Adobe, Office, JetBrains; no other order is sorted |
| ExpiryCheck.InWindow | scripts/check-expiring-licenses.py:22-29 | definition without ensures: `today <= expiry_date <= threshold_date` on day numbers |
| ExpiryCheck.WindowBoundsInclusive | scripts/check-expiring-licenses.py:29 | both ends of the window count; the day before today and the day after the last do not |
| ExpiryCheck.ExpiringInExactly | scripts/check-expiring-licenses.py:22-34 | a license is reported exactly when it is given and its date lies between today and today plus the threshold; never more licenses than given |
| ExpiryCheck.ExpiringInMonotone | scripts/check-expiring-licenses.py:19-29 | a wider window reports every license a narrower one does |
| ExpiryCheck.CheckExpiringLicenses | scripts/check-expiring-licenses.py:19-34 | the result is the window's licenses in input order; every one in the window has `daysUntilExpiry` set to its days left, between 0 and the threshold; every other license keeps its old value |
| ExpiryCheck.CheckExpiringLicensesDefault | scripts/check-expiring-licenses.py:19 | with `days_threshold` left at its default the window is 30 days: the same result and annotations as the 30-day call |
| ExpiryCheck.IssueTitle | scripts/check-expiring-licenses.py:42 | definition without ensures: the title with the count; its properties are ExpiryCheck.TitleShowsCount and ExpiryCheck.TitleInjective |
| ExpiryCheck.Section | scripts/check-expiring-licenses.py:48-53 | definition without ensures: the six lines of one license, with `N/A` for a missing department or notes |
| ExpiryCheck.BodyHeader | scripts/check-expiring-licenses.py:44-45 | definition without ensures: the heading and the introduction with the count |
| ExpiryCheck.OrNotAvailable | scripts/check-expiring-licenses.py:50-53 | definition without ensures: `license.get(key, 'N/A')` |
| ExpiryCheck.Sections | scripts/check-expiring-licenses.py:47-53 | definition without ensures: the sections of the licenses in list order; its meaning is ExpiryCheck.SectionsConcat |
| ExpiryCheck.IssueFor | scripts/check-expiring-licenses.py:38-61 | definition without ensures: no issue, a `KeyError`, or the title and header, sections and the fixed footer `BodyFooter` (lines 55-61); the specification ExpiryCheck.CreateGithubIssue meets |
| ExpiryCheck.CreateGithubIssue | scripts/check-expiring-licenses.py:36-61 | no issue for an empty list; a `KeyError` when a license lacks `daysUntilExpiry`; otherwise the title with the count and the body of header, per-license sections in order, and footer |
| ExpiryCheck.AppendSections | scripts/check-expiring-licenses.py:47-53 | the loop completes exactly when every license carries `daysUntilExpiry`, and then it has appended their sections in list order |
| ExpiryCheck.CheckedListIsReportable | scripts/check-expiring-licenses.py:31-39 | on a list whose licenses all carry `daysUntilExpiry`, there is an issue exactly when the list is non-empty |
| ExpiryCheck.SectionsConcat | scripts/check-expiring-licenses.py:47-53 | the sections of a concatenation are the sections of each part, one after the other |
| ExpiryCheck.TitleShowsCount | scripts/check-expiring-licenses.py:42 | the title is the fixed prefix, the decimal digits of the count and the fixed suffix, and the digits read back as the count |
| ExpiryCheck.TitleInjective | scripts/check-expiring-licenses.py:42 | different counts give different titles |
| ExpiryCheck.LicenseEntry.constructor | scripts/check-expiring-licenses.py:13-17 | a loaded entry holds the given fields, and the constructor starts with the key `daysUntilExpiry` absent |

## Left out

- GitHub sign-in, `fetch`, `localStorage` and logout: outside the core; the records are an input to the model.
- React state, effects and rendering: `setFilteredLicenses` is the method's return value; the search term, the filter and the sort selection are fields of `ViewState`, and `showKeys` is a parameter of the key redaction.
- `load_licenses`, the YAML parsing, `main` and the environment variables: I/O outside the core.
- The `requests.post` call in `create_github_issue`, its URL, headers and the printing of the response: network I/O. The model stops at the title and body it would send.
- Parsing dates (`new Date(string)`, `strptime`): dates are inputs, already converted to time values or day numbers. An unparseable date, which JavaScript turns into NaN and Python into a `ValueError`, is not modelled.
- `Math.ceil` on a floating-point quotient: modelled as exact integer ceiling division. The two agree for time differences of realistic size.
- Strings.StrLess: strings are sequences of Unicode scalar values, so the order is code-point order; JavaScript's `<` compares UTF-16 code units, and the two differ for text with characters above U+FFFF.
- Strings.StrLeTotalOrder: proved for the code-point order of Strings.StrLess, not for UTF-16 code-unit order.
- PageTracker.ObfuscateLicenseKey: a group's length is counted in scalar values, while `part.length` counts UTF-16 code units, so a group with a character above U+FFFF gets one `X` fewer than the page shows.
- `toLowerCase`: only ASCII letters are lower-cased. Unicode case mapping is not modelled.
- The engine's sort algorithm: modelled as an insertion sort, one admissible implementation. With a consistent comparator the contract fixes the result up to ties; with an inconsistent one the model only promises a permutation.
- `new Date()` is read once per call of `filterAndSortLicenses`, but again in every card filter callback and in every `getExpiryStatus` call (once per row); the model reads one instant `now` for a whole render, so it does not capture the clock moving between those reads.
- Sort keys other than the four the "sort by" selector offers (product, vendor, expiry date, department): `sortBy` is typed to those four.
- Python `date` overflow, non-string YAML values, and a department or notes key present with the value `None`: entries are typed, and an absent key is `None` in the model.
- The dictionary keys the script never reads (`licenseKey`, `category`, `id`): not fields of `LicenseEntry`.

## Findings

| source | as written | input that shows it | evidently intended | confidence | as-written member | corrected member |
|---|---|---|---|---|---|---|
| app/page.tsx:153-154 | a missing department stays `undefined`, which compares equal to every department | departments "b", none, "a": "b" ties with none, none ties with "a", yet "b" sorts after "a" | read a missing key as `""`, as `src/App.tsx` does, so the comparator is consistent and the sort is specified | not executed | PageTracker.DepartmentComparatorInconsistent | AppTracker.ComparatorConsistent |
| app/page.tsx:295 | the "Expired" card compares instants while "Expiring Soon" and "Active" round up to whole days | a license that expired less than a day ago (twelve hours, say) has 0 days left and is counted on both "Expired" and "Expiring Soon" | count "Expired" as fewer than 0 whole days left, so the three cards split the licenses | not executed | Licenses.ExpiredCardOverlapsExpiringSoon | Licenses.CardsPartitionLicenses |
