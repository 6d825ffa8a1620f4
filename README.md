# Study Jams leaderboard: a verified model of its data pipeline

The leaderboard web app reads a spreadsheet of participants in a cloud
learning programme and shows them as a ranked table. Each participant has a
name, an email, a redemption status, counts of completed skill badges and
arcade games, and lists of their names. This project models the app's data
pipeline in Dafny and proves what each stage promises:

- **API** (`leaderboard_api.dfy`): the API route decides from a column's name
  alone whether its values are counts. It turns each count into an integer
  with `parseInt(v) || 0` and copies every other value unchanged.
  `NormalizeRow` is the per-key loop, written as a method.
- **Ranking** (`ranking.dfy`): the table sorts the records.
  - Redeemed participants come first.
  - Then a higher total of badges plus games ranks higher.
  - Remaining ties keep spreadsheet order.

  `SortLeaderboard` tags the records into an array and sorts it in place.
  Because the order is strict, the result is the one permutation that is
  sorted, however the sort is carried out.
- **Search and eligibility** (`search.dfy`): a search keeps the participants
  whose name, email or profile status contains the term, ignoring case. The
  eligible count is the number of participants with every badge and game
  completed.
- **Column configuration** (`table_config.dfy`): which columns show, on the
  desktop and on mobile, and what each custom cell renderer means.
- **Table rows and body** (`table_row.dfy`, `table_body.dfy`):
  - the rank, medal and tier of each row;
  - the "View Details" link;
  - the `-` shown for empty values;
  - the "No Data Found" row.
- **Participant page** (`participant_page.dfy`): how the page parses the
  pipe-separated badge lists and finds the participant named in its `email`
  parameter.

Supporting modules model the JavaScript built-ins the code relies on:

- `text.dfy`: `trim`, `split`, `includes` and `toLowerCase`;
- `jsnumber.dfy`: `parseInt` and `String(n)`;
- `uri.dfy`: `encodeURIComponent` and `decodeURIComponent`, as in section
  19.2.6 of ECMA-262;
- `records.dfy`: JavaScript truthiness and the value types of a record.

After normalisation a record maps each column to `Num(n)` or `Str(s)`. The
annotations that `sortLeaderboard` adds become fields of `Participant`.

Two behaviours of the code are easy to assume but are not there; the model
follows the code in both:

- There is no filter-criteria object, no secondary sort and no spreadsheet
  export. `xlsx` appears only in the build configuration.
- Nothing ever sets `_actualRank`, `_totalParticipants` or `_isSearchResult`.
  So search results are renumbered 1..k instead of keeping their rank, and
  every row counts as filtered, even for the full list
  (`TableBody.UnannotatedRows`).

## Model

| member | source | states |
|---|---|---|
| LeaderboardApi.IsNumericField | src/app/api/leaderboard/route.js:8-30 | `isNumericField`: the exclusion list is tried first, then the inclusion list; what it decides is stated by `IsNumericFieldIff` |
| LeaderboardApi.IsNumericFieldIff | src/app/api/leaderboard/route.js:8-30 | a column is numeric iff no exclusion word occurs in it in any case and it starts with `#`, or starts with total/number, or ends with count, in any case |
| LeaderboardApi.ExclusionWins | src/app/api/leaderboard/route.js:24-27 | a name containing "names of", "url", "email" or "status" in any case is not numeric, whatever it starts with |
| LeaderboardApi.IsNumericFieldIgnoresCase | src/app/api/leaderboard/route.js:11-13 | two names with the same lower-case form are classified alike |
| LeaderboardApi.CountColumnsAreNumeric | src/app/api/leaderboard/route.js:10 | "# of Skill Badges Completed" and "# of Arcade Games Completed" are numeric |
| LeaderboardApi.TextColumnsAreText | src/app/api/leaderboard/route.js:17-29 | the name, email, status, completion, URL and badge-name columns are not numeric |
| LeaderboardApi.NoCountPattern | src/app/api/leaderboard/route.js:29 | a name matching none of the four inclusion patterns is not numeric, whatever else it holds |
| LeaderboardApi.InclusionIgnoresCase | src/app/api/leaderboard/route.js:11-13 | "TOTAL x", "Total x", "x Count" and "NUMBER y" are numeric |
| LeaderboardApi.NormalizeRow | src/app/api/leaderboard/route.js:83-91 | the new record has the row's keys; numeric keys hold `parseInt(v) \|\| 0`; other keys hold the text unchanged |
| LeaderboardApi.NormalizeRows | src/app/api/leaderboard/route.js:82-97 | one record per row, in order, each normalised; `totalRecords` is their number |
| LeaderboardApi.NormalizedRowUnique | src/app/api/leaderboard/route.js:82-92 | the normalised record of a row is unique |
| LeaderboardApi.NormalizedDefaults | src/app/api/leaderboard/route.js:85-88 | "" and "abc" in a numeric column become 0; "" in a text column stays "" |
| JsNumber.ParseInt | src/app/api/leaderboard/route.js:86 | `parseInt` with no radix on decimal text: white space, an optional sign, the longest digit run, or NaN; stated by `ParseIntOfIntToString`, `ParseIntNoDigits` and `ParseIntSkipsSpace` |
| JsNumber.ParseIntOrZero | src/app/api/leaderboard/route.js:86 | `parseInt(s) \|\| 0`: NaN becomes 0; stated by `ParseIntNoDigits` and `ParseIntOfEmptyAndUndefined` |
| JsNumber.ParseIntOfIntToString | src/app/api/leaderboard/route.js:86 | parseInt reads back the decimal text of any integer, stopping at the first non-digit after it |
| JsNumber.ParseIntNoDigits | src/app/api/leaderboard/route.js:86 | text with no digit after white space and sign parses to NaN, so `\|\| 0` gives 0 |
| JsNumber.ParseIntSkipsSpace | src/app/api/leaderboard/route.js:86 | leading white space does not change what parseInt reads |
| JsNumber.ParseIntOfEmptyAndUndefined | src/components/Table.Index.js:22-23 | parseInt of "" and of "undefined" (a missing count) is 0 after `\|\| 0` |
| Records.ParseIntFieldCases | src/components/Table.Index.js:22-23 | parseInt of a count already converted by the API gives the count back; a missing field gives 0 |
| Ranking.TotalScore | src/components/Table.Index.js:20-22 | `_totalScore`: `parseInt(...) \|\| 0` of the two count columns, added; its place in the order is stated by `RankingOrder` |
| Ranking.Tag | src/components/Table.Index.js:17-23 | the `map` step: record i tagged with `_originalIndex` i and its total score; stated by `RankingIsPermutation` and `RankingOrder` |
| Ranking.Compare | src/components/Table.Index.js:25-41 | the sort's comparator: status first, then score from high to low, then original position; its order properties are `CompareAntisymmetric`, `CompareTransitive` and `RankingOrder` |
| Ranking.Insert | src/components/Table.Index.js:25-41 | one insertion step: the prefix up to i becomes sorted, the array keeps its elements, and the part after i is unchanged |
| Ranking.SortInPlace | src/components/Table.Index.js:25-41 | sorts the array in place: the result is sorted by the comparator and is a permutation of the input |
| Ranking.SortLeaderboard | src/components/Table.Index.js:16-42 | the result is a sorted permutation of the tagged records |
| Ranking.RankingIsPermutation | src/components/Table.Index.js:17-24 | each ranked entry is the tagged record at its `_originalIndex`; every record appears once |
| Ranking.RankingOrder | src/components/Table.Index.js:21-40 | redeemed before not redeemed; score non-increasing within a status; equal status and score in original order; the score is badges plus games |
| Ranking.RankingIsStrict | src/components/Table.Index.js:40 | the comparator puts every pair of a ranking strictly in order |
| Ranking.RankingUnique | src/components/Table.Index.js:25-41 | two rankings of the same records are equal, so the order does not depend on the sort's stability |
| Ranking.ResortKeepsOrder | src/components/Table.Index.js:16-42 | ranking the records of a ranking again gives the same order |
| Ranking.CompareAntisymmetric | src/components/Table.Index.js:25-41 | swapping the arguments reverses the comparator's sign |
| Ranking.CompareTransitive | src/components/Table.Index.js:25-41 | the comparator's order is transitive |
| Search.SearchParticipants | src/components/Table.Index.js:90-112 | `searchname`: a blank term keeps the list, any other keeps the participants with a matching field; what it returns is stated by `SearchResult` and `BlankTermKeepsAll` |
| Search.BlankTermKeepsAll | src/components/Table.Index.js:91-94 | a whitespace-only term gives the list unchanged |
| Search.SearchResult | src/components/Table.Index.js:96-111 | a non-blank term gives the matching participants in order: a subsequence, keeping p iff p is listed and a non-empty name, email or status contains the term ignoring case; a sorted list stays sorted |
| Search.KeepDecision | src/components/Table.Index.js:98-106 | on text fields the filter's test succeeds and keeps exactly the matches |
| Search.TruthyValues | src/components/Table.Index.js:98-102 | `filter(Boolean)` keeps exactly the present, truthy values |
| Search.NormalizedIsSearchable | src/components/Table.Index.js:98-105 | the search fields of records the API produces are text, so `toLowerCase` never fails |
| Search.SearchOfNormalizedRanking | src/components/Table.Index.js:90-112 | searching a ranking of API records never fails and shows an ordered subsequence of it |
| Search.SubsequenceSorted | src/components/Table.Index.js:109-111 | keeping some entries of a sorted list in order leaves it sorted |
| Search.EligibleCountExtremes | src/components/Table.Index.js:70-72 | the count is 0 iff nobody is eligible and the list length iff everybody is |
| Search.EligibleCount | src/components/Table.Index.js:70-72 | the count is at most the list length |
| Search.EligibleCountOfRanking | src/components/Table.Index.js:59-72 | the count over the sorted list equals the count of eligible records in the API data |
| Search.EligibleCountPermutation | src/components/Table.Index.js:70-72 | reordering a list does not change its eligible count |
| TableConfig.GetVisibleColumns | src/config/tableConfig.js:145-148 | the columns marked visible, in configuration order; stated by `FilterMembers` and `VisibleColumns` |
| TableConfig.GetMobileVisibleColumns | src/config/tableConfig.js:150-153 | the columns marked both visible and mobile, in order; stated by `FilterMembers`, `MobileOfVisible` and `VisibleColumns` |
| TableConfig.FilterMembers | src/config/tableConfig.js:145-152 | visible columns are the configured ones marked visible; mobile ones are also marked mobile |
| TableConfig.VisibleColumns | src/config/tableConfig.js:17-152 | the visible columns are entries 0, 1, 3, 5, 6, 7 and 11 of the configuration, in order; the mobile ones are 0, 1 and 11 |
| TableConfig.ShownColumns | src/config/tableConfig.js:17-152 | the keys of the seven visible and three mobile columns |
| TableConfig.MobileOfVisible | src/config/tableConfig.js:150-152 | the mobile columns are the visible columns filtered again by `mobileVisible` |
| TableConfig.FindColumn | src/config/tableConfig.js:155-157 | none iff no column has the key; otherwise the first column with it |
| TableConfig.GetColumnConfig | src/config/tableConfig.js:155-157 | nothing iff no configured column has the key; otherwise a configured column with that key |
| TableConfig.EmailColumnHidden | src/config/tableConfig.js:37-43 | looking up "User Email" gives the email column, which shows neither on the desktop nor on mobile |
| TableConfig.Render | src/config/tableConfig.js:32-131 | the five custom renderers; stated by `PillLabels`, `NameCell` and `ProfileLinkCell` |
| TableConfig.PillLabels | src/config/tableConfig.js:50-92 | "Done" iff the value is "Yes" else "Not Done"; "Valid" iff "All Good" else "Check"; "Yes" iff "Yes" else "No!" |
| TableConfig.NameCell | src/config/tableConfig.js:32-35 | the name cell is the value and a space, ending in the medal emoji iff the completion flag is "Yes" |
| TableConfig.ProfileLinkCell | src/config/tableConfig.js:129-131 | an empty or missing URL shows `-`; any other links to the value |
| TableRow.RowTier | src/components/DynamicTableRow.js:45-61 | `getRowClasses`: gold, silver and bronze for rows 1, 2 and 3, regular otherwise; stated by `MedalFollowsTier` |
| TableRow.Medal | src/components/DynamicTableRow.js:12-13 | the medal emoji of rows 1, 2 and 3 and none after them; a rank below 1 reads `medals[rowIndex - 1]` outside the array and prints `undefined`; `MedalFollowsTier` states the ranks from 1 on |
| TableRow.MedalFollowsTier | src/components/DynamicTableRow.js:12-60 | rows 1, 2 and 3 get the gold, silver and bronze medal and tier; others get no medal and the regular tier |
| TableRow.IndexCellRank | src/components/DynamicTableRow.js:18 | the index cell starts with the rank and a space, and parseInt reads the rank back |
| TableRow.IndexCellMark | src/components/DynamicTableRow.js:16 | the index cell ends with " 🔍" iff the list is filtered and the participant is a search result |
| TableRow.ActionLink | src/components/DynamicTableRow.js:22-26 | the link is `/participant?email=` plus a query that decodes to the email, or to "" without one, and holds no `&`, `#` or `+` |
| TableRow.DefaultCell | src/components/DynamicTableRow.js:41 | a missing value, "" and 0 show `-`; text shows as itself; a non-zero count shows its digits |
| TableRow.RenderCell | src/components/DynamicTableRow.js:9-42 | `renderCell`: the index cell, the link, a custom renderer, or the value or `-`, in that order of precedence; each case is stated by `IndexCellRank`, `ActionLink`, `DefaultCell` and `RowCells` |
| TableRow.RenderRow | src/components/DynamicTableRow.js:44-79 | the row: its tier and one `renderCell` per visible column; stated by `RowCells` and `MedalFollowsTier` |
| TableRow.RowCells | src/components/DynamicTableRow.js:65-77 | one cell per visible column, in configuration order |
| TableBody.RenderBody | src/components/TableBody.js:5-34 | the body: a row per participant, or the "No Data Found" row; stated by `OneRowEach` and `EmptyBody` |
| TableBody.DisplayRank | src/components/TableBody.js:14 | `_actualRank \|\| (index + 1)`; stated by `DisplayRankCases` and `OneRowEach` |
| TableBody.IsFiltered | src/components/TableBody.js:21 | the list length differs from `_totalParticipants`, which a missing count never equals; stated by `OneRowEach` |
| TableBody.DisplayRankCases | src/components/TableBody.js:14 | the rank shown is `_actualRank` when set and non-zero, else the position plus one |
| TableBody.OneRowEach | src/components/TableBody.js:12-23 | one row per participant, in order, with the rank `DisplayRank` shows; filtered iff the length differs from `_totalParticipants` |
| TableBody.EmptyBody | src/components/TableBody.js:6-30 | an empty list gives one "No Data Found" row spanning the seven visible columns |
| TableBody.UnannotatedRows | src/components/TableBody.js:12-21 | without annotations the ranks shown are 1..n and every row is marked filtered |
| TableBody.UnannotatedRow | src/components/TableBody.js:12-23 | row i is drawn with the tier for place i+1, and its index cell carries no search mark |
| TableBody.UnannotatedRankText | src/components/TableBody.js:14 | the index cell of row i reads back as i+1 |
| TableBody.RankingIsUnannotated | src/components/Table.Index.js:17-24 | a ranking, and any list taken from it, carries no annotations |
| ParticipantPage.ParseBadges | src/app/participant/page.js:50-53 | `parseBadges`: split on `\|`, trim, drop empty pieces; stated by `BlankBadges`, `BadgeShape`, `BadgeMembers` and `BadgesRoundTrip` |
| ParticipantPage.BlankBadges | src/app/participant/page.js:51 | a missing, empty or whitespace-only column gives no badges |
| ParticipantPage.BadgeShape | src/app/participant/page.js:52 | each badge is non-empty, has no `\|` and no white space at either end; at most one more badge than separators |
| ParticipantPage.BadgeMembers | src/app/participant/page.js:52 | the badges are exactly the non-empty trimmed `\|`-pieces, in their order in the column and with their repeats |
| ParticipantPage.BadgesRoundTrip | src/app/participant/page.js:50-53 | parsing names joined with `\|` gives the names back, in order |
| ParticipantPage.FindByEmail | src/app/participant/page.js:32 | none iff no record has the email; otherwise the first record that has it |
| ParticipantPage.LoadAsWritten | src/app/participant/page.js:17-42 | the page as written: "No participant email provided" iff the parameter is missing or empty; "Participant not found" for an empty list; "URI malformed" iff the list is not empty and decoding the parameter again fails; otherwise "Participant not found" iff no record has the twice-decoded email, and a found record is the first that has it |
| ParticipantPage.LoadParticipant | src/app/participant/page.js:17-36 | corrected lookup (see ## Findings): "No participant email provided" iff the parameter is missing or empty; a found record has the email |
| ParticipantPage.NoEmail | src/app/participant/page.js:17-21 | without an email the page reports the error and looks nothing up |
| ParticipantPage.LookupResult | src/app/participant/page.js:32-36 | corrected lookup (see ## Findings): "Participant not found" iff no record has the email; otherwise the first record with it |
| ParticipantPage.LinkCarriesEmail | src/components/DynamicTableRow.js:23-26 | a row's link hands the page the participant's email |
| ParticipantPage.LinkFindsParticipant | src/app/participant/page.js:32-37 | corrected lookup (see ## Findings): following a listed participant's link finds a record with their email; the page as written misses this for emails holding `%` (`AsWrittenMissesPercentEmail`, `AsWrittenRejectsBarePercent`) |
| ParticipantPage.AsWrittenWithoutPercent | src/app/participant/page.js:32 | for emails without `%` the extra decoding changes nothing |
| ParticipantPage.AsWrittenMissesPercentEmail | src/app/participant/page.js:32 | the participant "a%41@b.c" is not found by the page as written, which shows "Participant not found", while the corrected lookup finds them |
| ParticipantPage.AsWrittenRejectsBarePercent | src/app/participant/page.js:32-42 | the participant "100%@x.io" gets the error whose message is "URI malformed" |
| Uri.DecodeEncode | src/components/DynamicTableRow.js:23 | decodeURIComponent undoes encodeURIComponent on every string |
| Uri.EncodingAlphabet | src/components/DynamicTableRow.js:23 | encoded text holds only unreserved characters and `%` |
| Uri.DecodeWithoutPercent | src/app/participant/page.js:32 | text without `%` decodes to itself |
| Text.TrimEmptyIffBlank | src/components/Table.Index.js:91 | `trim()` is empty iff the text is all white space |
| Text.TrimShape | src/app/participant/page.js:52 | trim keeps the middle of the text, with white space only around it and none at its ends |
| Text.SplitCount | src/app/participant/page.js:52 | `split` gives one more piece than there are separators |
| Text.JoinSplit | src/app/participant/page.js:52 | joining the pieces of a split gives the text back |
| Text.SplitJoin | src/app/participant/page.js:52 | splitting a join of separator-free pieces gives the pieces back |

## Left out

- Reading the spreadsheet is not modelled. That covers the local file, the cloud bucket (route.js:33-69) and `Papa.parse` (route.js:72-76), which is a third-party library. The model starts from parsed rows, as maps from column name to text.
- The HTTP response (route.js:94-108) is modelled only by `totalRecords`. The clients' `result.data || result` fallback (Table.Index.js:56, page.js:29) is also left out: it is I/O.
- React state, effects, the five-minute refresh timer, `fetch` and the loading and error screens are not modelled. The page's error screen is modelled only as the error the lookup returns.
- Markup, Tailwind classes, the table header, the theme, the confetti script, the layout, the build configuration and the dataset swap scripts are not modelled: they are presentation or administration.
- Custom renderers return HTML strings that the row injects with `dangerouslySetInnerHTML`. The model keeps only the semantic cell (text, pill, link), so HTML interpretation of participant data is not modelled.
- React `key` props are left out. They only affect reconciliation.
- `mob:hidden` cell classes are left out: a row renders every visible column. Mobile visibility is modelled only in the column configuration.
- `JsNumber.ParseInt` is modelled for decimal text only: without a radix, JavaScript reads a `0x` or `0X` prefix as hexadecimal, so `parseInt("0x1A")` is 26 where the model gives 0. No value of the modelled columns is expected to carry such a prefix, and JavaScript numbers are modelled as unbounded integers, so precision beyond 2^53 and exponent notation in `String(n)` are out of scope.
- `toLowerCase` and the regular expressions' `i` flag fold ASCII letters only.
- `Array.prototype.sort` is replaced by an insertion sort on the array. `Ranking.RankingUnique` shows that every correct sort gives the same result.
- `ParticipantPage.LinkedEmail` models what `useSearchParams().get('email')` returns as `decodeURIComponent` of the query text. This agrees with form-urlencoded parsing on the links the table builds: they are encoded, with no `+` and no malformed escape. Hand-typed URLs are not modelled.
- The page's calls of `parseBadges` (page.js:55-56) are not modelled: they pass column text. `LeaderboardApi.TextColumnsAreText` shows that the badge-name columns are never numeric.
- `TableBody.EmptyBody`: the "No Data Found" row cannot be seen in the app. Table.Index.js:188-195 renders the table body only for a non-empty list, and shows "No results found" (Table.Index.js:181-185) otherwise. The lemma is about the component on its own.
- The rendering of the participant page's details (page.js:58-262) is presentation.
- Values other than numbers and text (booleans, null) are left out: the API never produces them.
- `Search.SearchResult`: the search is proved only for records whose searched fields are text, missing or 0. On a non-zero number the source throws a TypeError, and the model returns `Failure(NotText)` without characterising it further. `Search.NormalizedIsSearchable` shows that the API never produces such a record.

## Findings

| source | as written | input that shows it | evidently intended | confidence | as-written member | corrected member |
|---|---|---|---|---|---|---|
| src/app/participant/page.js:32 | the lookup decodes the `email` parameter again, although `useSearchParams().get` has already decoded it | a participant with email "a%41@b.c" is not found: the second decoding gives "aA@b.c". One with "100%@x.io" gets "URI malformed" | compare `User Email` with the parameter as returned | high; not executed | ParticipantPage.AsWrittenMissesPercentEmail | ParticipantPage.LoadParticipant |
