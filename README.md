# Records page and page navigation, modelled in Dafny

This project models the two scripts behind a small static site.

`Scripts/records.js` loads `records.json`. It turns each loosely typed element into a validated
record or drops it, and sorts the records newest first. It then fills the site's views:

- the grid of all certificates and the grid of "former" ones;
- three counters;
- a leaderboard of people ranked by points, with English ordinal ranks;
- a per-person profile view.

Which of the last two is shown is kept in step with the `person` query parameter of the URL,
through pushes, replacements and `popstate`.

`Scripts/navigation.js` shows the page sections whose id the URL hash names, or, when the hash
names no existing section, those whose id is the default page, writing that id into the hash by
replacing the current history entry. With unique ids and an existing page this is exactly one
section; the facts below say what happens otherwise. It mirrors the choice onto the nav triggers,
including the roving tab index of tab-role triggers.

The model is split into these modules:

- `Text`: the JavaScript string built-ins the scripts use. It covers `trim` over the exact
  ECMAScript whitespace set, ASCII `toLowerCase`, `startsWith`, `localeCompare` (as code-point
  order), and `String(n)` with its inverse.
- `Json`: the parsed payload.
- `BrowserHistory`: `location` and `history`. It is a class holding the list of entries and the
  current index. `pushState` drops the forward entries and appends, `replaceState` overwrites the
  current entry, and back/forward move the index.
- `Records`: the normaliser, the reference resolvers and `loadRecords`. I/O becomes the `Fetched`
  value it settles with.
- `Sorting`: `Array.prototype.sort` as a stable insertion sort over a comparator.
- `Ranking`: `compareRecords` and `ordinal`.
- `Leaderboard`: `pointsForRecord` and `groupRecordsByPerson`. The grouping loop is a method
  proved against the `IsLeaderboard` specification.
- `RecordsView`: the rendering functions, `updateStats`, `setPersonParam` and `getPersonParam`.
  The class `RecordsPage` holds the state that `initRecords` keeps in its closures and in the
  DOM. Its methods are the loading/ready/failed transitions, `showLeaderboard`, `showProfile`,
  the arrow and back-button clicks, and `popstate`.
- `Navigation`: `getHashPageId` and `pageExists` (the predicate `PageExists`). The class
  `NavigationController` holds the page sections and nav triggers. Its methods are
  `setActivePage` (two loops over the elements), `initNavigation`, and the click and
  `hashchange` handlers. The page `initNavigation` falls back to when called without options,
  "home", is the constant `DefaultPage`; `Init` takes that page as its parameter.

Three facts about the code shape the model:

- Despite its name, `safeFootageHref` never rejects a non-blank string as unsafe. Every branch
  returns the trimmed string.
- `setActivePage` shows no page at all when the page id names no section.
- `setActivePage` shows several pages when ids repeat. "Exactly one visible page" is therefore
  proved under unique ids and an existing id (`OneVisiblePage`, `StartsWithOnePage`).

## Model

| member | source | states |
|---|---|---|
| Text.Trim | Scripts/records.js:5-9 | `trim` leaves no whitespace at either end, is empty exactly when the string is all whitespace, and changes nothing in an already trimmed string |
| Text.TrimIdempotent | Scripts/records.js:5-9 | trimming twice is trimming once |
| Text.TrimPadded | Scripts/records.js:5-9 | any trimmed text with whitespace around it trims back to exactly that text |
| Text.CompareZero | Scripts/records.js:79-83 | the `localeCompare` model returns 0 exactly for equal strings |
| Text.CompareAntisymmetric | Scripts/records.js:79-83 | swapping the strings negates the comparison |
| Text.CompareTransitiveWeak | Scripts/records.js:79-83 | "no later than" in string order is transitive |
| Text.Compare | Scripts/records.js:79-83 | the `localeCompare` model returns -1, 0 or 1 |
| Text.LowerAscii | Scripts/records.js:12 | lower-casing keeps the length and lower-cases each character in place |
| Text.NatToString | Scripts/records.js:361-363 | `String(n)` of a count is a non-empty run of digits, ending in the count's last digit, with no leading zero except for 0 itself |
| Text.NatToStringRoundTrip | Scripts/records.js:361-363 | the decimal text of a count reads back as that count |
| Text.NatToStringInjective | Scripts/records.js:361-363 | different counts print differently |
| Json.Field | Scripts/records.js:44-47 | a property read finds a value exactly when the element is an object that has that key, and then returns the key's value |
| Records.NonEmptyTrimmed | Scripts/records.js:5-9 | a string gives null exactly when it is all whitespace, and otherwise gives its trimmed, non-empty form |
| Records.AsNonEmptyString | Scripts/records.js:5-9 | the result is non-null exactly for a string value that is not all whitespace, and is then that string trimmed, non-empty |
| Records.AsNonEmptyStringFixpoint | Scripts/records.js:5-9 | a string that `asNonEmptyString` returned is returned unchanged when passed again |
| Records.NormalizeStatus | Scripts/records.js:11-15 | "former" exactly when the value is a string whose trimmed, lower-cased form is "former"; "current" for anything else, missing and non-strings included |
| Records.NormalizeStatusRoundTrip | Scripts/records.js:11-15 | the spelling of each status normalises back to that status |
| Records.NormalizeStatusIgnoresCaseAndSpaces | Scripts/records.js:11-15 | " FORMER\n" is the former status |
| Records.StripDotSlash | Scripts/records.js:28 | a leading "./" is removed, a reference without "./" or "/" is unchanged, and the result is a suffix of the input |
| Records.ResolveImageHref | Scripts/records.js:17-29 | an image reference always resolves to a non-empty href |
| Records.ResolveImageHrefCases | Scripts/records.js:17-29 | missing or blank gives the placeholder; `http(s)://` (any case) or "/" gives the trimmed text as is; "Assets/..." gives the assets directory followed by the rest; anything else gives the assets directory followed by the text with "./" removed |
| Records.ResolvedShape | Scripts/records.js:17-29 | every resolved href is trimmed and is absolute or root-relative |
| Records.ResolveImageHrefIdempotent | Scripts/records.js:17-29 | resolving a resolved href again leaves it unchanged |
| Records.SafeFootageHref | Scripts/records.js:31-39 | footage is null exactly when `asNonEmptyString` is null, and otherwise non-blank and trimmed |
| Records.SafeFootageHrefPassesThrough | Scripts/records.js:31-39 | every non-blank footage string comes out as its trimmed text, never resolved against the assets directory |
| Records.HttpSchemeExamples | Scripts/records.js:21 | the scheme test accepts "https://..." and "HTTP://...", and rejects "http:/..." and "ftp://..." |
| Records.ParseNumberCases | Scripts/records.js:47 | `Number` of a blank string is 0, of a digit run its decimal value, and it is a number exactly for blank text or an optionally signed digit run once trimmed |
| Records.ParseNumberRoundTrip | Scripts/records.js:47 | `Number(String(n))` is `n` for every integer, negative ones included |
| Records.JsonToNumber | Scripts/records.js:47 | `Number` of a number is that number, and of a one-element array holding a number is that number. An object, or an array of two or more elements, gives no finite number; the ones among them on which `Number` throws are singled out by `ConversionThrows` before this result is used |
| Records.ElementToNumber | Scripts/records.js:47 | the one element of an array converts through its string form: a number element gives that number back, while a boolean ("true", "false") or an object ("[object Object]") gives no finite number, unless the object makes the conversion throw (`ConversionThrows`) |
| Records.WrappedNumber | Scripts/records.js:47 | `Number([n])` is `n` |
| Records.NormalizeRecord | Scripts/records.js:41-63 | a record is produced exactly when the element is an object with non-blank string name, title and description and a finite year. Its fields are then the trimmed strings, the year's number, the normalised status, the image as `asNonEmptyString` gives it and the footage as `safeFootageHref` gives it, and it is well formed |
| Records.NormalizeRecordRoundTrip | Scripts/records.js:41-63 | the JSON of any well-formed record normalises back to that record |
| Records.Compact | Scripts/records.js:76 | `filter(Boolean)` keeps only elements that were non-null in the input |
| Records.CompactAppend | Scripts/records.js:76 | filtering keeps the input order: filtering a concatenation gives the filtered parts, concatenated |
| Records.NormalizeAll | Scripts/records.js:76 | `map(normalizeRecord).filter(Boolean)` gives at most as many records as elements, all well formed |
| Records.NormalizeAllAppend | Scripts/records.js:76 | the records of a concatenation are those of the first part followed by those of the second |
| Records.NormalizeAllSingle | Scripts/records.js:76 | one element contributes its normalised record, or nothing |
| Records.LoadRecords | Scripts/records.js:65-77 | a network failure, a non-ok status ("Failed to load records.json (status)"), an unparsable body and a non-array body ("records.json must be an array.") each give their error message. An element whose year makes `Number` throw gives the TypeError's message for the whole load. Success happens exactly for an ok response holding an array with no such element, and yields the normalised records of its elements, in order, all well formed |
| Records.YearWithOwnToString | Scripts/records.js:41-76 | a year of `[{"toString": 1}]` makes the whole load fail with the TypeError's message, instead of the element being skipped |
| Sorting.Insert | Scripts/records.js:395 | inserting an element into a list adds exactly that element to its multiset |
| Sorting.SortByPermutes | Scripts/records.js:395 | sorting with any comparator gives a permutation of the input |
| Sorting.SortBySorted | Scripts/records.js:395 | sorting with a total-preorder comparator gives a sorted permutation of the input |
| Sorting.SortByDistinct | Scripts/records.js:278-281 | sorting a list without duplicates gives one without duplicates |
| Sorting.InsertEquivalents | Scripts/records.js:395 | inserting an element puts it in front of every element the comparator ranks level with it, and keeps their order |
| Sorting.SortByStable | Scripts/records.js:395 | the sort is stable: for any element, the elements ranked level with it come out in their input order |
| Sorting.SortBySortedIsIdentity | Scripts/records.js:349 | sorting an already sorted list leaves it unchanged, because the sort is stable |
| Sorting.StrictlySortedUnique | Scripts/records.js:278-281 | two strictly sorted lists with the same members are equal |
| Ranking.CompareRecords | Scripts/records.js:79-83 | different years: negative exactly when the first is later; same year and different status: negative exactly when the first is current; same year and status: zero exactly when the titles are equal |
| Ranking.CompareRecordsKeys | Scripts/records.js:79-83 | a later year goes first; in the same year "current" goes before "former"; with year and status equal the titles decide |
| Ranking.CompareRecordsAntisymmetric | Scripts/records.js:79-83 | swapping the records flips the sign of `compareRecords` |
| Ranking.CompareRecordsZero | Scripts/records.js:79-83 | two records compare equal exactly when year, status and title are all equal |
| Ranking.CompareRecordsTransitive | Scripts/records.js:79-83 | "no later than" under `compareRecords` is transitive |
| Ranking.CompareRecordsIsTotalPreorder | Scripts/records.js:79-83 | `compareRecords` is a consistent comparator for `sort` |
| Ranking.SortRecordsSorted | Scripts/records.js:395 | the sorted records are a permutation of the loaded ones, sorted by `compareRecords`, with years non-increasing |
| Ranking.Ordinal | Scripts/records.js:85-98 | the ordinal is the decimal text of the rank followed by one of "st", "nd", "rd", "th" |
| Ranking.OrdinalByDigitValues | Scripts/records.js:85-98 | the suffix depends only on the tens digit and the last digit |
| Ranking.OrdinalReadsDigits | Scripts/records.js:85-98 | the ordinal is the rank in decimal followed by the suffix its written digits call for: "th" after a tens digit of 1, otherwise "st", "nd", "rd" for a final 1, 2, 3 and "th" for the rest |
| Ranking.OneDigitOrdinals | Scripts/records.js:85-98 | 1st, 2nd, 3rd, 4th |
| Ranking.TeenOrdinals | Scripts/records.js:85-98 | 11th, 12th, 13th |
| Ranking.LargerOrdinals | Scripts/records.js:85-98 | 21st, 101st, 112th |
| Leaderboard.PointsForStatus | Scripts/records.js:262-264 | a record is worth 10 points exactly when it is current and 5 exactly when it is former |
| Leaderboard.CompareLeaders | Scripts/records.js:278-281 | different points: negative exactly when the first has more; equal points: the result is the names' string order, so zero exactly when the names are equal |
| Leaderboard.PointsFormula | Scripts/records.js:262-264 | a person's points are ten per current record plus five per former one |
| Leaderboard.LeaderForSnoc | Scripts/records.js:268-275 | one more record appends to its own person's records and adds its points, leaving every other person unchanged |
| Leaderboard.GroupStep | Scripts/records.js:268-275 | one turn of the grouping loop keeps the map equal to the leaders of the records seen so far, with the names listed once each in first-seen order |
| Leaderboard.GroupByName | Scripts/records.js:267-276 | the loop leaves one entry per distinct name, listed in first-seen order, holding that person's records in input order and their points |
| Leaderboard.GroupRecordsByPerson | Scripts/records.js:266-283 | the result is the leaderboard: one leader per distinct name, holding that person's records in input order and their summed points, strictly ordered by points (highest first) and then by name |
| Leaderboard.CompareLeadersIsTotalPreorder | Scripts/records.js:278-281 | the leaderboard comparator is consistent |
| Leaderboard.CompareLeadersStrict | Scripts/records.js:278-281 | two different leaders never tie, so the ranking does not depend on the order of the map |
| Leaderboard.LeaderboardUnique | Scripts/records.js:266-283 | the records determine the leaderboard: two lists that both meet its description are equal |
| Leaderboard.LeaderboardTotal | Scripts/records.js:262-283 | the leaders' points add up to the points of all the records, so every record is counted exactly once |
| RecordsView.RenderGrid | Scripts/records.js:250-260 | an empty list shows "No records to display.", and any other list shows exactly those records |
| RecordsView.RenderLeaderboard | Scripts/records.js:300-346 | no leaders shows "No people yet."; otherwise there is one row per leader, in order, with the leader's name and the ordinal of its position written out in digits |
| RecordsView.WithStatus | Scripts/records.js:401 | the filter keeps as many records as have the status, all of them from the input and with that status |
| RecordsView.WithStatusAppend | Scripts/records.js:401 | the filter keeps the input order: filtering a concatenation gives the filtered parts, concatenated |
| RecordsView.WithStatusSingle | Scripts/records.js:401 | a single record is kept exactly when it has the status |
| RecordsView.StatusPartition | Scripts/records.js:358-359 | current and former records together are all the records |
| RecordsView.StatsFor | Scripts/records.js:352-364 | the counters read the total, the number of current records and the number of former records |
| RecordsView.WithStatusSorted | Scripts/records.js:399-402 | the former grid is sorted as the full grid is |
| RecordsView.RecordsOfSorted | Scripts/records.js:404 | a person's records, taken from the sorted list, are sorted |
| RecordsView.ProfileKeepsOrder | Scripts/records.js:348-350 | the profile's re-sort of a person's records leaves them as grouped |
| RecordsView.FindLeader | Scripts/records.js:415 | `find` returns nothing exactly when no leader has the name, and otherwise a leader with that name |
| RecordsView.FindNamed | Scripts/records.js:415 | among distinct names, looking up a leader's name finds that leader |
| RecordsView.GetPersonParam | Scripts/records.js:294-298 | the parameter is present exactly when it is set and not blank, and is then its trimmed text |
| RecordsView.WithPerson | Scripts/records.js:285-288 | the parameter is set to the name when one is given and non-empty, and deleted otherwise; the hash is kept |
| RecordsView.PersonParamRoundTrip | Scripts/records.js:285-298 | a trimmed non-empty name written by `setPersonParam` reads back as that name, and a deleted parameter reads back as absent |
| RecordsView.AfterSetPerson | Scripts/records.js:285-292 | a replace keeps the length and the index; a push drops the forward entries and moves one entry on; every entry other than the new current one is as before, and the current entry is the new URL |
| RecordsView.SetPersonParam | Scripts/records.js:285-292 | the history is updated by a push or a replace as `AfterSetPerson` describes, and the current URL then reads back the name written |
| BrowserHistory.History.PushState | Scripts/records.js:290-291 | the forward entries are dropped, the URL is appended and becomes current |
| BrowserHistory.History.ReplaceState | Scripts/records.js:290-291 | only the current entry changes, to the URL |
| BrowserHistory.History.Go | Scripts/records.js:440 | back or forward moves the current entry within the list and changes no entry |
| RecordsView.RecordsPage.constructor | Scripts/records.js:389-392 | before loading, both grids read "Loading records…", the leaderboard "Loading people…" and the profile grid "Loading…" |
| RecordsView.RecordsPage.UpdateStats | Scripts/records.js:352-364 | with all three counters present they show the statistics of the records; otherwise nothing changes |
| RecordsView.RecordsPage.ShowLeaderboard | Scripts/records.js:406-412 | the leaderboard is shown and the profile name cleared. With `updateUrl`, the parameter is deleted by a push or a replace and the view matches the URL |
| RecordsView.RecordsPage.ShowProfile | Scripts/records.js:414-424 | an unknown name changes nothing. Otherwise that leader's profile is shown with its records sorted, and with `updateUrl` the parameter is written by a push or a replace and the view matches the URL |
| RecordsView.RecordsPage.OpenProfile | Scripts/records.js:418-423 | the found leader's profile is shown; with `updateUrl` the history gets its name and the view matches the URL |
| RecordsView.RecordsPage.ShowProfileView | Scripts/records.js:418-421 | the leaderboard is hidden, the profile shown with the leader's name and sorted records |
| RecordsView.RecordsPage.Load | Scripts/records.js:394-452 | on a load error every container shows the message. On success the counters, both grids and the leaderboard are rendered from the sorted records, and the URL's person picks the view: no person shows the leaderboard and leaves the profile grid as it was, a known person gets their profile, an unknown one changes no view. The history is untouched either way |
| RecordsView.RecordsPage.Render | Scripts/records.js:395-429 | the counters, the full and former grids, and the leaderboard rendered from the records, whose leaders meet the leaderboard description |
| RecordsView.RecordsPage.ShowInitialView | Scripts/records.js:432-438 | a person in the URL who is on the leaderboard gets their profile; no person shows the leaderboard; an unknown person leaves the view; the URL is not written |
| RecordsView.RecordsPage.OnArrowClick | Scripts/records.js:426-428 | clicking a row's arrow shows that leader's profile and pushes its name; the counters, both grids and the leaderboard are unchanged |
| RecordsView.RecordsPage.OnBackClick | Scripts/records.js:430 | the back button shows the leaderboard and pushes a URL without the parameter; the counters, both grids, the leaderboard and the hidden profile grid are unchanged |
| RecordsView.RecordsPage.OnPopState | Scripts/records.js:440-444 | after back/forward the view is derived again from the URL without writing the history, and matches it whenever the URL names a known person or none; the counters, both grids and the leaderboard are unchanged, and so is the profile grid when the leaderboard is shown |
| RecordsView.RecordsPage.OnHistoryMove | Scripts/records.js:440-444 | back or forward within the history followed by `popstate` leaves the entries alone, moves the index, and brings the view in step with a URL that names a known person or none, leaving the profile grid alone when it shows the leaderboard; a move of 0 changes no view |
| Navigation.StripHash | Scripts/navigation.js:5 | a leading '#' is always removed, and only that one; a hash not starting with '#' is unchanged |
| Navigation.GetHashPageId | Scripts/navigation.js:4-7 | the id is null exactly when the hash without its '#' is blank, and otherwise its trimmed, non-empty text |
| Navigation.WithHash | Scripts/navigation.js:44-46 | the new hash is "#" and the id, or "" for an empty id, and the query is kept |
| Navigation.HashRoundTrip | Scripts/navigation.js:43-47 | a trimmed non-empty id written into the hash reads back as that id |
| Navigation.PageExists | Scripts/navigation.js:17-19 | a page exists exactly when some page section has that id |
| Navigation.ActivatePage | Scripts/navigation.js:25-29 | a page is active and visible exactly when its id is the page id |
| Navigation.ActivateNav | Scripts/navigation.js:31-41 | a trigger is active exactly when it targets the page id. A tab is "aria-selected" "true" with tab index 0 when active, and "false" with -1 otherwise; other triggers keep those attributes |
| Navigation.ActivatedPages | Scripts/navigation.js:25-29 | every page is updated as `ActivatePage` says |
| Navigation.ActivatedNavs | Scripts/navigation.js:31-41 | every trigger is updated as `ActivateNav` says |
| Navigation.OneVisiblePage | Scripts/navigation.js:25-29 | a page is visible exactly when its id matches. With unique ids at most one page is visible, and one is visible exactly when the id exists |
| Navigation.ActivateIdempotent | Scripts/navigation.js:21-48 | activating the same page twice is activating it once |
| Navigation.ActivateForgetsPrevious | Scripts/navigation.js:21-48 | the result of activation does not depend on the page shown before |
| Navigation.StartsWithOnePage | Scripts/navigation.js:75-81 | with unique ids and an existing page, exactly one page is visible |
| Navigation.NavigationController.SetActivePage | Scripts/navigation.js:21-48 | the pages and triggers are activated for the id. With `updateHash`, the current history entry is replaced by the URL with the new hash, which reads back as the id when the id is non-empty and trimmed; the history is not pushed |
| Navigation.NavigationController.Init | Scripts/navigation.js:50-82 | no pages: nothing happens. A page without an id: the error, before any handler is registered. Otherwise: handlers registered, then the page the hash names if it exists (history untouched), or else the default page with its hash written by a replace |
| Navigation.NavigationController.InitDefault | Scripts/navigation.js:50-82 | called without options it is `Init` with "home" as the default page: no pages, nothing happens; a page without an id, the error before any handler is registered; otherwise the page the hash names if it exists, or else "home", whose hash is written by a replace and then reads back as "home" |
| Navigation.NavigationController.OnNavClick | Scripts/navigation.js:60-67 | an empty or unknown target is ignored; otherwise that page is shown and its hash written by a replace |
| Navigation.NavigationController.OnHashChange | Scripts/navigation.js:69-73 | a hash naming an existing page shows it without touching the history; any other hash is ignored |

## Left out

- `fetch` and `response.json()` are not modelled. Their outcome is the `Fetched` value `Load` receives: a rejection's message, the status, or the parsed JSON or the parser's error message.
- JSON numbers are integers. `Number` of a string accepts an optionally signed run of decimal digits, with blank meaning 0. Fractions, exponents, hexadecimal, binary and octal literals ("0x1f", "0b101", "0o7"), `Infinity` and very large numbers are not modelled.
- `toLowerCase` is modelled on ASCII letters only. For the comparison with "former" this is exact, because no other character lower-cases to one of its letters.
- `localeCompare` is modelled as code-point order. Locale collation is not modelled.
- Text.Compare: strings are sequences of Unicode scalar values, so two strings with characters beyond U+FFFF may order differently from a comparison of UTF-16 code units.
- Text.Compare: `localeCompare` returns 0 for different but canonically equivalent strings ("é" and "e" followed by a combining acute accent). The model returns 0 only for equal strings, so `CompareLeadersStrict` does not carry over to such names: two leaders with equivalent names and equal points tie, and the stable sort then keeps the map's first-seen order.
- Records.JsonToNumber: the result `None` stands for NaN and also for a value on which `Number` throws. The throw itself is `ConversionThrows`, and `LoadRecords` turns it into the load error.
- Records.ElementToNumber: as for `JsonToNumber`, `None` also covers an element object with its own "toString", on which the conversion throws; `ConversionThrows` captures it.
- The TypeError's message, `ConversionError`, is the one V8 gives. Other engines word it differently.
- RecordsView.RecordsPage.OnHistoryMove: `history.go(0)` reloads the page. The reload is not modelled, and the model leaves the page as it is.
- The URL constructor is not modelled. The directory above the scripts is written root-relative as "/", so the site's origin is not modelled. Percent-encoding of the query and of the hash is not modelled, and neither is the removal of tabs and newlines by the hash setter.
- The markup of a certificate, the medal, the aria labels and the arrow's icon are not modelled (`createMedal`, `renderCertificate`, `innerHTML`). A grid is the list of records it shows, and a leaderboard row is its rank text and name.
- `window.scrollTo` is not modelled: it changes only the scroll position.
- `console.warn` for skipped records is not modelled.
- Listener registration is a flag on `NavigationController`. On `RecordsPage`, the handlers are methods that may run once the records are in.
- `getPages` and `getNavTargets` re-query the document on every call. The model keeps the page and trigger lists fixed, since nothing in the scripts adds or removes them.
- When one of the containers that `initRecords` looks up is missing, it returns before doing anything. The model assumes every container is present; missing counters are modelled, since `updateStats` checks them itself.
- An exception thrown after `loadRecords` settles (by the rendering, say) is not modelled. Only the load errors reach the `catch` branch.
- RecordsView.RecordsPage.Load: `records.sort` sorts in place; the model sorts a value, so the aliasing between the array that `loadRecords` returns and the sorted one is not captured.
- RecordsView.RecordsPage.ShowInitialView: a `person` parameter naming nobody leaves the visibility flags as the markup had them (constructor parameters). The model states this but cannot say what the markup was.
