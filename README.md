# UserList: a verified model of the user directory's derivation and state

The modelled system is a single React component, `UserList`. It fetches users
from a search endpoint and lets the operator filter them by name and by city.
It can highlight the oldest user of each city, and it paginates the result.
This project models its data flow:

- the **city filter** keeps the users of a truthy selected city, in order;
- the **oldest-per-city tagging** reduces the filtered list to one
  earliest-born user per city, then maps every row to a copy whose `isOldest`
  says whether its id is its city's winner;
- the **page slice** takes ten rows with JavaScript `slice` clamping;
- the **distinct-city extraction** deduplicates the response's cities in order
  of first appearance;
- the **request string** is built from the search text, `limit=1000`, the offset
  and an optional city;
- the **component state** is the nine state hooks and their handlers, including
  the start and end of a fetch;
- the **display selection** picks which rows are the table's data source and which total the
  pagination control shows.

Modules, one per part: `Users` (records), `CityFilter`, `Oldest`, `Pagination`,
`Cities`, `Request`, `Derivation` (the rendered rows and total) and
`UserListState` (the class `UserList`).

Modelling choices:

- A birth date is an integer day number. A smaller number is an earlier date.
- `address.city` is the field `User.city`.
- `isOldest` is an `Option<bool>`. `None` means the flag was never set.
- The selected city is an `Option<string>`. `None` stands for `null`, or for
  `undefined` when the selector is cleared. `Truthy` is JavaScript truthiness:
  present and non-empty.
- The reduce over `acc` is a loop that reassigns a `map` (`Oldest.OldestPerCity`).
  It is proved equal to the fold `Oldest.OldestByCity`, which the lemmas and
  the derivation use.
- `fetchUsers` is split into two steps. `BeginFetch` raises the loading flag and
  records what the closure captured: the debounced text, the offset and the
  city. `CompleteFetch` takes that record and the request's outcome. The
  city-list decision uses the city the closure captured, as the source does.

Behaviours of the code that the model keeps as written:

- The table's data source does not always hold at most ten rows. With no city
  selected it is the whole filtered list, up to the thousand users a request
  asks for (`Derivation.DisplayWithoutCity`). Only with a city selected is it
  at most ten rows (`Derivation.DisplayWithCity`).
- `skip = 10 * (currentPage - 1)` does not hold initially. The component starts
  with page 0 and offset 0. The search, page and city handlers establish the
  equation; the highlight toggle and the fetch steps leave both fields alone.
- On a failed fetch the loading flag stays up. The reset sits inside the `try`
  block, so only a later successful fetch lowers it.
- A row is flagged by id. So "exactly one flagged row per city" needs unique
  ids, which the lemmas assume.

## Model

| member | source | states |
|---|---|---|
| `CityFilter.KeepCity` | src/components/user-list/UserList.tsx:67-69 | the filter result is no longer than the input and each kept user lives in the selected city |
| `CityFilter.KeepCityExact` | src/components/user-list/UserList.tsx:66-69 | the kept list is a subsequence of the users (original order) and holds each user of that city as often as the input does, and no other user |
| `CityFilter.KeepCityMembers` | src/components/user-list/UserList.tsx:66-69 | a user is kept if and only if it is among the users and its city equals the selected one |
| `CityFilter.KeepCityAll` | src/components/user-list/UserList.tsx:67-69 | when every user lives in the city, the filter returns the list unchanged |
| `CityFilter.KeepCityUniqueIds` | src/components/user-list/UserList.tsx:67-69 | filtering a list with unique ids yields a list with unique ids |
| `CityFilter.FilterByCity` | src/components/user-list/UserList.tsx:64-70 | a null, undefined or empty city returns the users unchanged; a truthy city returns no more rows than the input, all of that city |
| `CityFilter.FilterByCitySpec` | src/components/user-list/UserList.tsx:64-70 | a null or empty city passes the list through unchanged; a truthy city yields exactly the in-order subsequence of its users |
| `Oldest.Step` | src/components/user-list/UserList.tsx:75-80 | one reduce step adds the user's city to the keys, leaves every other city's holder alone, and leaves the city held by the user or the previous holder, whichever was born earlier; when the holder was born no later than the user (a tie included) the accumulator is unchanged |
| `Oldest.OldestByCity` | src/components/user-list/UserList.tsx:72-84 | every city the fold holds is held by a user of that city, and the last user's city is always held |
| `Oldest.OldestPerCity` | src/components/user-list/UserList.tsx:72-84 | the loop that updates the accumulator map user by user ends with the left fold of the replace-if-strictly-earlier step |
| `Oldest.OldestKeys` | src/components/user-list/UserList.tsx:72-84 | the accumulator's keys are exactly the cities occurring in the list |
| `Oldest.OldestHolder` | src/components/user-list/UserList.tsx:74-80 | each city's holder is a row of that city with the minimum birth date, and every earlier row of the city was born strictly later (first minimum wins a tie) |
| `Oldest.NewFirstOldest` | src/components/user-list/UserList.tsx:76-79 | a user born strictly earlier than its city's holder becomes the first oldest row of the extended list |
| `Oldest.ExtendFirstOldest` | src/components/user-list/UserList.tsx:75-80 | the holder stays first oldest when the next user is of another city or not born strictly earlier |
| `Oldest.FirstOldestUnique` | src/components/user-list/UserList.tsx:77 | at most one row per city is the first of its city's earliest births |
| `Oldest.TagOldest` | src/components/user-list/UserList.tsx:85-88 | for any ids and any winner map, tagging keeps length, order and every field but `isOldest`, and sets `isOldest` on every row |
| `Oldest.TagOldestExact` | src/components/user-list/UserList.tsx:85-88 | with unique ids, tagging a list against its own reduce sets `isOldest` true exactly on each city's first oldest row and false on every other row, leaving the rest of each row as it was |
| `Oldest.OneFirstOldestPerCity` | src/components/user-list/UserList.tsx:72-88 | every city of the list has one and only one first oldest row |
| `Pagination.ClampIndex` | src/components/user-list/UserList.tsx:96 | a slice index resolves into 0..len: in-range indices are kept, larger ones cut to len, negative ones counted from the end and floored at 0 |
| `Pagination.JsSlice` | src/components/user-list/UserList.tsx:96 | the slice is the run of elements from the resolved start, as long as resolved end minus resolved start, or empty when the end does not come after the start |
| `Pagination.PageSlice` | src/components/user-list/UserList.tsx:93-97 | for every page number, including 0 and negative ones, the page holds at most ten rows |
| `Pagination.PageSliceWindow` | src/components/user-list/UserList.tsx:93-97 | for page 1 and later the slice is the filtered rows from (page-1)*10 up to page*10, both cut at the list's end |
| `Pagination.PageZeroEmpty` | src/components/user-list/UserList.tsx:93-97 | the initial page number 0 slices (-10, 0) and yields no rows |
| `Pagination.RowOnItsPage` | src/components/user-list/UserList.tsx:93-97 | every filtered row appears on page i/10+1 at position i mod 10 |
| `Cities.Distinct` | src/components/user-list/UserList.tsx:38-40 | the set-based dedup holds exactly the elements of its input, each once |
| `Cities.DistinctFirstAppearanceOrder` | src/components/user-list/UserList.tsx:38-40 | the deduplicated elements are ordered by their first appearance in the input |
| `Cities.CityNames` | src/components/user-list/UserList.tsx:39 | the mapped list has one city per user, in the users' order, so its elements are exactly the users' cities |
| `Cities.UniqueCities` | src/components/user-list/UserList.tsx:38-40 | the city list is duplicate-free and names every city of the response and nothing else |
| `Cities.UniqueCitiesSpec` | src/components/user-list/UserList.tsx:37-41 | the city list is duplicate-free, names every response city and nothing else, in order of first appearance |
| `Request.NatDigits` | src/components/user-list/UserList.tsx:32 | an offset renders as a non-empty string of decimal digits that starts with `0` only for the number 0 (no leading zeros) |
| `Request.Decimal` | src/components/user-list/UserList.tsx:32 | a rendered integer is non-empty and has no `&`; a negative one is a minus sign before the digits of its magnitude, and a positive one has no leading zero |
| `Request.NatDigitsRoundTrip` | src/components/user-list/UserList.tsx:32 | reading the rendered digits back gives the number |
| `Request.DecimalRoundTrip` | src/components/user-list/UserList.tsx:32 | the rendered offset, with a minus sign when negative, reads back as the offset |
| `Request.CitySegment` | src/components/user-list/UserList.tsx:30 | the city segment is empty if and only if the city is not truthy; otherwise it is `&city=` followed by the city |
| `Request.Query` | src/components/user-list/UserList.tsx:30-32 | the query's length is the fixed 19 characters plus the search text and the rendered offset, plus `&city=` and the city exactly when the city is truthy |
| `Request.Url` | src/components/user-list/UserList.tsx:31-32 | the request address is the search endpoint, a `?`, then the query |
| `Request.QueryFields` | src/components/user-list/UserList.tsx:30-32 | when the search text and city hold no `&`, the query splits into exactly `q=<search>`, `limit=1000` and `skip=<skip>`, followed by `city=<city>` if and only if the city is truthy |
| `Request.LastTwoFields` | src/components/user-list/UserList.tsx:30-32 | an `&`-free skip field followed by `&city=<city>` with an `&`-free city splits into just those two fields |
| `Request.SkipAndCityFields` | src/components/user-list/UserList.tsx:30-32 | when the city holds no `&`, the tail after the limit splits into the skip field, followed by a city field exactly when the city is truthy |
| `Request.QueryPrefix` | src/components/user-list/UserList.tsx:30-32 | for every search text and city, the query starts with the search text, the limit and the offset, and what follows is exactly the city segment, so it goes on past them if and only if the city is truthy |
| `Derivation.FilteredUsers` | src/components/user-list/UserList.tsx:64-91 | for any ids, the derived list has the city-filtered rows in order with every field but `isOldest` kept; with highlighting on every row carries a flag; with it off the list is the filtered list itself |
| `Derivation.ComputeFilteredUsers` | src/components/user-list/UserList.tsx:64-91 | running the filter, the accumulator loop and the tagging yields the specified derivation |
| `Derivation.HighlightFlagsFirstOldest` | src/components/user-list/UserList.tsx:71-90 | with highlighting on and unique ids, the derived rows are the filtered rows in order, each changed only in `isOldest`, which is true exactly for its city's first oldest row |
| `Derivation.ExactlyOneFlaggedPerCity` | src/components/user-list/UserList.tsx:71-88 | with highlighting on, each city of the derived rows has exactly one flagged row, whose birth date is the city's minimum and strictly below every earlier row of the city |
| `Derivation.HighlightOffAddsNoFlag` | src/components/user-list/UserList.tsx:64-90 | with highlighting off the derivation is the city filter alone, and rows that arrive unflagged stay unflagged |
| `Derivation.TableRows` | src/components/user-list/UserList.tsx:181 | with a truthy city the table's data source is at most ten rows, each taken from the filtered list; otherwise it is the filtered list itself |
| `Derivation.PaginationTotal` | src/components/user-list/UserList.tsx:191 | the total is the filtered list's length with a truthy city and the server's total otherwise |
| `Derivation.DisplayWithCity` | src/components/user-list/UserList.tsx:181-191 | with a truthy city the table's data source holds at most ten rows, all of that city, from page 1 on the page's window of the filtered list, and the total is the filtered list's length |
| `Derivation.DisplayWithoutCity` | src/components/user-list/UserList.tsx:181-191 | without a truthy city the table's data source is the whole filtered list (one row per fetched user) and the total is the server's total |
| `Derivation.ParisScenario` | src/components/user-list/UserList.tsx:71-88 | of two Paris users born 1990-01-01 and 1985-05-05, only the second is flagged |
| `UserListState.UserList.constructor` | src/components/user-list/UserList.tsx:16-24 | the initial state: no users, total 0, empty search, offset 0, page 0, not loading, no city, highlighting off, no cities |
| `UserListState.UserList.HandleSearch` | src/components/user-list/UserList.tsx:53-57 | a search change sets the text, offset 0 and page 1, and changes nothing else |
| `UserListState.UserList.HandleOnPageChange` | src/components/user-list/UserList.tsx:59-62 | a page change sets offset 10*(page-1) and the page, and changes nothing else |
| `UserListState.UserList.SelectCity` | src/components/user-list/UserList.tsx:151-155 | a city selection sets the city, offset 0 and page 1, and changes nothing else |
| `UserListState.UserList.SetHighlightOldest` | src/components/user-list/UserList.tsx:169-170 | the checkbox sets the highlight flag and nothing else |
| `UserListState.UserList.BeginFetch` | src/components/user-list/UserList.tsx:27-32 | a fetch raises the loading flag and records the debounced text, offset and city it builds its request from, changing nothing else |
| `UserListState.UserList.CompleteFetch` | src/components/user-list/UserList.tsx:34-46 | success replaces users and total and lowers the loading flag; the city list becomes the response's distinct cities (all of them, once each) only if the request had no city; failure changes nothing, so the loading flag stays up |
| `UserListState.UserList.FilteredUsers` | src/components/user-list/UserList.tsx:64-91 | the current filtered list has at most as many rows as the fetched users, all of the selected city when one is truthy, and one per user otherwise |
| `UserListState.UserList.TableRows` | src/components/user-list/UserList.tsx:181 | with a city selected the table's data source holds at most ten rows of that city; otherwise it holds every filtered user |
| `UserListState.UserList.PaginationTotal` | src/components/user-list/UserList.tsx:191 | with a truthy city the total counts the current filtered list, so it is at most the number of fetched users; otherwise it is the server's total |

## Left out

- Rendering is not modelled: the JSX, the antd widgets, the CSS classes and the
  date formatting are UI.
- The HTTP call is not modelled. Its result is the `FetchOutcome` given to
  `CompleteFetch`.
- The query string is not URL-encoded in the model. The search text and city
  are pasted in as written, as in the template literal.
- The 1000 ms debounce is not modelled. The debounced text is a parameter of
  `BeginFetch`.
- The effect wiring that re-runs `fetchUsers` is not modelled. Nor is the
  duplicate fetch caused by the `currentPage` dependency. Both are framework
  scheduling.
- Stale or out-of-order responses are not modelled: they are a concurrency
  concern. Any `FetchRequest` can be completed at any time, in any order.
- JavaScript `Date` parsing is replaced by integer day numbers. Invalid date
  strings, which compare as `NaN`, are not modelled.
- The accumulator is a map keyed by city. JavaScript object-key quirks, such as
  the key `__proto__`, are not modelled.
- Logging the error with `console.log` is not modelled: it is output only.
- `Derivation.HighlightFlagsFirstOldest`, `Derivation.ExactlyOneFlaggedPerCity`
  and `Oldest.TagOldestExact` assume unique ids for what they say about the
  flags. With repeated ids, every row sharing the winner's id in that city is
  flagged, as the source does. The shape of the rows (length, order, every
  field but `isOldest`) is stated for any ids by `Oldest.TagOldest` and
  `Derivation.FilteredUsers`.
- `Request.QueryFields` assumes no `&` in the search text or city. Otherwise
  the split finds more fields. `Request.QueryPrefix` holds without that
  assumption.
- `Request.SkipAndCityFields` assumes no `&` in the city, for the same reason.
  `Request.CitySegment` and `Request.Query` hold for every city.
- Partly malformed responses are not modelled. `FetchOutcome` has only full
  success or failure. If a response parses but lacks `users` or an `address`:
  - when the request had no truthy city, the city extraction throws after the
    users and the total are stored, so the city list and the loading flag stay
    as they were;
  - when the request had a truthy city, the city extraction is skipped and
    nothing in the fetch throws, so the loading flag is lowered; the failure
    comes later, when the city filter reads `users` and `address.city`.
- How the table widget pages its data source is not modelled. The table is
  given a pagination object whose pager is hidden, and the widget's own
  paging of the data source (ten rows by default) is part of its rendering.
  The model states only which list is the data source.
- JavaScript numbers are doubles. The model uses unbounded integers for ids,
  offsets, page numbers and totals, so rounding above 2^53 is not captured.
