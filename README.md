# Login throttle and user listing, in Dafny

This project models two parts of a small Express back end.

1. **The login brute-force throttle** (`login` in the authentication controller,
   `throttle.dfy`, module `Throttle`). A table maps each email to the number of
   failed logins and the time of the latest one. An email with five failures is
   refused for 30 minutes after its latest failure. The credentials are not
   checked during that time. Once the 30 minutes are up, the next login zeroes
   the count and is checked as usual. A failure creates the row, or adds one to
   its count and stamps the time. The failure that brings the count to five is
   already reported as FORBIDDEN. A success deletes the row.
   The table is the class `LoginThrottle`. Its method `Login` updates the table
   in place, as the handler does. The pure function `Step` specifies one login.
   `Replay` runs a sequence of logins, one atomic step each, and the lemmas
   state what holds across several logins.
2. **The user-list query** (`getUsers` in the users service, `users.dfy`,
   module `Users`). It takes the users the repository returned and applies three
   steps. A `field:value` search keeps the users whose name or email contains the
   value. A `field:order` sort validates the order and sorts by name or email.
   Then a page is cut out by an index loop (method `Paginate`). The result record
   carries `count`, the echoed `page_number` and `page_size`, `total_pages` and
   the page's users without their passwords.

Time is an integer number of milliseconds passed in as `now`. The credential
check is an input `verdict`: `Match`, `NoMatch`, or `Fault` when the check throws.
The collation of `localeCompare` is a parameter `le`, where `le(a, b)` means
`a.localeCompare(b) <= 0`. The ordering lemmas assume `le` is a total preorder.

The source never declares `loginAttempts` in the controller file; its first use
is at `authentication-controller.js:17`. Unless some other module defines a
global of that name, that read throws a ReferenceError on every call, and every
login fails. The model assumes such a global exists: one table that outlives
each request and starts empty (the `LoginThrottle` constructor).

Some inputs in `getUsers` only fail through JavaScript's own rules. The model
follows the code on each of them:
- A search without `:` leaves `searchValue` undefined. `includes(undefined)`
  then searches for the text `"undefined"`.
- A sort without `:` calls `toLowerCase` on `undefined`, which throws.
- A `page_number` below 1 with a positive `page_size` makes the loop read a
  negative index. That reads `undefined`, and `user.id` then throws.
- The comparator throws for an unsupported sort field only when it is called.
  The runtime calls it only for lists of two or more users, so shorter lists
  come back unchanged.

An expired lockout zeroes its row (line 30) while a success deletes it (line
60). In the model the zeroed row can only be seen when the
credential check throws (`Throttle.Step`, `Throttle.ReplayKeepsCapped`). While
the check answers, every row holds 1 to 5 failures between logins
(`Throttle.ReplayKeepsBounded`).

## Model

| member | source | states |
|---|---|---|
| `Throttle.MinutesSince` | src/api/components/authentication/authentication-controller.js:18-20 | the floored minute difference m satisfies m·60000 <= now - last < (m+1)·60000, and m < 30 exactly when fewer than 1 800 000 ms have passed |
| `Throttle.Step` | src/api/components/authentication/authentication-controller.js:17-62 | a locked-out email (count >= 5, under 30 minutes) gets FORBIDDEN, is not checked, and the table is unchanged; otherwise the credentials are checked. A success deletes the row. A first failure creates {1, now}. A failure below 5 adds one and sets the time to now. A failure after an expired lockout restarts at {1, now}. A failure is FORBIDDEN exactly when the new count is >= 5. A throwing check leaves an expired row zeroed with its old time. No other email's row changes. Non-negative counts stay non-negative, counts stay within 0..5, and within 1..5 when the check does not throw |
| `Throttle.LoginThrottle.Login` | src/api/components/authentication/authentication-controller.js:11-66 | the in-place updates of the table (zeroing, creating, incrementing and stamping, deleting) give the outcome, the new table and the checked flag that `Step` specifies, and keep the counts within 0..5 |
| `Throttle.ReplayKeepsCapped` | src/api/components/authentication/authentication-controller.js:17-60 | over any run of logins, no count goes below 0 or above 5 |
| `Throttle.ReplayKeepsBounded` | src/api/components/authentication/authentication-controller.js:28-60 | over a run of logins where the check never throws, every row counts 1 to 5 failures, so a zeroed row never outlives its login |
| `Throttle.OthersDoNotInterfere` | src/api/components/authentication/authentication-controller.js:17-60 | logins for other emails never create, delete or change this email's row |
| `Throttle.LockoutHolds` | src/api/components/authentication/authentication-controller.js:17-27 | while a row has count >= 5, every login for that email within 30 minutes of its last failure is FORBIDDEN and unchecked, whatever the password, and the row stays the same |
| `Throttle.FailureUnderThreshold` | src/api/components/authentication/authentication-controller.js:39-57 | a failure below the threshold sets the row to {count + 1, now} and is FORBIDDEN exactly when count + 1 >= 5 |
| `Throttle.ConsecutiveFailures` | src/api/components/authentication/authentication-controller.js:39-57 | k failures that never go past 5 in total are all checked; they leave the row at {count + k, time of the last}; the i-th is FORBIDDEN exactly when count + i >= 5 |
| `Throttle.FifthFailureLocks` | src/api/components/authentication/authentication-controller.js:17-57 | from no row, failures 1-4 give INVALID_CREDENTIALS and the 5th gives FORBIDDEN; after that, a login is checked exactly when at least 30 minutes have passed since the 5th failure |
| `Throttle.SuccessRestartsCount` | src/api/components/authentication/authentication-controller.js:41-60 | a success at any count below the lockout deletes the row, and the next failure starts again at {1, now} |
| `Users.ColonIndex` | src/api/components/users/users-service.js:13-15 | the index of the first ':' (or the length): everything before it is not ':' |
| `Users.SplitFieldValue` | src/api/components/users/users-service.js:13-15 | splitting `field:value` (optionally followed by more ':' pieces) on ':' gives back the field and the value |
| `Users.NoColonNoValue` | src/api/components/users/users-service.js:13-15 | a parameter without ':' is all field and has no value |
| `Users.FilterUsers` | src/api/components/users/users-service.js:17-25 | the kept users are exactly the matching ones, each as often as in the input, in their original order (a subsequence) |
| `Users.SearchByField` | src/api/components/users/users-service.js:12-25 | the search `field:value` filters by that field and that value |
| `Users.OtherFieldKeepsAll` | src/api/components/users/users-service.js:22-24 | a search field other than name or email keeps every user, in order |
| `Users.LowerAscii` | src/api/components/users/users-service.js:30 | lower-casing keeps the length and maps each ASCII capital to its small letter, leaving every other character alone |
| `Users.ParseSort` | src/api/components/users/users-service.js:27-34 | an empty sort parameter, and only that one, means no sort; what every other parameter gives is stated by its shape in the four lemmas below |
| `Users.SortShapes` | src/api/components/users/users-service.js:28-30 | every parameter containing ':' is `field:order`, then either nothing or more ':' pieces, with no ':' in the field or the order |
| `Users.SortWithoutOrder` | src/api/components/users/users-service.js:27-30 | a non-empty parameter without ':' has no order and is rejected with UndefinedSortOrder |
| `Users.SortOrderRejected` | src/api/components/users/users-service.js:28-34 | `field:order…` whose order is neither "asc" nor "desc" in any case is rejected with InvalidSortOrder, carrying the lower-cased order |
| `Users.SortOrderAnyCase` | src/api/components/users/users-service.js:28-34 | `field:order…` whose order is "asc" or "desc" in any mix of cases is accepted: it sorts by that field, descending exactly when the lower-cased order is "desc" |
| `Users.Insert` | src/api/components/users/users-service.js:35 | inserting a user adds exactly that user to the multiset of users |
| `Users.SortBy` | src/api/components/users/users-service.js:35 | the sort returns a permutation of its input |
| `Users.SortBySorted` | src/api/components/users/users-service.js:35-51 | with a consistent collation, the sorted list is ordered by the comparator |
| `Users.SortByStable` | src/api/components/users/users-service.js:35 | users whose keys compare equal keep their relative order |
| `Users.ApplySort` | src/api/components/users/users-service.js:35-51 | sorting by name or email returns a permutation of the list. Any other field is an UnsupportedSortField error exactly when the list has at least two users; otherwise the list comes back unchanged |
| `Users.ApplySortOrders` | src/api/components/users/users-service.js:35-51 | sorting by name or email gives the users ascending or descending by that field, stably |
| `Users.ApplySortParam` | src/api/components/users/users-service.js:27-52 | without a sort parameter the list is unchanged; a parse error is returned as is; a sorted result is a permutation of the list |
| `Users.SortParamOrders` | src/api/components/users/users-service.js:27-51 | a parameter `name:order` or `email:order` with a valid order, in any case, sorts the users by that field in that direction, stably |
| `Users.Project` | src/api/components/users/users-service.js:60-64 | each listed user carries only the id, name and email of the user at the same position |
| `Users.PageOf` | src/api/components/users/users-service.js:53-65 | the page fails exactly when page_size > 0 and page_number < 1. Otherwise it holds at most page_size users (none when page_size <= 0). With a positive page_size it is empty exactly when (page_number - 1)·page_size >= count. Its k-th entry is the projection of the user at (page_number - 1)·page_size + k |
| `Users.Paginate` | src/api/components/users/users-service.js:54-65 | the index loop collects exactly the page `PageOf` describes, or fails on the first negative index |
| `Users.TotalPages` | src/api/components/users/users-service.js:71 | for a positive page_size, the least n with n·page_size >= count; for a negative one, the ceiling of the negative quotient; for zero, NaN when count is 0 and Infinity otherwise |
| `Users.PagesCover` | src/api/components/users/users-service.js:54-65 | pages 1 to n together show exactly the first n·page_size users, in order |
| `Users.AllPagesCoverList` | src/api/components/users/users-service.js:54-71 | with a positive page_size, pages 1 to total_pages show every user once, in order, and the next page is empty |
| `Users.Query` | src/api/components/users/users-service.js:8-74 | the query fails exactly when the sort fails or the page starts before the list. Otherwise count is the number of searched users, whatever the page. page_number and page_size are echoed. total_pages is the ceiling of count / page_size. The results are the page of a permutation of the searched users |
| `Users.GetUsers` | src/api/components/users/users-service.js:8-74 | the search, sort, pagination loop and result record compute what `Query` specifies |

## Left out

- The credential check (`authenticationServices.checkLoginCredentials`, authentication-controller.js:34) is not part of this model. It is the input `verdict`. The value it returns on success (sent back as the response body) is not modelled.
- Express plumbing: reading `request.body`, `response.status(200).json`, `next(error)` and the error objects from `errorResponder`. Outcomes are the `Outcome` datatype, and error messages are not modelled.
- Wall-clock reads (`new Date()`) are the parameter `now` in milliseconds. The handler reads the clock twice: `currentTime` before the credential check is awaited (authentication-controller.js:18), and the new `lastAttempt` after it (lines 42 and 45). The model uses one `now` for both, so the time spent in the credential check is not modelled. The floating-point division before `Math.floor` is taken as exact. That holds for any realistic timestamp difference.
- Interleaving of concurrent logins across the `await` on the credential check: each login is one atomic step.
- JavaScript object-key quirks of the `loginAttempts` table are not modelled. An email such as `"__proto__"` or `"constructor"` would read inherited members instead of a row.
- `Throttle.LoginThrottle.Login`: requires the table to hold counts within 0..5 (`Valid`). That is true from the empty table onward, but the method says nothing about a table filled some other way.
- The users repository (`usersRepository.getUsers`, users-service.js:9) is not part of this model. Its result is the parameter `users`. User fields are taken to be strings; a missing name or email would make `includes` or the sort throw.
- The other functions of users-service.js (`getUser`, `createUser`, `updateUser`, `deleteUser`, `emailIsRegistered`, `checkPassword`, `changePassword`) are not modelled. They are thin wrappers over the repository and password hashing, which are not part of this model.
- `Users.SortBy`: the in-place `filteredUsers.sort(...)` is modelled as a function returning the sorted sequence. The in-place update is not captured. Nor is the aliasing: without a search, `filteredUsers` is the repository's own array, which gets sorted too. The runtime's sorting algorithm is replaced by a stable insertion sort. Like the runtime's sort, it gives an ordered, stable permutation.
- `localeCompare` collation is the parameter `le`. Ordering and stability are proved only for `le` a total preorder.
- `Users.LowerAscii`: `toLowerCase` is modelled on ASCII letters only. The asc/desc decision is the same. Only the order text inside an `InvalidSortOrder` error can differ for non-ASCII input.
- The model assumes `page_number` and `page_size` are integers. `getUsers` converts neither, and the route that calls it is not part of this model. If they arrive as strings, `startIndex + page_size` at users-service.js:55 concatenates: page "2" of size "10" gives `endIndex` "1010", so page 2 runs to the end of the list. The model does not capture that. `Math.ceil` is integer ceiling division. The JSON encoding of `Infinity` and `NaN` (as `null`) is not modelled.
- An absent `search` or `sort` (`undefined`, `null` or the empty string, all falsy) is the empty string.
