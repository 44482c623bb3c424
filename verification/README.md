# URL shortener: registry and moderation model

A Dafny model of the request handlers of a URL-shortening service. The
service keeps a registry of short URLs. Each entry has a short id, a
target address, a visit history, an owner and a visibility (`public` or
`private`). It also keeps a set of user accounts. Users shorten
addresses, resolve short ids (each resolve records a visit), toggle
visibility, delete entries, read per-entry statistics and page through
their own entries. Administrators change the roles and statuses of
accounts, read activity logs, delete entries in batches and page through
filtered statistics of all entries.

Every handler is a pure function. It takes the store (`Models.State`: an
insertion-ordered sequence of entries and a map of accounts), the caller
(`Option<Account>`, `None` when nobody is signed in) and the request
values. It answers with an `ApiError(code, message)` or with a value and
the new store. An error carries no store, so a failing request never
changes anything. Values the database or a library would invent are
inputs:

- the new entry and account ids;
- the generated short id;
- the current time.

The object-id syntax check is a parameter `validId`.

Files:

- `api.dfy`: results and errors.
- `text.dfy`: character classes and ASCII lower-casing.
- `seqs.dfy`: first-match search, filtering, and uniqueness by a key.
- `paging.dfy`: page counts, pages, and JavaScript `slice`.
- `url_pattern.dfy`: the URL acceptance pattern, stated twice and proved equal.
- `models.dfy`: entries, visits, accounts, the store and its invariants.
- `url_controller.dfy`: the user-facing URL handlers.
- `admin_controller.dfy`: the moderation handlers.
- `user_controller.dfy`: registration.

The store invariant `Models.Valid` says:

- ids, short ids and targets are each unique;
- short ids are non-empty and every target passes the URL pattern;
- every account is filed under its own id and has its required fields;
- e-mail addresses are unique.

## Model

| member | source | states |
|---|---|---|
| UrlPattern.IsValidUrlCorrect | src/controllers/url.controller.ts:26 | The one-pass scanner accepts a string exactly when the pattern's groups match it: scheme, host characters, a dot and two or more letters, then path characters. |
| UrlPattern.AcceptedUrlShape | src/controllers/url.controller.ts:26 | A string is accepted exactly when it starts with `http://` or `https://` in any case, uses only `[A-Za-z0-9_./-]` after that, and has a dot followed by two letters that is not first and comes before any `/`. |
| UrlPattern.TailMatchesIff | src/controllers/url.controller.ts:26 | The part after the scheme matches the groups exactly when it has only path characters and such a dot. |
| Models.ParseVisibility | src/models/url.model.ts:49-52 | Only `public` and `private` are visibility values, and each parses back to its own name. |
| Models.IndexOfUniqueShortId | src/models/url.model.ts:20-24 | With unique short ids, looking up an entry's short id finds that very entry. |
| UrlController.ModifyGateImpliesViewGate | src/controllers/url.controller.ts:85-94 | Anyone who passes the toggle/delete gate also passes the resolve gate. |
| UrlController.SchemaAdminGateMismatch | src/controllers/url.controller.ts:85-140 | An account with the schema's `ADMIN` role opens anyone's private entry, because the resolve gate lower-cases the role. It still fails the toggle/delete gate on entries it does not own, because that gate compares exactly. |
| UrlController.CreateShortId | src/controllers/url.controller.ts:19-50 | The answer is 400 exactly when the pattern rejects the address. An existing entry for the address is returned with the store unchanged. Otherwise exactly one entry is appended with the given ids, that target, no visits, public visibility and the caller as owner, all fresh. Errors are only 400 or 500. |
| UrlController.CreateIsIdempotent | src/controllers/url.controller.ts:32-41 | Shortening the same address again, by anyone, returns the first call's entry and leaves the store as the first call left it. |
| UrlController.CreatePreservesValid | src/controllers/url.controller.ts:43-50 | Shortening keeps ids, short ids and targets unique and every target valid. |
| UrlController.RedirectUrl | src/controllers/url.controller.ts:75-117 | An empty short id gives 400. An unknown short id gives 404. A private entry gives 403 exactly when the caller is neither owner nor lower-cased `admin`. A public entry always resolves. It succeeds exactly when the short id is non-empty, some entry carries it, and that entry passes the resolve gate. On success exactly one visit `(now, caller id or none)` is appended to that entry only, the answer is its target, and the accounts are untouched. |
| UrlController.AnonymousCannotOpenPrivate | src/controllers/url.controller.ts:85-94 | Without a signed-in caller a private entry always answers 403. |
| UrlController.RedirectPreservesValid | src/controllers/url.controller.ts:96-107 | Recording a visit keeps the store invariants. |
| UrlController.ToggleVisibility | src/controllers/url.controller.ts:125-154 | Gives 400 for a malformed id and 404 exactly when no entry has the id. Gives 401 exactly when the caller is neither owner nor exactly `admin`. It succeeds exactly when the id is well formed, an entry has it, and the caller is its owner or exactly `admin`. On success only that entry's visibility changes, to the other value. |
| UrlController.ToggleTwiceRestores | src/controllers/url.controller.ts:142-154 | Toggling twice succeeds and restores the store. |
| UrlController.TogglePreservesValid | src/controllers/url.controller.ts:142-154 | Toggling keeps the store invariants. |
| UrlController.DeleteUrlById | src/controllers/url.controller.ts:181-198 | Has the same 400/404/401 conditions as the toggle, and succeeds under the same condition. On success the remaining entries are exactly the old ones without that id, in their old order, and the accounts are untouched. |
| UrlController.DeleteRemovesOne | src/controllers/url.controller.ts:198 | With unique ids a successful delete removes exactly the entry found at index `i` and keeps the invariants: the new store is the old one with position `i` cut out, the rest in order. |
| Models.RemoveAtUniqueId | src/controllers/url.controller.ts:198 | With unique ids, removing every entry with the id of position `i` leaves exactly the entries before and after `i`, in order. |
| UrlController.DistinctVisitorCount | src/controllers/url.controller.ts:235-239 | The one-pass count equals the number of distinct signed-in visitors and is at most the number of visits. |
| UrlController.GetUrlById | src/controllers/url.controller.ts:212-271 | Applies no owner or visibility check. Gives 400 for a malformed id and 404 exactly when the id is missing, so it succeeds exactly when the id is well formed and some entry has it. On success it returns the entry's fields, clicks equal to the number of visits, and unique visitors at most the clicks. The owner details are exactly the owner account's name and e-mail when that account exists, and empty otherwise. |
| UrlController.RedirectCountsInStats | src/controllers/url.controller.ts:96-107 | A resolve adds exactly one click to the statistics. It adds one unique visitor exactly when the caller is signed in and had not visited before. |
| UrlController.ListOwnUrls | src/controllers/url.controller.ts:290-339 | Page and limit are clamped to at least 1. The answer is 500 exactly when the page lies past the last page. Otherwise the rows are the whole page: `min(limit, owned - (page-1)*limit)` of them, row `k` being owned entry `(page-1)*limit+k` with its click total. `totalPages` is the ceiling of owned entries over limit. |
| UrlController.GetAllUrlsOfUser | src/controllers/url.controller.ts:283-351 | Has the same 500 condition. On success it answers the owned-entry count where the rows belong, plus the same pagination. |
| UrlController.OwnListingIgnoresEntries | src/controllers/url.controller.ts:346 | The answer as written is the same for any two stores in which the caller owns equally many entries. |
| UrlController.OwnListingDropsRows | src/controllers/url.controller.ts:346 | Two one-entry stores list different rows yet give equal answers as written. |
| UrlController.OwnPagesPartition | src/controllers/url.controller.ts:292-320 | The caller's pages, read in order, give each owned entry once, and two different pages share no entry. |
| UrlController.ListOwnUrlsIsPage | src/controllers/url.controller.ts:318-319 | Every page up to the page count succeeds, and its rows are exactly that page of the caller's entries. |
| UrlController.ListOwnUrlsPagesDisjoint | src/controllers/url.controller.ts:292-320 | Two different pages answered by the corrected listing share no row. |
| Paging.PageCount | src/controllers/url.controller.ts:336 | The page count is the least `n` with `total <= n * limit`, that is `ceil(total / limit)`. |
| Paging.PageNonEmptyIff | src/controllers/url.controller.ts:318-324 | A page is non-empty exactly when its number is at most the page count. |
| Paging.JsSliceProperties | src/controllers/admin.controller.ts:68-71 | `slice` with ordered non-negative bounds is the plain subsequence clipped to the end, and with reversed ones is empty. A negative bound counts back from the end, and one below `-length` acts as 0. The result is never longer than `end - start`. |
| AdminController.UpdateUserRole | src/controllers/admin.controller.ts:16-44 | Checks in this order: a role outside `{user, admin}` gives 400 first, then a malformed id 400, then a missing account 404, then the same role 400. Errors are 400 or 404 only. It succeeds exactly when the role is `user` or `admin`, the id is well formed, the account exists and its role differs. On success the role is set, one log line is appended to the target, nothing else in the account changes, and the new role is outside the schema's `{USER, ADMIN}`. |
| AdminController.UpdateRoleTwiceIsNoOp | src/controllers/admin.controller.ts:30-32 | Repeating a successful role change gives the same-role 400. |
| AdminController.UpdateRolePreservesValid | src/controllers/admin.controller.ts:35-44 | A role change keeps the store invariants. |
| AdminController.ToggleUserStatus | src/controllers/admin.controller.ts:94-125 | Accepts only `normal`, `block` and `suspended`, checked before the id and lookup. Setting the current status gives 400. It succeeds exactly when the status is one of the three, the id is well formed, the account exists and its status differs. On success the status is set and exactly one log line is appended, nothing else changing. |
| AdminController.ToggleStatusTwiceIsNoOp | src/controllers/admin.controller.ts:111-113 | Repeating a successful status change gives the same-status 400. |
| AdminController.ToggleStatusPreservesValid | src/controllers/admin.controller.ts:115-125 | A status change keeps the store invariants. |
| AdminController.ViewUserActivityLogs | src/controllers/admin.controller.ts:57-71 | Gives 400 for a malformed id and 404 for a missing account, and succeeds otherwise. The result is a contiguous run of the target's log starting at the resolved skip. It has at most `limit` lines for a non-negative limit, and is exactly page `page` when page and limit are at least 1. |
| AdminController.NegativeLimitQuirk | src/controllers/admin.controller.ts:67-71 | Without clamping, the handler with a negative limit answers, on page 1, the target's log minus its last `-limit` lines, and on any other page nothing. |
| AdminController.NonPositivePageQuirk | src/controllers/admin.controller.ts:67-71 | Without clamping, the handler answers nothing for page 0, and for a negative page the window `[len + (page-1)*limit, len + page*limit)` counted back from the end of the log. |
| AdminController.UrlBatchDelete | src/controllers/admin.controller.ts:138-153 | A missing or empty list gives 400, and any malformed id gives 400. The answer is 404 exactly when all ids are well formed and no entry has a listed id. It succeeds exactly when the list is present, non-empty and well formed and some entry has a listed id. On success the survivors are exactly the entries with unlisted ids, in their old order, and the count is the number removed and positive. |
| AdminController.BatchDeleteCount | src/controllers/admin.controller.ts:149-153 | The count is the number of listed entries. With unique ids it is at most the number of distinct listed ids. The invariants are kept. |
| AdminController.ListedCountBound | src/controllers/admin.controller.ts:149 | With unique entry ids, the entries matched by a list of ids are at most as many as the distinct ids. |
| AdminController.RowsOfPage | src/controllers/admin.controller.ts:200-230 | Page `p` holds `min(l, matches - (p-1)*l)` rows (none past the last page). Row `k` describes matching entry `(p-1)*l+k`, with clicks equal to its number of visits. |
| AdminController.GetAllUrls | src/controllers/admin.controller.ts:179-247 | A non-empty malformed `userId` gives 400, and a visibility other than empty, `public` or `private` gives 400. Otherwise the answer is 404 exactly past the last page, so it succeeds exactly when the query is well formed and the clamped page is at most the page count of the clamped limit, whatever the raw page and limit were. On success it returns the whole page: `min(limit, matches - (page-1)*limit)` rows, each describing its matching entry in order. It also returns the clamped current page, `totalRecords` as the full match count, and `totalPages` as its ceiling over limit. |
| AdminController.AdminPagesPartition | src/controllers/admin.controller.ts:186-228 | The match keeps exactly the entries matching both filters, each once. All pages in order give one row per match, and two pages share no row. |
| AdminController.GetAllUrlsIsPage | src/controllers/admin.controller.ts:226-230 | Every page up to the page count succeeds, and its rows are exactly that page of the matching entries' rows. |
| AdminController.GetAllUrlsPagesDisjoint | src/controllers/admin.controller.ts:226-230 | Two different pages answered by the handler share no row. |
| Seqs.FilterAppend | src/controllers/admin.controller.ts:200-203 | The match stage keeps store order: filtering distributes over concatenation. |
| UserController.RegisterUser | src/controllers/user.controller.ts:15-29 | Gives 400 exactly when a field is empty. With all fields present it gives 400 exactly when the e-mail is taken. On success it adds exactly one account with the given fields, role `USER`, no status and an empty log. |
| UserController.RegisterPreservesValid | src/controllers/user.controller.ts:19-29 | Registration keeps e-mail addresses unique, and so the invariants. |
| UserController.RegisterTwiceFails | src/controllers/user.controller.ts:19-23 | Once an address is registered, registering it again fails with 400, whatever the other fields. |

## Left out

- Database and transport. The Mongo store, aggregation pipelines, Express routing and response building are out. The JSON envelope, `tinyUrl` string building and the status sent on the wire are out too. The store is a sequence and a map, and each handler answers with the code its `ApiError` carries.
- Authentication, session tokens, rate limiting and password hashing. The caller is an input. The save hook computes a hash and discards it, so the model stores the password as given.
- The caller's own activity-log lines (`req.user?.addActivityLog`). They are never saved by the handlers. Only the target account's log, written by the role and status handlers, is modelled.
- Query parsing. `page` and `limit` are integers; `NaN` and fractional values are not modelled.
- Object-id syntax and the conversion from string to object id. They are the parameter `validId`, and ids compare as strings.
- `createdAt` and `updatedAt` timestamps.
- Concurrency. The check-then-insert races in shortening and registration are not modelled.
- AdminController.GetAllUrls: the per-row `uniqueVisitors` field (a set of visitor arrays) is not modelled. The `$group` stage does not fix the order of its output, so the model lists rows in store order.
- UrlController.DistinctVisitorCount: visits without a visitor contribute no value to the distinct count.
- UrlController.CreateShortId: the generator's short id is an input. A short id already in use, or an empty one, is rejected as a duplicate key (500) instead of being retried, as the code has no retry.
- UrlController.CreateShortId: the database-assigned entry id `newId` is an input. If it is already in use the model answers 500 (duplicate key); the real database never hands out a used id, so this path stands for a store failure the code does not handle.
- UrlController.CreateShortId: an anonymous caller with no existing entry gives 500, because the owner is a required field.
- UserController.RegisterUser: the database-assigned account id `newId` is an input. If it is already in use the model answers 500 (duplicate key); the real database never hands out a used id, so the code has no such branch.
- Schema mismatch. The account schema lists roles `USER`/`ADMIN` and has no status or activity-log fields. The moderation handlers write `user`/`admin`, a status and a log. The model follows the handlers; `UpdateUserRole` proves the written role lies outside the schema's roles.
- Text.Lower lower-cases ASCII letters only. This is exact for the comparison with `admin`, which is the only use.

## Findings

| source | as written | input that shows it | evidently intended | confidence | as-written member | corrected member |
|---|---|---|---|---|---|---|
| src/controllers/url.controller.ts:346 | The user listing fetches the requested page of the caller's entries but answers `urls: totalUrls`, the count, so the rows never reach the client. | A caller owning one entry in each of two stores, the entries different, page 1, limit 10: both answers are `urls: 1` with equal pagination. | Answer the fetched rows (`urls: allUrls`) together with the pagination. | not executed; read from the code | UrlController.GetAllUrlsOfUser (with UrlController.OwnListingIgnoresEntries and UrlController.OwnListingDropsRows) | UrlController.ListOwnUrls |
