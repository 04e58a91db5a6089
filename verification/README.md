# Scholarship portal — a Dafny model

This project models the decision logic of a university scholarship portal.
The portal is an Express/SQL back end with a React front end. The model is
written as pure functions over immutable state: each database table is a
sequence of records, and each request handler maps (store, request) to
(store, answer).

Modules, one per part of the portal:

- `Common` holds the failure kinds a handler answers with, their HTTP codes, and `Option`/`Result`.
- `Text` holds ASCII lower-casing, substring search (`includes`, SQL `LIKE '%t%'`), `trim`, `split`/`join`, and decimal integers.
- `Seqs` holds order-preserving filters, counting and summing folds, `LIMIT/OFFSET` windows, and subsequences.
- `Sorting` holds a stable insertion sort, proved to return a sorted permutation. It is the model of `ORDER BY`.
- `JsonList` models `JSON.stringify` of a string list and a decoder for stored list columns, with the round trip proved.
- `Schema` covers the three tables and their CHECK, UNIQUE and foreign-key constraints. It also holds the decoding of list columns, cascading deletes and the default-administrator bootstrap.
- `Auth` models bearer-token extraction, `authenticateToken` and `requireAdmin`. JWT verification is an oracle passed in as a function.
- `RateLimit` models the per-key sliding-window limiter `sensitiveRateLimit`.
- `ScholarshipRoutes` covers the public listing, the single-scholarship lookup and the apply workflow.
- `AdminRoutes` covers the admin gate and the create, update, delete and review operations.
- `AdminQueries` covers the dashboard, the admin scholarship listing and the admin application listing.
- `ClientFilter` covers the home page's scholarship filter, its result count and the featured/regular split.
- `FilterPanel` covers the filter panel's handlers, "Clear all filters" and the active-filter test.
- `Faq` covers the FAQ search and the accordion toggle.

How time is represented:

- A deadline is an integer day number.
- The clock `now` is an integer count of milliseconds.
- `CURDATE()` is `now / MsPerDay`.
- A deadline date read by `new Date(..)` is the instant of its midnight, `deadline * MsPerDay`.

Applying refuses exactly when that midnight is strictly before `now`. The
listing keeps rows with `deadline >= CURDATE()`. So on the deadline day
itself, after midnight, a scholarship is still listed, but an application
to it is refused (`ScholarshipRoutes.DeadlineDayListedButRefused`).

The client filter's `Math.ceil` over milliseconds is computed exactly, not
taken as an input. `DaysLeft(deadline, now) = deadline - now / MsPerDay`,
and `ClientFilter.DaysLeftIsCeiling` proves it is the ceiling of the
remaining time in days.

Oracles, passed in as parameters:

- JWT verification: `verify: string -> Option<nat>`.
- The e-mail validator: `isEmail`.
- The bcrypt hash of the default password.

Points where the model follows what the code does rather than what a
reader might expect:

- A token that fails verification is answered with 403, not 401.
- `isNumeric({ min: 0 })` ignores `min`, so negative amounts pass creation and update.
- A review overwrites the status whatever it was. There is no transition order.
- The admin list endpoints validate neither `page` nor `limit`. In the model a text that is not a plain integer, a negative limit or a negative offset makes the query fail, which the route answers with 500. It is not a validation error.
- `SUM` over an empty scholarship table is `NULL`. The dashboard's funding is therefore `None` exactly when the table is empty.
- The `scholarship_id` filter of the admin application listing compares the stored id with the integer the text spells.
- The schema in `server/config/database.js` declares foreign keys. Deleting a scholarship or a user removes its applications (`ON DELETE CASCADE`). `created_by` and `reviewed_by` reference users without a cascade, so a user who authored a scholarship or reviewed someone else's application cannot be deleted. These constraints are modelled as declared. `database.js` never runs `PRAGMA foreign_keys = ON`. It exports no `pool`, although both route files import one (`server/routes/scholarship.js:3`, `server/routes/admin.js:3`). So the declared intent is what is modelled.

## Model

| member | source | states |
|---|---|---|
| `Text.LowerIdempotent` | src/pages/HomePage.tsx:36-42 | lower-casing the term once is enough: lower-casing again changes nothing |
| `Text.ContainsIffOccurs` | src/components/ScholarshipList.tsx:16-20 | `includes` holds exactly when the term occurs at some position of the text |
| `Text.Contains` | src/components/ScholarshipList.tsx:16-20 | every text contains the empty term, and a text contains only terms no longer than itself |
| `Text.Trim` | server/routes/admin.js:128-129 | the trimmed text is a contiguous piece of the input; everything cut before and after it is whitespace, and it neither starts nor ends with whitespace |
| `Text.Split` | server/middleware/auth.js:6 | a split gives at least one piece and no piece holds the separator |
| `Text.ParseInt` | server/routes/scholarship.js:14-15 | a text reads as an integer exactly when it is an optional sign followed by one or more decimal digits |
| `Text.TrimIdempotent` | server/routes/admin.js:128-129 | the `trim()` sanitizer applied twice is applied once |
| `Text.TrimEmptyIffBlank` | server/routes/admin.js:344 | a text trims to empty exactly when every character is whitespace |
| `Text.SplitJoin` | server/middleware/auth.js:6 | splitting on a space and joining again restores the header, and no piece holds a space |
| `Text.JoinSplit` | server/middleware/auth.js:6 | joining space-free pieces and splitting again gives the pieces back |
| `Text.ParseShowInt` | server/routes/scholarship.js:14-15 | an integer written in decimal is read back by the integer validator as itself |
| `Seqs.FilterIsSubsequence` | src/components/ScholarshipList.tsx:11 | `filter` keeps elements in their original order: its result is a subsequence of the input |
| `Seqs.FilterSplit` | src/components/ScholarshipList.tsx:60-61 | filtering by a predicate and by its negation splits the input into two parts that together are a permutation of it |
| `Seqs.FilterIdempotent` | src/components/ScholarshipList.tsx:10-57 | filtering an already filtered list by the same predicate changes nothing |
| `Seqs.WindowSubMultiset` | server/routes/admin.js:49-50 | a `LIMIT`/`OFFSET` window repeats no row more often than the rows hold it |
| `Seqs.LeftOutComesAfter` | server/routes/admin.js:49-50 | `ORDER BY .. LIMIT n` keeps a prefix: an ordered row left out is ordered after every row kept |
| `Seqs.Collect` | server/routes/admin.js:46-48 | an inner join keeps no more lines than rows; every kept line comes from some row, and every row that joins has its line kept |
| `Seqs.CollectIsFilterThenJoin` | server/routes/admin.js:46-48 | an inner join is the joining rows, in table order and with repetitions, each replaced by its line: the k-th line is the join of the k-th joining row |
| `Sorting.Sort` | server/routes/scholarship.js:61 | the ordered result is sorted by the key and is a permutation of the selected rows |
| `Sorting.SortKeepsRows` | server/routes/admin.js:97 | ordering keeps the number of rows and exactly the same rows |
| `Sorting.TopRows` | server/routes/admin.js:49-50 | `ORDER BY .. LIMIT n` gives n rows or all when fewer, in order, each an input row and none taken more often than the input holds it, and every input row when they fit |
| `JsonList.DecodeEncode` | server/routes/admin.js:166 | a list stored with `JSON.stringify` is read back by `JSON.parse` as the same list |
| `JsonList.EncodeWellFormed` | server/routes/admin.js:166-168 | every list the write path stores is a column that parses |
| `JsonList.EncodeInjective` | server/routes/admin.js:166-168 | distinct lists are stored as distinct texts |
| `JsonList.Encode` | server/routes/admin.js:166 | a stored list is a bracketed text |
| `JsonList.Decode` | server/routes/scholarship.js:99-100 | only a bracketed text decodes, and `[]` decodes to the empty list |
| `Schema.ParseRoleIff` | server/config/database.js:38 | a role text passes the CHECK exactly when it names one of the two roles, and it names that one |
| `Schema.ParseCategoryIff` | server/config/database.js:53 | a category text passes exactly when it is one of the ten names, and it names that category |
| `Schema.ParseScholarshipStatusIff` | server/config/database.js:63 | a status text passes exactly when it is active, inactive or expired |
| `Schema.ParseApplicationStatusIff` | server/config/database.js:76 | an application status passes exactly when it is one of the four names |
| `Schema.EmptyValid` | server/config/database.js:32-87 | the empty store satisfies every declared constraint: unique ids and e-mails, one application per pair, every scholarship, applicant, author and reviewer reference present, list columns well formed |
| `Schema.InsertScholarshipValid` | server/config/database.js:46-69 | inserting a well-formed scholarship under the next id, whose author exists, keeps every constraint |
| `Schema.RewriteScholarshipsValid` | server/config/database.js:46-69 | rewriting scholarship rows in place, with ids and authors kept and columns well formed, keeps every constraint |
| `Schema.RewriteApplicationsValid` | server/config/database.js:71-87 | rewriting application rows in place, with id, scholarship and applicant kept and any reviewer an existing user, keeps one application per pair and every other constraint |
| `Schema.ToView` | server/routes/scholarship.js:96-101 | a row decodes exactly when its list columns parse; the decoded lists are what the columns hold; id, texts, amount, deadline, category, link, e-mail, recipients, renewable, featured and status are passed through; a NULL or empty field of study reads as null |
| `Schema.ToViews` | server/routes/admin.js:106-111 | a page decodes exactly when each of its rows does, row by row |
| `Schema.DeleteScholarshipCascade` | server/config/database.js:82 | deleting a scholarship removes it and exactly its applications; every other row stays in order, nothing is added, and users and the three id counters are untouched |
| `Schema.DeleteUserCascade` | server/config/database.js:66-84 | a user who authored a scholarship or reviewed another user's application cannot be deleted; otherwise the user is removed with exactly their applications, the other rows stay in order, nothing is added, and scholarships and the id counters are untouched |
| `Schema.DeleteScholarshipValid` | server/config/database.js:82 | the cascading scholarship delete keeps every constraint, references included |
| `Schema.DeleteUserValid` | server/config/database.js:66-84 | a user delete that the references allow keeps every constraint, author and reviewer references included |
| `Schema.DeleteUserReferences` | server/config/database.js:66-84 | when no scholarship names the user as author and no other user's application names them as reviewer, the delete goes ahead and every remaining author, applicant and reviewer reference still names a user |
| `Schema.CreateDefaultAdmin` | server/config/database.js:114-130 | the bootstrap only ever appends at most one user and leaves scholarships and applications alone |
| `Schema.CreateDefaultAdminEffect` | server/config/database.js:116-126 | the administrator is inserted exactly when no admin exists and its e-mail is free; afterwards an admin exists unless a non-admin holds that e-mail |
| `Schema.CreateDefaultAdminIdempotent` | server/config/database.js:116-117 | running the bootstrap a second time inserts nothing |
| `Schema.CreateDefaultAdminValid` | server/config/database.js:121-124 | the bootstrap keeps unique e-mails and every other constraint |
| `Auth.BearerToken` | server/middleware/auth.js:5-8 | an extracted token is non-empty and holds no space |
| `Auth.BearerTokenOfHeader` | server/middleware/auth.js:6 | for a header of space-separated pieces, the token is the second piece, and there is none when that piece is empty |
| `Auth.BearerTokenNeedsSpace` | server/middleware/auth.js:6-13 | a header without a space carries no token |
| `Auth.BearerTokenIsSecondPiece` | server/middleware/auth.js:6 | an extracted token sits right after the first space and runs to the next space or the end |
| `Auth.Authenticate` | server/middleware/auth.js:4-39 | no token gives 401; a token that fails verification gives 403; a verified user id without a row gives 401; otherwise that user's row is attached |
| `Auth.RequireAdmin` | server/middleware/auth.js:41-49 | passes exactly the admin role, unchanged, and answers every other role with 403 |
| `Auth.AdminGate` | server/routes/admin.js:9-10 | an admin route proceeds exactly for an authenticated admin, with that admin's identity; an authenticated non-admin gets 403 and any other caller the authentication failure |
| `Auth.AdminGateCodes` | server/routes/admin.js:9-10 | no header gives 401, and an authenticated non-admin gets 403 |
| `RateLimit.DefaultLimiter` | server/middleware/auth.js:72-73 | the default limiter has a 900000 ms window, a maximum of 5 and no history |
| `RateLimit.Check` | server/middleware/auth.js:75-97 | a request never changes the window, the maximum or any other key's history, and afterwards the key has a history |
| `RateLimit.CheckRefusesIffFull` | server/middleware/auth.js:83-91 | a request is refused exactly when the key already holds at least `max` timestamps inside the window |
| `RateLimit.RefusalKeepsHistory` | server/middleware/auth.js:86-91 | a refused request leaves the key's stored history as it was |
| `RateLimit.AdmissionStoresWindow` | server/middleware/auth.js:84-94 | an admitted request stores exactly the in-window timestamps followed by `now`, at most `max` of them |
| `RateLimit.CheckKeepsBounded` | server/middleware/auth.js:84-94 | if every stored history holds at most `max` timestamps, it still does after any request |
| `RateLimit.FreshKeyAdmitted` | server/middleware/auth.js:79-81 | a key never seen is admitted when `max` is at least one, and its history becomes `[now]` |
| `RateLimit.KeysIndependent` | server/middleware/auth.js:73-83 | a request from one key never changes the decision for another key |
| `RateLimit.DefaultRefusesSixth` | server/middleware/auth.js:72-91 | with the defaults, a sixth request within fifteen minutes is refused, and once the first request falls out of the window the next one is admitted |
| `ScholarshipRoutes.ListViolations` | server/routes/scholarship.js:9-25 | a listing query passes validation exactly when every present parameter is valid: a known category, integer amounts, page ≥ 1, 1 ≤ limit ≤ 100 |
| `ScholarshipRoutes.CriteriaOf` | server/routes/scholarship.js:27-34 | the criteria of a valid query have page ≥ 1 and 1 ≤ limit ≤ 100 |
| `ScholarshipRoutes.DefaultCriteria` | server/routes/scholarship.js:30-33 | a query that sets nothing means no category, no search, amounts 0 to 999999, page 1 and 20 rows |
| `ScholarshipRoutes.Matching` | server/routes/scholarship.js:36-58 | the selection is an order-kept subsequence of the table with exactly the active rows due today or later that match the category, the search and the inclusive amount range, as many of them as the table holds, duplicates included |
| `ScholarshipRoutes.FeaturedFirstIsTotalPreorder` | server/routes/scholarship.js:61 | "featured first, then earlier deadline" is a total, transitive order |
| `ScholarshipRoutes.Ordered` | server/routes/scholarship.js:61 | the ordered rows are a permutation of the selection with featured rows first and, within each group, ascending deadlines |
| `ScholarshipRoutes.OrderedRowsMatch` | server/routes/scholarship.js:36-61 | every ordered row is a stored row that satisfies the query |
| `ScholarshipRoutes.PageRows` | server/routes/scholarship.js:63-66 | a page holds at most `limit` rows, namely the rows from offset `(page - 1) * limit` on, and is empty past the end |
| `ScholarshipRoutes.PageCount` | server/routes/scholarship.js:110 | `pages` is the least number of pages of `limit` rows that holds all `total` rows |
| `ScholarshipRoutes.RowOnItsPage` | server/routes/scholarship.js:63-66 | every row of the ordered result appears on exactly the page and position its index gives, within the page count |
| `ScholarshipRoutes.PagePastEndEmpty` | server/routes/scholarship.js:63-66 | a page after the last one is empty, not an error |
| `ScholarshipRoutes.List` | server/routes/scholarship.js:9-120 | 400 exactly for a failed validator; otherwise the page and limit as asked, the total counting the same selection unpaged, the page count, and the page's rows decoded |
| `ScholarshipRoutes.PageRowsMatch` | server/routes/scholarship.js:41-58 | every listed row is active, due today or later, of the asked category, contains the search term in title, description or category name, and has its amount in the inclusive range |
| `ScholarshipRoutes.PageRowsOrdered` | server/routes/scholarship.js:61-66 | a page lists featured rows first and otherwise by ascending deadline |
| `ScholarshipRoutes.ListSucceeds` | server/routes/scholarship.js:95-101 | on a consistent store a valid listing query never fails on decoding |
| `ScholarshipRoutes.Get` | server/routes/scholarship.js:122-159 | 404 exactly when no active row has the id; otherwise the view decoded from a stored active row with that id; on a consistent store never 500 |
| `ScholarshipRoutes.Apply` | server/routes/scholarship.js:161-232 | 400 for a missing payload; 404 for a missing or inactive scholarship; 400 for a passed deadline; 400 for an earlier application; otherwise exactly one pending row for (id, caller) is appended; no refusal writes |
| `ScholarshipRoutes.ApplyDecision` | server/routes/scholarship.js:179-213 | for an active scholarship the checks run in order: a passed deadline first, then an earlier application, then the insert |
| `ScholarshipRoutes.ApplyValid` | server/routes/scholarship.js:202-219 | applying keeps at most one application per (scholarship, user) and every other constraint |
| `ScholarshipRoutes.ApplyTwice` | server/routes/scholarship.js:202-213 | after a successful application the pair has exactly one row, and a second attempt is refused without writing |
| `ScholarshipRoutes.DeadlineDayListedButRefused` | server/routes/scholarship.js:195 | on the deadline day after midnight the scholarship is selected by the listing, but applying to it answers "deadline passed" |
| `ScholarshipRoutes.ApplyRoute` | server/routes/scholarship.js:162 | the apply route answers the authentication failure unchanged and otherwise applies as the authenticated user |
| `ScholarshipRoutes.ApplyRouteValid` | server/routes/scholarship.js:162-219 | the authenticated apply route keeps every constraint |
| `AdminRoutes.Guarded` | server/routes/admin.js:9-10 | a handler behind the gate runs only for an admin, with the admin's id, and otherwise the store is untouched |
| `AdminRoutes.GuardedRefusesUsers` | server/routes/admin.js:10 | an authenticated non-admin gets 403 and nothing is written |
| `AdminRoutes.GuardedCallerExists` | server/middleware/auth.js:22-34 | a caller who passes the admin gate is a user stored in the table |
| `AdminRoutes.CreateViolations` | server/routes/admin.js:127-140 | a create body passes exactly when title (1 to 255 characters after trimming, as counted by the length validator), description, amount, deadline, category, both lists, e-mail and a recipient count ≥ 1 if given are all valid |
| `AdminRoutes.ValidatorLengthPlain` | server/routes/admin.js:127-128 | the length validator counts every character of a text free of the variation selectors U+FE0E and U+FE0F |
| `AdminRoutes.SelectorOnlyRefused` | server/routes/admin.js:127-128 | a title or description made only of one variation selector has length 0 and is refused |
| `AdminRoutes.EncodeOptional` | server/routes/admin.js:168 | an absent field of study stays NULL, and a present one is stored as text that reads back as the list |
| `AdminRoutes.NewScholarship` | server/routes/admin.js:152-170 | the inserted row takes the next id, the caller as author, the request time and status active, and its list columns read back as the posted lists |
| `AdminRoutes.NewScholarshipFits` | server/routes/admin.js:158-170 | the inserted row takes the next id, stores list columns that parse and names an existing author |
| `AdminRoutes.Create` | server/routes/admin.js:126-184 | 400 with every failed field and no write; otherwise exactly one row is appended under the next id, which is answered |
| `AdminRoutes.CreateReadBack` | server/routes/admin.js:152-170 | a created scholarship reads back with the trimmed texts, the posted lists, the defaults for absent optional fields, status active and the caller as author |
| `AdminRoutes.NewScholarshipView` | server/routes/admin.js:152-170 | the inserted row decodes to the next id, the trimmed texts, the parsed amount and category, the posted lists and the defaults for absent optional fields, with status active |
| `AdminRoutes.CreateDefaults` | server/routes/admin.js:154 | a body without optional fields gets one recipient, not renewable, not featured and no field of study |
| `AdminRoutes.CreateNeedsLists` | server/routes/admin.js:133-134 | an empty eligibility or requirements list is refused with 400 and nothing is written |
| `AdminRoutes.CreateValid` | server/routes/admin.js:158-170 | creating by an existing administrator keeps every constraint, the author reference included |
| `AdminRoutes.CreateThenGet` | server/routes/admin.js:158-176 | on a consistent store the public lookup finds a created scholarship under the answered id, as stored |
| `AdminRoutes.UpdateViolations` | server/routes/admin.js:187-206 | an update body passes exactly when each present field that has a validator is valid, lengths counted as the length validator counts them |
| `AdminRoutes.PatchWhere` | server/routes/admin.js:234-237 | only the row with the id is patched; every other row is unchanged |
| `AdminRoutes.Patch` | server/routes/admin.js:215-223 | a patch keeps the id, creation time and author, and a posted list reads back as posted |
| `AdminRoutes.Update` | server/routes/admin.js:186-257 | 400 with the failed fields, then 400 for an empty body, then 404 for an unknown id, all without writing; a valid, non-empty update of a stored id succeeds and patches only that row |
| `AdminRoutes.UpdateNothing` | server/routes/admin.js:225-230 | an update with no fields answers 400 and writes nothing |
| `AdminRoutes.PatchKeepsAbsent` | server/routes/admin.js:215-223 | a patch leaves every absent field, the id, the creation time and the author unchanged |
| `AdminRoutes.PatchNothing` | server/routes/admin.js:215-223 | the empty patch is the identity |
| `AdminRoutes.PatchReadBack` | server/routes/admin.js:216-221 | a patched row still decodes, and reads back with the posted lists, the trimmed title and the named status and category |
| `AdminRoutes.PatchIdempotent` | server/routes/admin.js:215-223 | patching twice with the same body is patching once |
| `AdminRoutes.UpdateIdempotent` | server/routes/admin.js:234-237 | sending the same update twice leaves the store as sending it once |
| `AdminRoutes.UpdateValid` | server/routes/admin.js:234-237 | updating keeps every constraint |
| `AdminRoutes.Delete` | server/routes/admin.js:259-287 | 404 exactly when no row has the id, without writing; a stored id is deleted with success, cascading to its applications |
| `AdminRoutes.DeleteThenGone` | server/routes/admin.js:264-274 | after a delete the public lookup answers 404 for the id, and deleting again answers 404 |
| `AdminRoutes.DeleteValid` | server/routes/admin.js:264-267 | deleting keeps every constraint |
| `AdminRoutes.StoredNotes` | server/routes/admin.js:361 | absent or blank notes are stored as NULL; otherwise the trimmed notes |
| `AdminRoutes.Reviewed` | server/routes/admin.js:359-362 | a review keeps the id, applicant, scholarship and submission time, and stores the status, the review time and the caller as reviewer |
| `AdminRoutes.ReviewWhere` | server/routes/admin.js:359-362 | only the application with the id is overwritten; every other row is unchanged |
| `AdminRoutes.Review` | server/routes/admin.js:341-382 | 400 unless the status is one of the four names, then 404 for an unknown id, both without writing; otherwise the row is overwritten |
| `AdminRoutes.ReviewAnyTransition` | server/routes/admin.js:359-362 | any stored application can be moved to any status: the named status, the caller as reviewer and the review time are stored, and every other application is untouched |
| `AdminRoutes.ReviewLastWins` | server/routes/admin.js:359-362 | a later valid review completely overwrites an earlier one |
| `AdminRoutes.ReviewValid` | server/routes/admin.js:359-362 | a review by an existing administrator keeps one application per pair and every other constraint, the reviewer reference included |
| `AdminQueries.JoinRecent` | server/routes/admin.js:46-48 | an application joins exactly when its scholarship and its user exist, and keeps its id, status and submission time |
| `AdminQueries.Joined` | server/routes/admin.js:46-48 | the join has one line per application whose scholarship and user exist, each such application's line is in it, and every line comes from a stored application |
| `AdminQueries.NewerSubmissionIsTotalPreorder` | server/routes/admin.js:49 | "newer submission first" is a total, transitive order |
| `AdminQueries.Recent` | server/routes/admin.js:41-51 | ten joined lines, or all of them when fewer, newest submission first, no joined line repeated more often than the join holds it, and every joined line when there are at most ten |
| `AdminQueries.RecentOnValidStore` | server/routes/admin.js:41-51 | on a consistent store every application joins, the dashboard shows ten of them or all when fewer, and with at most ten it shows each one |
| `AdminQueries.RecentAreNewest` | server/routes/admin.js:49-50 | no joined application left off the dashboard is newer than one shown on it |
| `AdminQueries.DashboardArithmetic` | server/routes/admin.js:16-39 | active ≤ total, featured ≤ total, admins ≤ users; funding is NULL exactly for an empty table and otherwise sums the active amounts; pending + approved + rejected is the total minus those under review |
| `AdminQueries.FundingIgnoresInactive` | server/routes/admin.js:21 | adding an inactive or expired scholarship never changes the total funding |
| `AdminQueries.DashboardOf` | server/routes/admin.js:14-69 | the totals are the table sizes; the active, featured, admin, pending, approved and rejected counts are the sizes of the matching selections; the recent list is the ten newest joined applications |
| `AdminQueries.Paging` | server/routes/admin.js:99-101 | the offset is `(page - 1) * limit` with defaults 1 and 20; the query fails with 500 for a text that is not a plain integer, a negative limit or a negative offset |
| `AdminQueries.PagingOfNumbers` | server/routes/admin.js:74 | page p of l rows starts at row `(p - 1) * l`, and no parameters give offset 0 and 20 rows |
| `AdminQueries.PagingBeforeFirstPage` | server/routes/admin.js:99-101 | page 0 or below with a positive limit makes the query fail with 500 |
| `AdminQueries.NewerCreationIsTotalPreorder` | server/routes/admin.js:97 | "newest created first" is a total, transitive order |
| `AdminQueries.AuthorName` | server/routes/admin.js:78-81 | the author name is absent exactly when the row has no author or no user has that id; otherwise it is the first and last name of a user row with that id |
| `AdminQueries.SelectedScholarships` | server/routes/admin.js:76-97 | the selection is a permutation of the stored rows that pass the filters, each such row included, newest first |
| `AdminQueries.Decorate` | server/routes/admin.js:76-81 | the page decodes exactly when each row does, and each line carries the row's decoded view, creation time, author name and number of applications |
| `AdminQueries.ListScholarships` | server/routes/admin.js:71-124 | a bad paging parameter fails with 500; otherwise the window at the offset, at most `limit` lines, each decorated from its row with its author and application count |
| `AdminQueries.ListScholarshipsRows` | server/routes/admin.js:87-97 | every listed scholarship has the asked status and category, and the lines come newest first |
| `AdminQueries.ListScholarshipsSucceeds` | server/routes/admin.js:105-111 | on a consistent store only the paging parameters can make the listing fail |
| `AdminQueries.JoinApplication` | server/routes/admin.js:301-304 | an application joins exactly when its scholarship and applicant exist; the reviewer is a left join |
| `AdminQueries.NewerApplicationIsTotalPreorder` | server/routes/admin.js:320 | "newest submission first" is a total, transitive order |
| `AdminQueries.JoinedApplications` | server/routes/admin.js:294-318 | the joined selection has one line per selected application that joins, holds each such application's line, and each line comes from one |
| `AdminQueries.SelectedApplications` | server/routes/admin.js:294-320 | the selection is a permutation of the joined selection, ordered newest first, holding the line of every selected application that joins |
| `AdminQueries.ListApplications` | server/routes/admin.js:289-339 | fails with 500 exactly for bad paging; otherwise the window of the ordered selection, at most `limit` lines |
| `AdminQueries.ListedFromSelected` | server/routes/admin.js:310-318 | a listed line has the asked status and comes from an application of the asked scholarship |
| `AdminQueries.ListApplicationsRows` | server/routes/admin.js:310-324 | every listed application has the asked status and belongs to the asked scholarship |
| `AdminQueries.ListApplicationsCountsAll` | server/routes/admin.js:301-304 | on a consistent store the unfiltered selection has one line per application and holds each application's line |
| `ClientFilter.DaysLeftIsCeiling` | src/components/ScholarshipList.tsx:37-40 | the days left are the ceiling of the remaining milliseconds divided by a day |
| `ClientFilter.DaysLeftAtMost` | src/components/ScholarshipList.tsx:42-51 | at most n whole days are left exactly when the deadline's midnight is at most n days after the clock |
| `ClientFilter.SearchIff` | src/components/ScholarshipList.tsx:13-23 | the search matches exactly when some searchable text contains the term, ignoring case: title, description, category name, an eligibility line or a field of study |
| `ClientFilter.KeepIffAdmits` | src/components/ScholarshipList.tsx:11-56 | the filter keeps a scholarship exactly when it has the search term, the chosen category, an amount in the inclusive range, and a deadline within the range's days, past deadlines included |
| `ClientFilter.FilterScholarships` | src/components/ScholarshipList.tsx:10-57 | the result is an order-preserving subsequence holding exactly the scholarships the filters admit, as many as the list holds, duplicates included |
| `ClientFilter.KeepLaterClock` | src/components/ScholarshipList.tsx:36-42 | a scholarship shown at one clock reading is still shown at any later one |
| `ClientFilter.FilterAgainLater` | src/components/ScholarshipList.tsx:36-42 | filtering the filtered list again with the same filters and a clock read no earlier changes nothing |
| `ClientFilter.FilterScholarshipsIdempotent` | src/components/ScholarshipList.tsx:10-57 | filtering the filtered list again with the same filters changes nothing |
| `ClientFilter.ScholarshipListSplits` | src/components/ScholarshipList.tsx:59-61 | the featured and regular lists together are a permutation of the filtered list |
| `ClientFilter.ScholarshipList` | src/components/ScholarshipList.tsx:59-61 | the featured part holds only featured rows and the regular part only non-featured rows |
| `ClientFilter.HomePage` | src/pages/HomePage.tsx:32-102 | the count shown is the number of scholarships filtered at the page's clock, and when the list's own clock reading is not earlier the featured and regular parts add up to it |
| `ClientFilter.HomePageConsistent` | src/pages/HomePage.tsx:32-102 | with the list's clock read no earlier than the page's, filtering on the page and again in the list equals filtering once; both parts keep list order and add up to the count shown |
| `ClientFilter.InitialKeeps` | src/pages/HomePage.tsx:9-15 | with the starting filters a scholarship is shown exactly when its amount is between 0 and 50000 |
| `ClientFilter.PastDeadlineKept` | src/components/ScholarshipList.tsx:36-53 | a deadline already passed is never dropped by the deadline range |
| `ClientFilter.WiderRangeKeepsMore` | src/components/ScholarshipList.tsx:42-52 | a wider deadline range never shows fewer scholarships |
| `FilterPanel.ChangeSearch` | src/components/ScholarshipFilters.tsx:32-34 | the search handler sets the search and keeps every other field |
| `FilterPanel.ChangeCategory` | src/components/ScholarshipFilters.tsx:36-38 | the category handler sets the category and keeps every other field |
| `FilterPanel.ChangeDeadline` | src/components/ScholarshipFilters.tsx:49-51 | the deadline handler sets the range and keeps every other field |
| `FilterPanel.ChangeAmountAsWritten` | src/components/ScholarshipFilters.tsx:40-47 | an amount change sets the targeted bound to the entered number, or to 0 for an empty box, and keeps every other field |
| `FilterPanel.ChangeAmount` | src/components/ScholarshipFilters.tsx:40-47 | an amount change sets the targeted bound to the entered number, or for an empty box to the bound its placeholder shows (0 below, 50000 above), and keeps every other field |
| `FilterPanel.ShownRoundTrip` | src/components/ScholarshipFilters.tsx:129-148 | feeding an amount box's displayed text back into the handler changes nothing |
| `FilterPanel.Shown` | src/components/ScholarshipFilters.tsx:129-148 | feeding the displayed box text back into the handler leaves the filters unchanged |
| `FilterPanel.BlankMaxHidesEverything` | src/components/ScholarshipFilters.tsx:41 | as written, the starting max box is displayed empty, but an empty max box sets the maximum to 0 and hides every scholarship with a positive amount |
| `FilterPanel.BlankAmountWidens` | src/components/ScholarshipFilters.tsx:40-47 | emptying an amount box never hides a shown scholarship whose amount is in the starting range |
| `FilterPanel.ResetWidens` | src/components/ScholarshipFilters.tsx:32-51 | resetting the search, the category or the deadline range never hides a scholarship that was shown |
| `FilterPanel.ClearFilters` | src/components/ScholarshipFilters.tsx:53-61 | after clearing, no filter is active, and a scholarship is shown exactly when its amount is between 0 and 50000 |
| `FilterPanel.InactiveShowsAllOfInitial` | src/components/ScholarshipFilters.tsx:63-68 | with no filter active, the list shows at least what the starting filters show |
| `FilterPanel.HidingShowsClear` | src/components/ScholarshipFilters.tsx:63-68 | a filter that hides something the starting filters show makes the clear button appear |
| `FilterPanel.HasActiveFilters` | src/components/ScholarshipFilters.tsx:63-68 | for bounds inside the starting range, the clear button shows exactly when the filters differ from the starting ones |
| `Faq.FilterFaqs` | src/pages/FAQPage.tsx:104-111 | the shown sections are, in order, the narrowed sections that kept a question, as many as there are; every shown question contains the term; each matching question appears in its section's narrowed form |
| `Faq.Narrow` | src/pages/FAQPage.tsx:106-110 | a narrowed section keeps its category and, in order, exactly the questions that contain the term, as many as the section holds, duplicates included |
| `Faq.EmptyTermShowsAll` | src/pages/FAQPage.tsx:106-111 | with an empty search every non-empty section shows, in order and in full |
| `Faq.FilterFaqsIdempotent` | src/pages/FAQPage.tsx:104-111 | searching the page already shown with the same term changes nothing |
| `Faq.SearchIgnoresCase` | src/pages/FAQPage.tsx:108-109 | a term and its lower-case form select the same questions |
| `Faq.Toggle` | src/pages/FAQPage.tsx:113-115 | a click opens the question exactly when it was not open, and never leaves another one open |
| `Faq.ToggleTwice` | src/pages/FAQPage.tsx:113-115 | two clicks on a question restore the accordion when it or none was open, and otherwise close everything |
| `Faq.GlobalIndexInjective` | src/pages/FAQPage.tsx:166 | while sections hold fewer than 100 questions, distinct questions get distinct accordion keys |

## Findings

| source | as written | input that shows it | evidently intended | confidence | as-written member | corrected member |
|---|---|---|---|---|---|---|
| src/components/ScholarshipFilters.tsx:41 | an empty amount box sets the bound to 0 on both sides | empty the max box, which starts empty and shows the placeholder "$50,000": the maximum becomes 0, and every scholarship with a positive amount disappears | an empty max box means the default maximum of 50000, as an empty min box means the default minimum of 0 | medium, not executed | `FilterPanel.ChangeAmountAsWritten` (`FilterPanel.BlankMaxHidesEverything`) | `FilterPanel.ChangeAmount` (`FilterPanel.ShownRoundTrip`, `FilterPanel.BlankAmountWidens`) |

## Left out

- I/O, the HTTP framework, response envelopes and console logging are not modelled. So are `logActivity` and the `audit_logs` table, which are only written to the console.
- JWT signature and expiry checking, bcrypt hashing and `isEmail` are foreign libraries. Each is an oracle parameter.
- The race between the duplicate-application check and the insert is out of scope, because requests are modelled one at a time. Uniqueness is kept as a store invariant instead.
- `REAL` amounts and `gpa_requirement` are left out. Amounts are integers, and the GPA is neither stored nor validated, because the model has no floating point.
- Decimal and exponent amount texts are left out: the model accepts only integer texts. JavaScript's `Number("")` coercion is left out too.
- ISO 8601 parsing of deadlines and time zones are left out. A deadline is a day number, and `new Date(date)` is that day's UTC midnight.
- SQL `LIKE` wildcards in the search term and collation-dependent or Unicode case folding are left out. The search is an ASCII case-insensitive substring match.
- The engine's coercion of a non-numeric `scholarship_id` filter is left out. A text that is not an integer matches no application.
- Request bodies are typed. A list field holding a non-array, and `null` for `field_of_study` or `application_link` in an update, are not modelled. The update's open key set is a closed record of optional fields.
- Registration and login routes, and every presentational page and component, are not part of this model.
- Amount boxes on the client hold either nothing or an integer. `parseInt` of decimal or invalid text, which gives `NaN`, is left out.
- `Faq`: the FAQ texts themselves are static content and are not modelled. The search works over any list of sections.
- `AdminQueries.Paging`: JavaScript's coercion of `page` and `limit` texts such as `"5.0"`, `" 5"` or `"0x10"` to numbers is not modelled. Such texts make the modelled query fail with 500, where the driver may accept them.
- `ScholarshipRoutes.RowOnItsPage`: rows that tie on the sort key are kept in table order, because the model's sort is stable. SQL leaves the order of ties unspecified, so the page on which a tied row appears is fixed only in the model. The same holds for `AdminQueries.Recent`, `AdminQueries.SelectedScholarships` and `AdminQueries.SelectedApplications`.
- `JsonList.Decode`: it reads only the canonical form that `JSON.stringify` writes. Whitespace between tokens and `\u` surrogate-pair escapes are not accepted, so such a column counts as malformed.
- `Text.Trim`: it strips only ASCII whitespace. U+00A0 and the other Unicode spaces that JavaScript's `trim()` also removes are kept.
- `ClientFilter.FilterScholarships`: one pass reads the clock once. The browser reads `new Date()` again for every scholarship, and `ClientFilter.KeepLaterClock` shows that a later reading only shows more, so a row kept at the pass's first reading stays kept.
- `AdminRoutes.Create`: an omitted `application_link` (and `gpa_requirement`, which the model does not carry) is bound as JavaScript `undefined`. The model follows the `sqlite3` binding of the repository's `server/config/database.js`, which stores it as `NULL`, so the create succeeds. Under the `mysql2` API the routes are written against (`pool.execute`, `insertId`), `execute` refuses `undefined` bind values, and such a request would answer 500 with nothing inserted.
