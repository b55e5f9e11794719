# Issue tracker: status transitions, audit trail and listing rules

A Dafny model of the core of a municipal issue tracker. Citizens report issues (road, garbage, flood, light). Admins move each issue through four statuses (pending, verified, in_progress, fixed). Every move leaves one row in an `issue_updates` audit table.

The model covers:

- the admin controller: the admin gate, the filtered listing, the status transition, and the trail read-back;
- the public issue controller: index, store, update and destroy;
- the Issue model's two query scopes;
- the audit table's migration: its foreign keys, enum columns and cascading deletes;
- the client-side filtering, status options and list update of the two Next.js pages.

Modules, one per source unit:

- `Domain` (`domain.dfy`): the enums and records of `frontend/app/types.ts`, the validation parsers for category and status, PHP and JavaScript truthiness, and the `Result` returned by every handler.
- `Sequences` (`sequences.dfy`): order-preserving `Filter`, subsequences, and a stable insertion sort, with the lemmas the other modules use.
- `Schema` (`schema.dfy`): the database state `Db` (users, the issues map, the auto-increment counter, and the audit log as a sequence). It holds the migration's constraints and the invariant `Valid`. Under `Valid`, every issue's audit trail chains record to record and ends at the issue's current status.
- `IssueScopes` (`issue_scopes.dfy`): `scopeByCategory` and `scopeByStatus`.
- `IssueController` (`issue_controller.dfy`) and `AdminController` (`admin_controller.dfy`): the HTTP handlers as pure functions from a `Db` to a `Result`. Listing is a method, because it scans the table in a loop.
- `ClientFilters`, `AdminPage`, `HomePage` (`client_filters.dfy`, `admin_page.dfy`, `home_page.dfy`): `applyFilters`, `getStatusOptions` and `handleStatusChange`.

Values the handlers get from outside are parameters:

- the authenticated user's id (`None` when the token resolves to nobody);
- the clock reading `now`;
- the storage key the blob store picks for an uploaded photo;
- the column default used as a new issue's status;
- the issue policy, as a predicate over (ability, user, issue);
- the API's answer to a status change, on the admin page.

Behaviour of the code worth knowing:

- The transition runs as separate save and insert statements, with no transaction and no conflict error. The model runs it as one sequential step and claims nothing about concurrent admins.
- Edits and deletes are authorised through an issue policy whose body is not part of this model. The model does not hard-code "owner only".
- The transition response loads the issue's updates without an order. Only `getIssueUpdates` orders them by `created_at`.
- The audit-table migration cascades audit rows when their author is deleted. See "## Findings".

## Model

| member | source | states |
|---|---|---|
| Domain.ParseCategory | backend/app/Http/Controllers/IssueController.php:35 | a string passes the `in:road,garbage,flood,light` rule exactly when it is the name of some category, and then it yields that category |
| Domain.ParseStatus | backend/app/Http/Controllers/AdminController.php:36 | a string passes the `in:pending,verified,in_progress,fixed` rule exactly when it is the name of some status, and then it yields that status |
| Schema.StatusColumnMatchesValidation | backend/database/migrations/2024_01_01_000002_create_issue_updates_table.php:17-18 | the old_status/new_status enum columns accept exactly the names the transition validation accepts |
| Schema.DeleteIssue | backend/database/migrations/2024_01_01_000002_create_issue_updates_table.php:16 | deleting an issue removes it and exactly its audit rows; every other issue's trail is unchanged and in order, and the deleted issue has no trail left |
| Schema.DeleteIssuePreservesValid | backend/database/migrations/2024_01_01_000002_create_issue_updates_table.php:16 | the issue_id cascade keeps every foreign key resolvable and every remaining trail chained |
| Schema.DeleteUser | backend/database/migrations/2024_01_01_000002_create_issue_updates_table.php:19 | deleting a user removes that user and exactly the audit rows that user authored. The remaining users keep their roles, the surviving audit rows keep their order, and the id counter is unchanged. The issues table is kept as it was, an assumption recorded under "## Left out" |
| Schema.DeleteUserBreaksTrail | backend/database/migrations/2024_01_01_000002_create_issue_updates_table.php:19 | a valid database where deleting a user cuts the middle record out of an issue's trail, so the trail no longer chains |
| Schema.DeleteUserRestricted | backend/database/migrations/2024_01_01_000002_create_issue_updates_table.php:19 | corrected rule: a user who authored audit rows cannot be deleted; otherwise the user goes, and the log, the issues table, the other users' roles and the id counter are untouched |
| Schema.DeleteUserRestrictedPreservesValid | backend/database/migrations/2024_01_01_000002_create_issue_updates_table.php:19 | with the restricting rule, deleting a user keeps every trail chained and every foreign key resolvable |
| IssueScopes.ByCategory | backend/app/Models/Issue.php:39-44 | a null, empty or "0" argument returns the rows unchanged; otherwise exactly the rows whose category name equals it remain, each with as many copies as the input holds, as a subsequence of the input |
| IssueScopes.ByStatus | backend/app/Models/Issue.php:46-51 | a null, empty or "0" argument returns the rows unchanged; otherwise exactly the rows whose status name equals it remain, each with as many copies as the input holds, as a subsequence of the input |
| IssueScopes.ScopesCommute | backend/app/Models/Issue.php:39-51 | the two scopes commute, and together they keep exactly the rows passing both (AND) |
| IssueScopes.ScopesKeepDistinct | backend/app/Models/Issue.php:39-51 | scoping a listing without repeats yields no repeats |
| IssueController.TableScan | backend/app/Http/Controllers/IssueController.php:15 | the scan yields every row of the issues table exactly once, in ascending id order |
| IssueController.Index | backend/app/Http/Controllers/IssueController.php:13-22 | the listing holds exactly the rows passing both optional scopes, each once, ordered by created_at descending |
| IssueController.Store | backend/app/Http/Controllers/IssueController.php:30-60 | unauthenticated requests get 401 and invalid ones (including a category outside the four) 422. On success the owner is the requester, the status is the column default whatever the client sent, and the text fields, category and coordinates are the validated input. created_at is the clock reading. photo_path is set exactly when a photo was uploaded. No other row and no audit row changes |
| IssueController.StorePreservesValid | backend/app/Http/Controllers/IssueController.php:42-57 | a stored issue gets a fresh id and an empty trail, and the database stays valid |
| IssueController.StoreIgnoresClientStatusAndOwner | backend/app/Http/Controllers/IssueController.php:42-50 | changing the status or owner fields of the request body never changes the outcome |
| IssueController.Update | backend/app/Http/Controllers/IssueController.php:62-75 | 401, then 404, then 403 when the policy refuses, then 422 for an invalid patch, including a key sent as null. On success a sent title, description or category is written and an absent one is kept; nothing else can differ. Status, owner, coordinates, address, photo and creation time stay as they were, and so do the other rows, the users, the audit log and the id counter |
| IssueController.UpdatePreservesValid | backend/app/Http/Controllers/IssueController.php:72 | an edit keeps the database valid, since no status and no trail changes |
| IssueController.UpdateIgnoresClientStatusAndOwner | backend/app/Http/Controllers/IssueController.php:66-72 | status or owner fields in an edit request never change the outcome |
| IssueController.Destroy | backend/app/Http/Controllers/IssueController.php:77-88 | after 401/404/403, exactly one blob deletion is requested, for the stored path, iff photo_path is PHP-truthy. The issue is then gone and its audit rows are gone. Every other row, every other trail, the users and the id counter are unchanged |
| IssueController.DestroyPreservesValid | backend/app/Http/Controllers/IssueController.php:85 | deleting an issue keeps the database valid |
| AdminController.Gate | backend/app/Http/Controllers/AdminController.php:11-20 | a request passes exactly when its user exists and has the admin role; an unknown user gets 401 and a non-admin 403 |
| AdminController.GateBlocksReplay | backend/app/Http/Controllers/AdminController.php:11-20 | any run of transition attempts whose requesters the gate refuses (unknown users or non-admins) commits nothing and leaves the issues and the audit log unchanged |
| AdminController.GetIssues | backend/app/Http/Controllers/AdminController.php:22-31 | a refused request gets the gate's error. Otherwise the result holds exactly the rows passing both scopes, each once, newest created first |
| AdminController.UpdateStatus | backend/app/Http/Controllers/AdminController.php:33-56 | a gate refusal comes before anything else. Then 404 for a missing issue, 422 for a status outside the four, and 422 for a no-op. Success happens exactly when the requested status is valid and differs from the current one. Then only the issue's status changes, and exactly one row is appended: the old status, the requested status, the acting admin and the time. Its old and new status differ, and the table's foreign keys and enums admit it |
| AdminController.UpdateStatusTouchesOneTrail | backend/app/Http/Controllers/AdminController.php:43-52 | a transition lengthens its issue's trail by one; every other issue's trail and row are unchanged |
| AdminController.UpdateStatusPreservesValid | backend/app/Http/Controllers/AdminController.php:43-52 | after a transition the issue's trail still chains and ends at the new status; the database stays valid |
| AdminController.ReplayKeepsTrails | backend/app/Http/Controllers/AdminController.php:43-52 | over any sequence of transition attempts, every trail chains and ends at its issue's current status, and each trail grows by exactly the number of attempts on that issue that succeeded |
| AdminController.TransitionScenario | backend/app/Http/Controllers/AdminController.php:39-52 | pending to verified by admin 1 succeeds; verified again fails with 422; a non-admin is refused; verified to fixed by admin 2 succeeds; the log holds both records in order |
| AdminController.History | backend/app/Http/Controllers/AdminController.php:60 | the read-back holds only the issue's own records, exactly its trail's records, ordered by created_at ascending |
| AdminController.GetIssueUpdates | backend/app/Http/Controllers/AdminController.php:58-62 | the gate runs first, a missing issue gets 404, and otherwise the answer is the issue's history |
| AdminController.HistoryChains | backend/app/Http/Controllers/AdminController.php:58-62 | when an issue's commits have increasing timestamps, the read-back is the trail in commit order, and it chains to the current status |
| ClientFilters.ApplyFilters | frontend/app/admin/page.tsx:45-67 | an issue is kept iff it passes the category filter ('' or 'all' = none, else exact), the status filter (same) and the search: a non-empty term, lower-cased, occurs in the lower-cased title, description or address |
| ClientFilters.ApplyFiltersIsSubsequence | frontend/app/admin/page.tsx:45-66 | the filtered list is an order-preserving subsequence of the loaded list |
| ClientFilters.ApplyFiltersIsOneFilter | frontend/app/page.tsx:44-66 | the three successive filters equal one filter by the conjunction of the three conditions |
| ClientFilters.SearchIgnoresCase | frontend/app/page.tsx:55-63 | search terms that lower-case to the same string select the same issues |
| AdminPage.InitialFiltersShowAll | frontend/app/admin/page.tsx:21-23 | with the dashboard's initial 'all', 'all', '' filters every loaded issue is shown |
| AdminPage.StatusOptions | frontend/app/admin/page.tsx:110-113 | the options are every status name except the current one, in the fixed order; three options for a valid status, all four otherwise |
| AdminPage.HandleStatusChange | frontend/app/admin/page.tsx:69-78 | on success the list keeps its length and order; entries with the changed issue's id become the server's issue and the rest are untouched. On failure the list is unchanged |
| AdminPage.StatusChangeKeepsIds | frontend/app/admin/page.tsx:72-74 | when the server returns the issue under the same id, the list's ids are unchanged and applying the answer again changes nothing |
| HomePage.InitialFiltersShowAll | frontend/app/page.tsx:18-20 | with the page's initial '', '', '' filters every loaded issue is shown |
| HomePage.EmptyAndAllAgree | frontend/app/page.tsx:47-51 | '' and 'all' select the same issues for the category filter and for the status filter |

## Left out

- Concurrency: the code has no transaction around the status save and the audit insert. The model runs `updateStatus` as one step and claims no lost-update protection and no conflict error.
- HTTP plumbing: status codes become `Failure` constructors. Responses, the eager loading of `user` and `updates.user`, and `show` are not modelled.
- Check order: `updateStatus`, `getIssues` and `getIssueUpdates` run the admin check before route-model binding. Laravel decides the real relative order of `SubstituteBindings` and the controller's closure middleware, and that order is not modelled.
- Validation detail: a failed validation yields a single `Invalid`, without Laravel's per-field error bag. The `string` type rules are not modelled. Update rules reject a key sent as null and otherwise check only length and the category list.
- Coordinates: the `numeric` parsing and the `decimal:8` cast are not modelled. A latitude or longitude is either present as a value or missing.
- Photos: the bytes, the `image` MIME check and the hashed file name are left out. The upload is reduced to an image flag and a byte size, and the storage key is a parameter. The store side effect is not modelled; deletions are returned as a list of keys.
- Policy: the body of `IssuePolicy` is not part of this model, so the policy is a predicate parameter.
- Issues migration: it is not part of this model. A new issue's status is the `initialStatus` parameter, not a claimed `pending`.
- Schema.DeleteUser: keeps every issue row, including the user's own, because the issues migration that decides this is not modelled.
- Request strings: every string a handler receives is taken as it reaches the controller, after Laravel's global TrimStrings and ConvertEmptyStringsToNull middleware. Those two middleware are not modelled: a raw `" fixed"` status or a category of `" "` must be given to the model in its trimmed form: `"fixed"`, and `None`. A stored title is the already-trimmed input. In an edit body, a key sent blank or as null is given as `Null`, not `Absent`.
- Timestamps: `updated_at` columns and the audit rows' own auto-increment ids are not modelled.
- IssueController.Index: issues with equal `created_at` come back in an order the query leaves unspecified, so the contract does not state it.
- AdminController.History: the same holds for records with equal timestamps. `HistoryChains` therefore assumes strictly increasing timestamps for the issue.
- SQL comparison: `where` compares exactly, as strings. A case-insensitive database collation would also match other letter cases; that is not modelled.
- Lower-casing: `toLowerCase` maps ASCII letters only, not all of Unicode.
- Frontend plumbing: the React effects that re-run `applyFilters`, the API client, the map, the report form, the label and colour lookups, and the route tables are left out.

## Findings

| source | as written | input that shows it | evidently intended | confidence | as-written member | corrected member |
|---|---|---|---|---|---|---|
| backend/database/migrations/2024_01_01_000002_create_issue_updates_table.php:19 | `updated_by` cascades on delete, so deleting a user deletes every audit row that user wrote | issue 7 with trail pending→verified (user 1), verified→fixed (user 2), fixed→in_progress (user 1); delete user 2 and the trail jumps from verified to fixed | audit rows outlive their author, so a trail only loses records together with its issue | medium; not executed | Schema.DeleteUserBreaksTrail | Schema.DeleteUserRestricted |
