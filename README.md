# Anitya admin moderation, modelled in Dafny

Anitya is a release-monitoring service. The admin pages of its web UI
(`anitya/admin.py`) let administrators add, rename and delete distributions,
delete projects, a project's distro package mappings and single versions of
a project, and open or close the flags users raise against projects. Every
change writes one audit-log entry (topic, agent, message) in the same commit.
The two browse pages page through the audit log and the flags.

This project models that core:

- `entities.dfy` (module `Entities`): the rows (distros by name, projects with
  a nullable `latest_version`, version rows identified by project and version
  text, package mappings, flags in state open or closed, audit entries with
  one message variant per topic), the whole database as one `Tables` value,
  the key guarantees (`Consistent`: no version row twice, none without its
  project) and the latest-version invariant (`LatestLive`).
- `moderation.dfy` (module `Moderation`): each handler as a reference
  function from the tables before a request to its outcome and the tables
  after it, dispatched by `Handle`, and the properties the handlers share:
  the order of the checks, the confirmation gate, one audit entry per real
  change and nothing on any other outcome, and the repair of `latest_version`.
- `admin.dfy` (module `Admin`): the class `Store`, whose fields are the
  tables, with one method per handler that takes the handler's steps in its
  order: lookups, the admin check, the form and `confirm` checks, the queued
  audit entry, the deletes (a loop over the project's versions for a project
  delete, a first-match search for a version delete), the commit, or the
  rollback to the snapshot taken before the change. Each method is proved to
  end in the outcome and state the reference function gives.
- `pagination.dfy` (module `Pagination`): the arithmetic shared by
  `browse_logs` and `browse_flags` (lines 329-353 and 377 of the first,
  408-432 and 459 of the second are the same code): `int()` on the `page` and
  `limit` arguments, the fallbacks 1 and 50, the offset and the page count.
- `wrappers.dfy`: the `Option` type.

The request is explicit input: the acting user's name, whether that user is
an admin, whether the posted form validates, and the `confirm` field
(`Moderation.Request`). The HTTP answer is an `Outcome`: NotFound (404),
NotAuthorized (401), Unprocessable (422), ShowForm (the page is rendered),
Cancelled (redirect, nothing changed), Unchanged (redirect after a rename to
the same name), Conflict (the add was refused by the database and flashed),
Rejected (the flag helper refused and it was flashed), StorageError (a
refused commit the handler does not catch) and Done.

In four places a reader might expect a different behaviour from the one
the code has. The model follows the code:

- One might expect a rename to a taken name to be reported as a conflict, as
  `add_distro` does. `edit_distro` does not catch the refused commit
  (lines 101-104), so the model answers StorageError with nothing changed.
- One might expect every delete to need `confirm`. `delete_distro` has no
  `confirm` gate (lines 130-146), so a valid form deletes.
- One might expect a page below 1 to be raised to 1. It is kept, so the
  offset can be negative (lines 329-332, 351-353).
- One might expect a zero limit to mean one page holding everything. The
  page count divides by it (line 377), so `Paginate` answers
  `DivisionByZero`.

## Model

| member | source | states |
|---|---|---|
| Entities.ParseStateInverse | anitya/admin.py:486-487 | only "open" and "closed" are flag states, and each reads back as the state it names |
| Entities.VersionsOf | anitya/admin.py:264-267 | `project.versions_obj` holds exactly the versions that have a row for that project |
| Entities.WithoutRow | anitya/admin.py:295 | deleting a version row keeps every other row and only those, and keeps rows unique |
| Entities.WithoutProject | anitya/admin.py:183-186 | the rows left after a project delete are exactly the rows of other projects, still unique |
| Entities.PruneStep | anitya/admin.py:183-184 | deleting one more version row of the project in the loop extends what has been deleted by that version |
| Entities.PruneAll | anitya/admin.py:183-184 | once the loop has deleted every version of the project, the table is the table without that project's rows, in the same order |
| Moderation.AuditOncePerChange | anitya/admin.py:31-510 | every handler changes the tables only when it answers Done, and then appends exactly one entry, by the acting user, under the handler's topic, leaving older entries as they were |
| Moderation.ConsistencyKept | anitya/admin.py:183-186 | every handler keeps version rows unique and leaves no version row without its project |
| Moderation.LatestLiveKept | anitya/admin.py:294-300 | every handler keeps the invariant that a set `latest_version` names a live version row of its project |
| Moderation.LookupBeforeAdminCheck | anitya/admin.py:75-276 | the distro, project, mapping and version handlers answer NotFound for a missing target, admin or not, with nothing changed |
| Moderation.NonAdminRefused | anitya/admin.py:31-484 | a non-admin gets NotAuthorized with nothing changed from every handler whose target exists, from add_distro, and from set_flag_state whatever it names |
| Moderation.FlagStateCheckedBeforeLookup | anitya/admin.py:483-492 | set_flag_state checks admin, then the state text, then the flag: an admin's bad state text is 422 with nothing changed even for a missing flag |
| Moderation.UnconfirmedDeleteCancelled | anitya/admin.py:168-304 | with a valid form but no `confirm`, the project, mapping and version deletes redirect with the tables and the log unchanged |
| Moderation.DistroDeleteNeedsNoConfirm | anitya/admin.py:130-146 | delete_distro deletes on a valid form without `confirm` |
| Moderation.AddDistroOutcome | anitya/admin.py:40-65 | a taken name is a Conflict with nothing changed (the rollback drops the queued entry); a free name is added with one `distro.add` entry |
| Moderation.EditDistroOutcome | anitya/admin.py:86-109 | a rename happens and is audited exactly when the new name differs and is free; the same name changes and logs nothing; a taken name fails the commit with nothing changed |
| Moderation.DeleteProjectCascades | anitya/admin.py:171-189 | a confirmed project delete removes the project and all of its versions, keeps every other project and version row, appends one `project.remove` entry with the agent and project name, and leaves the distros, package mappings and flags as they were |
| Moderation.DeleteVersionRepairsLatest | anitya/admin.py:281-300 | a confirmed version delete removes exactly that row, clears `latest_version` exactly when it named the version and otherwise keeps it, changes no other project, appends one `project.version.remove` entry and leaves the other tables as they were |
| Moderation.DeleteMissingVersion | anitya/admin.py:263-273 | a version the project does not have is NotFound with no change and no entry, for any user |
| Moderation.SetFlagStateOutcome | anitya/admin.py:496-504 | setting a flag's state changes only that flag's state (its project and user are kept), no other flag and no other table, and appends one entry naming the flag and the new state under the flag's project |
| Moderation.LatestVersionExample | anitya/admin.py:294-300 | project "foo" with versions 1.0 and 2.0 and latest 2.0: deleting 2.0 clears the latest and writes one `project.version.remove` entry; deleting 1.0 keeps 2.0 |
| Admin.FirstMatch | anitya/admin.py:263-267 | the version search returns the first position whose text equals the requested version exactly, or none when no version matches |
| Admin.Store.Rollback | anitya/admin.py:59-60 | a rollback restores the store to the snapshot taken before the change |
| Admin.Store.AddDistro | anitya/admin.py:33-70 | add_distro, step by step, ends in the outcome and tables of `AddDistroSpec` and keeps the store consistent |
| Admin.Store.EditDistro | anitya/admin.py:75-115 | edit_distro ends in the outcome and tables of `EditDistroSpec` |
| Admin.Store.DeleteDistro | anitya/admin.py:120-152 | delete_distro ends in the outcome and tables of `DeleteDistroSpec` |
| Admin.Store.DeleteVersionRows | anitya/admin.py:183-184 | deleting the project's versions one row at a time leaves exactly the rows of the other projects, in their order |
| Admin.Store.DeleteProject | anitya/admin.py:157-198 | delete_project, deleting the versions one by one and then the project, ends in the outcome and tables of `DeleteProjectSpec` |
| Admin.Store.DeleteMapping | anitya/admin.py:205-251 | delete_project_mapping ends in the outcome and tables of `DeleteMappingSpec` |
| Admin.Store.DeleteVersion | anitya/admin.py:257-311 | delete_project_version, searching then deleting and repairing `latest_version`, ends in the outcome and tables of `DeleteVersionSpec` |
| Admin.Store.SetFlagState | anitya/admin.py:481-510 | set_flag_state ends in the outcome and tables of `SetFlagStateSpec` |
| Pagination.ParseShow | anitya/admin.py:329-332 | `int()` reads the decimal text of every integer back as that integer |
| Pagination.ParseShowPadded | anitya/admin.py:329-332 | the same holds with white space around the number |
| Pagination.CoercionOfArguments | anitya/admin.py:326-337 | a missing page is 1 and a missing limit 50; text that is not an integer becomes 1 or 50; an integer's text becomes that integer |
| Pagination.CeilDiv | anitya/admin.py:377 | the result is the ceiling of the quotient, for either sign of the divisor |
| Pagination.TotalPages | anitya/admin.py:377 | with a positive limit, the page count is the least number of pages whose rows hold the count |
| Pagination.Paginate | anitya/admin.py:351-377 | a zero limit, and only a zero limit, is a division by zero; otherwise page and limit are kept, the offset is (page - 1) * limit and, for a positive limit, the page count is the least number of pages that holds the count |
| Pagination.Browse | anitya/admin.py:326-377 | the whole computation from the two arguments is a division by zero exactly when the coerced limit is 0, and otherwise keeps the coerced page and limit |
| Pagination.BrowseDefaults | anitya/admin.py:326-377 | without arguments the browsers show page 1 of 50-row pages from row 0; a limit of "0" is a division by zero whatever the page |
| Pagination.OffsetOfPage | anitya/admin.py:351-353 | with a positive limit the offset is (page - 1) * limit, and a page below 1 gives a negative offset |
| Pagination.PageOfRow | anitya/admin.py:351-377 | with a positive limit, every row index below the count lies on exactly one page between 1 and the page count |
| Pagination.LimitAsWritten | anitya/admin.py:334-337 | the limit as the handlers leave it always denotes the corrected limit: it is text exactly when the argument parses, and that text reads back as the corrected limit; otherwise it is that limit as an integer |
| Pagination.OffsetAsWrittenSecondPage | anitya/admin.py:334-353 | on page 2 the as-written offset is the limit's own text, which reads back as the corrected offset, for every integer limit |
| Pagination.OffsetAsWrittenMisreads | anitya/admin.py:334-353 | from page 3 on, for every positive limit given as its text, the as-written offset is text whose number is larger than the corrected offset (page - 1) * limit |
| Pagination.OffsetAsWrittenDiverges | anitya/admin.py:334-353 | page=3 and limit=10 give the offset text "1010" where page 3 starts at row 20 |

## Findings

| source | as written | input that shows it | evidently intended | confidence | as-written member | corrected member |
|---|---|---|---|---|---|---|
| anitya/admin.py:334-353 | `int(limit)` discards its result, so a given limit stays text; `limit != 0` holds for text and `(page - 1) * limit` repeats it | `page=3&limit=10`: the offset handed to the search is the text "1010" (row 1010) | `limit = int(limit)`, offset 20 | medium, not executed; the search code that reads the offset is not part of this model | Pagination.OffsetAsWrittenDiverges | Pagination.OffsetOfPage |

`Pagination.OffsetAsWrittenMisreads` generalises the example: from page 3
on, every positive limit given as its text yields an offset text whose number
is past the corrected offset. The same lines appear in `browse_flags`
(anitya/admin.py:413-432). The rest of
the model uses the corrected reading (`CoerceLimit`, `Browse`, `Paginate`).

## Left out

- HTTP: routing, templates, `flask.flash`, `redirect` and `abort` are reduced
  to the `Outcome` value; messages and redirect targets are not modelled.
- `is_admin`, `login_required`, the logged-in user and form/CSRF validation
  are inputs (`Request`): their code is not part of this model.
- `Distro.by_name`, `Distro.get`, `Project.get` and `Packages.get` are not
  part of this model: lookups are exact matches on the distro name, the
  numeric project id and the (project, distro, package) triple. A project id
  that is not a number is not modelled.
- `utilities.log` and `utilities.set_flag_state` are not part of this model.
  An entry is the agent, a per-topic message and the project or distro it is
  filed under. The flag helper is taken as "set the state, append one entry";
  its topic ("flag.state.set"), the entry's project reference, and whether a
  same-state change is refused are assumptions. Its exception is the input
  `helperFails`, with nothing changed.
- Database foreign-key actions are not modelled: renaming or deleting a
  distro leaves mappings and audit entries that name it as they were, and an
  audit entry keeps the name a distro had when the entry was written.
- Moderation.DeleteProjectCascades: `delete_project` deletes only the
  project's versions and the project itself (lines 183-186), so the model
  keeps the project's package mappings and flags, which still carry the
  removed id. Whatever the database schema cascades to them is in
  `anitya.db.models`, which is not part of this model, and `Consistent`
  says nothing about mappings or flags.
- `Log.search` and `ProjectFlag.search` (filters, ordering, the count) are in
  `anitya.lib.model`, which is not part of this model; the count is an input
  of `Paginate`. The choice of the user filter for non-admins (lines
  318-321), the `from_date` parsing with `dateutil`, `refresh`, the `state`
  argument of the flag browser and the admin check of `browse_flags`
  (lines 397-398) go with them.
- A search that raises leaves `cnt_logs`/`cnt_flags` unbound (lines 373-377,
  455-459); that failure is not modelled.
- Pagination.CoercionOfArguments: covers integer text only in canonical form
  (`str(n)` with white space around it); `ParseInt` also accepts a `+` sign
  and leading zeros, but does not accept `_` separators, non-ASCII digits or
  non-ASCII white space, which Python's `int()` accepts.
- Pagination.TotalPages: `ceil` of a floating-point quotient is modelled as
  exact integer arithmetic; rounding of counts beyond 2^53 is not modelled.
- Transactions, concurrency and isolation: each request is one atomic step;
  a refused commit is a rollback to the snapshot taken at its start.
