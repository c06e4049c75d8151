# StudySphere page logic in Dafny

StudySphere is a school portal built from Next.js pages over a hosted database and object storage. This project models the deterministic logic of four of its pages. The storage, database and RPC calls themselves are not modelled: their answers are inputs to the model.

- **Resources** (`src/app/resources/page.js`). A shared file browser over a flat storage bucket in which folders are key prefixes. It covers:
  - role-scoped write permission (`canManageInPath`) and write placement (`getRoleBasedPath`);
  - the listing format and the teacher-at-root filter;
  - folder navigation and the names displayed;
  - upload admission and folder creation;
  - rename and delete plans, which are sequences of store calls.
- **Events** (`src/app/events/page.js`). It covers:
  - the hour labels;
  - the mapping of `events` rows to calendar events;
  - the new-event draft;
  - save validation with the "All Day" conversion;
  - the local list updates after insert, update and delete.
- **Admin dashboard** (`src/app/admin-dashboard/page.js`). The user-approval state machine over the pending list, the registered list and the role selections, together with the admin guard.
- **Assignments** (`src/app/assignments/page.js`). The listing prefix, the upload key, the view/delete key and the local delete.

Modules, one concept each:

| module | file | what it holds |
|---|---|---|
| `Wrappers` | `wrappers.dfy` | `Option`, `Result` |
| `Strings` | `strings.dfy` | JavaScript string semantics: first-occurrence `replace`, `split`/`join`, `endsWith`, ASCII `toLowerCase`, `String(n)`, truthiness |
| `Seqs` | `seqs.dfy` | `Array.prototype.filter` |
| `Profiles` | `profiles.dfy` | `Role`, `User` and `user.name \|\| 'unknown'` |
| `ResourceAccess` | `resource_access.dfy` | permission and write placement, and the proof that they agree |
| `ResourceBrowser` | `resource_browser.dfy` | listing, navigation, display names, inline preview |
| `ResourceOps` | `resource_ops.dfy` | upload, folder creation, rename/delete runs and their effect on a key set |
| `Events` | `events.dfy` | the calendar page |
| `AdminDashboard` | `admin_dashboard.dfy` | the approval page |
| `Assignments` | `assignments.dfy` | the assignments page |

How the model represents the source:

- **Positions.** A browsing position is `"./"` or `"./" + key`.
  - `currentPath.replace('./','')` is modelled as JavaScript defines it: the first occurrence is removed, wherever it is. A lemma shows that for a `./`-prefixed path this is prefix stripping.
  - `"".split('/')` is `[""]`, as in JavaScript.
- **Null strings.** A nullable database column is an `Option<string>`. A missing profile name is `""`, because the page only ever tests it for truthiness.
- **Store calls.** A handler returns a `Run`: the store calls it issues, in order, and whether it completed.
  - `StoreReplies` supplies the store's answers: the listing, the index of the first copy that fails, and whether the remove succeeds.
  - `ApplyRun` gives a run's effect on an abstract set of bucket keys. A call that failed has no effect.
- **Database calls** on the events and admin pages are boolean or row-valued inputs. The admin handlers also return the calls they issue.

## Model

| member | source | states |
|---|---|---|
| Strings.RemoveFirst | src/app/resources/page.js:157 | `replace('./','')` removes the first occurrence only: the input is unchanged when the pattern is absent, and otherwise it is the text before the first occurrence (as `indexOf` finds it) followed by the text after it |
| Strings.RemoveFirstOfPrefix | src/app/resources/page.js:157 | on a path that starts with `./`, removing the first `./` strips the prefix |
| Strings.Split | src/app/resources/page.js:238 | `split('/')` yields at least one part, no part contains the separator, and joining the parts gives back the input |
| Strings.SplitJoin | src/app/resources/page.js:238-240 | join followed by split restores separator-free parts, which is the inverse direction of the round trip |
| Strings.LastPartOfSuffix | src/app/resources/page.js:246 | the last `split(sep)` part of a string ending in `sep + tail` (tail without `sep`) is `tail`, which is what `pop()` returns |
| Strings.Decimal | src/app/events/page.js:280 | `String(n)` is a non-empty run of digits that spells `n` read as a decimal number, has no leading zero unless `n` is 0, and is a single digit exactly when n < 10 |
| Strings.DecimalInjective | src/app/events/page.js:280 | two numbers print the same only when they are equal |
| Seqs.FilterAppend | src/app/events/page.js:472 | filtering distributes over concatenation, so the kept elements stay in their original order |
| ResourceAccess.CanManageInPath | src/app/resources/page.js:115-138 | absent user → false; admin → true; student or pending → false; a teacher may manage exactly inside the zone `Teachers/<name or unknown>`, provided the name is a single segment |
| ResourceAccess.TeacherSegments | src/app/resources/page.js:122-129 | "first segment `Teachers` and second segment `n`" holds if and only if the key is `Teachers/n` or lies below it, with `n` free of `/` |
| ResourceAccess.RoleBasedPath | src/app/resources/page.js:69-100 | no user, student or pending → `currentPath` unchanged; admin at root → exactly `Admin` or `Admin/<f>`; teacher at root → exactly their zone `Teachers/<name or unknown>` or that zone `/<f>`; admin or teacher below the root → exactly the browsed key or that key `/<f>`; so the key is inside the matching zone or folder and a non-empty file name is its last segment |
| ResourceAccess.TeacherWriteStaysInZone | src/app/resources/page.js:437-443 | whenever a teacher passes the permission check, the key chosen for the write lies in that teacher's zone |
| ResourceAccess.MyFolderIsManageable | src/app/resources/page.js:684 | the My Folder target `./Teachers/<name>` is manageable by that teacher when the name has no `/` |
| ResourceAccess.TeacherLocksOutRootAndAdmin | src/app/resources/page.js:122-135 | a teacher manages neither at `./` nor anywhere under `./Admin` |
| ResourceAccess.InitialPath | src/app/resources/page.js:103-112 | every user starts at the root position, where only an administrator may manage; the page never calls `getInitialPath`, and its `currentPath` state starts at the same `./` |
| ResourceBrowser.ListPath | src/app/resources/page.js:157 | the listing prefix of `./key` is `key` |
| ResourceBrowser.FormatItem | src/app/resources/page.js:170-175 | it is a file exactly when `id` is truthy; the id is `item.id \|\| item.name`; the path is the listing prefix joined with the name, or the bare name at the root |
| ResourceBrowser.FormatItems | src/app/resources/page.js:168-175 | no `.keep` entry; every entry comes from an input item; every non-sentinel item appears; the output is no longer than the input |
| ResourceBrowser.FormatListing | src/app/resources/page.js:152-185 | the properties of FormatItems, plus: for a teacher at the root only `Admin`, `Teachers` and `teachers` survive, and every such item does |
| ResourceBrowser.Navigate | src/app/resources/page.js:228-234 | a folder becomes the position `./<path>`, whose listing prefix is the folder's path; a file opens the viewer exactly when it is previewable |
| ResourceBrowser.GoBack | src/app/resources/page.js:237-242 | the result is always a position; with at most one non-empty segment it is the root, and otherwise the segments lose exactly their last one |
| ResourceBrowser.NavigateThenGoBack | src/app/resources/page.js:228-242 | entering a listed folder (non-empty name without `/`) from any position and going back returns to that position, and the folder entered is a position |
| ResourceBrowser.DisplayName | src/app/resources/page.js:55-66 | names change only at the root: `teachers` in any case shows as `Teachers` to signed-in non-pending users, and `Admin` shows as `My Folder` to an administrator; every other name is shown unchanged |
| ResourceBrowser.CanViewInline | src/app/resources/page.js:245-248 | for a name whose last `.` is at position k, previewable exactly when the text after it, lower-cased, is pdf, jpg, jpeg, png or txt; for a name without `.`, exactly when the whole lower-cased name is one of them |
| ResourceOps.HandleFileUpload | src/app/resources/page.js:420-446 | the checks run in this order: no file, invalid type (MIME type not one of 6, or name not ending in one of 7 extensions, case-sensitive), size above 10485760, then no permission; an accepted upload uses upsert and exactly the key `getRoleBasedPath` gives for the file's name, which ends in `/name` |
| ResourceOps.TeacherUploadStaysInZone | src/app/resources/page.js:437-445 | every upload a teacher gets through lands in that teacher's zone |
| ResourceOps.SizeCeilingIsInclusive | src/app/resources/page.js:23-434 | for an administrator, an allowed file of exactly 10485760 bytes is uploaded and one of 10485761 bytes is refused as too large |
| ResourceOps.UploadedTypesAndPreview | src/app/resources/page.js:22-248 | for a name ending in an allowed extension, preview is possible exactly for pdf, jpg, jpeg, png and txt, and never for doc or docx |
| ResourceOps.HandleCreateFolder | src/app/resources/page.js:523-546 | without permission it is refused whatever name is given; with permission, a cancelled, empty or `/`-containing name is refused and every other name writes the sentinel `name/.keep` (at the root) or `key/name/.keep` with upsert off as text/plain |
| ResourceOps.CreatedFolderIsListed | src/app/resources/page.js:536 | the folder the sentinel creates is listed at the path the browser computes for it, which is the sentinel key minus `/.keep` |
| ResourceOps.RenamedKey | src/app/resources/page.js:325-327 | the new key keeps everything up to the last `/` and replaces only the last segment |
| ResourceOps.RenameListedEntry | src/app/resources/page.js:325-327 | renaming a listed entry `dir/name` gives its sibling `dir/newName` |
| ResourceOps.Copies | src/app/resources/page.js:364-377 | one copy per listed child, `path/child` to `newPath/child`, in listing order |
| ResourceOps.RenameFile | src/app/resources/page.js:330-350 | copy first; a failed copy stops before any remove; otherwise the calls are exactly the copy and then the remove of the old key; completion means both succeeded |
| ResourceOps.RenameFolder | src/app/resources/page.js:352-391 | list first; a failed list issues nothing more; a failed copy stops with no remove; an empty listing issues no remove and completes; otherwise the calls are exactly the list, every copy in listing order, then one remove of exactly the old child keys, and the run completes exactly when that remove succeeds |
| ResourceOps.HandleRename | src/app/resources/page.js:318-392 | a cancelled, empty or unchanged name issues nothing; otherwise a file runs exactly RenameFile and a folder exactly RenameFolder, towards the renamed key |
| ResourceOps.HandleDelete | src/app/resources/page.js:467-516 | nothing without confirmation; a file is removed by its key; a folder is listed and then exactly `path/child` is removed for each listed child, completing exactly when that remove succeeds, with no remove for an empty listing or a failed list |
| ResourceOps.ContextMenuTarget | src/app/resources/page.js:298-309 | the menu opens on the entry exactly when the user may manage at the current position |
| ResourceOps.RenameFromMenu | src/app/resources/page.js:298-323 | without permission, rename issues no store call |
| ResourceOps.DeleteFromMenu | src/app/resources/page.js:298-309 | without permission, delete issues no store call |
| ResourceOps.ApplyCopies | src/app/resources/page.js:364-377 | copying present children adds exactly the new child keys to the bucket |
| ResourceOps.FileRenameEffect | src/app/resources/page.js:330-350 | a completed rename moves the key; a failed copy changes nothing; a failed remove leaves both keys, since nothing is rolled back |
| ResourceOps.FolderRenameEffect | src/app/resources/page.js:352-391 | a completed folder rename adds every new child key and removes every old child key |
| ResourceOps.FolderDeleteEffect | src/app/resources/page.js:490-512 | a completed folder delete removes exactly the listed children's keys |
| Events.TimeOptions | src/app/events/page.js:36-43 | 25 labels; the first is `All Day`; label i+1 is hour 12 when i%12 = 0 and i%12 otherwise, with AM exactly when i < 12 |
| Events.HourLabelInjective | src/app/events/page.js:41 | a label determines its hour and its meridiem |
| Events.TimeOptionsDistinct | src/app/events/page.js:36-43 | no two labels are equal |
| Events.TimeOptionsCoverClock | src/app/events/page.js:36-43 | every clock hour 1–12 is offered in both AM and PM |
| Events.MapRow | src/app/events/page.js:279-294 | the id is the decimal string of the row id and the original id is kept; all-day exactly when start_time is falsy; colours default to #3b82f6 (background) and #2563eb (border); the text colour is #ffffff; the description, top-level and in the extended properties, is the row's or else empty, and the extended start time is the row's |
| Events.MappedIdsMatchRowIds | src/app/events/page.js:280-291 | two events have equal calendar ids exactly when their rows have equal ids |
| Events.LoadEvents | src/app/events/page.js:276-294 | rows with a null date are dropped; every event is the mapping of a dated row (`FromDatedRow`), and every dated row's event is present |
| Events.LoadedEventKey | src/app/events/page.js:415 | a loaded event is written and deleted under its row id; only row id 0 (falsy) falls back to the string id |
| Events.DbKeyOf | src/app/events/page.js:415 | `originalId \|\| id`: the numeric row id when it is present and non-zero, the string id otherwise |
| Events.NewDraft | src/app/events/page.js:309-330 | only an administrator or a teacher gets a draft; it is untitled, all-day with start time `All Day`, blue, and its clicked date is its start |
| Events.EditForm | src/app/events/page.js:332-335 | a clicked event is edited as it is: its id, title, description, start, all-day flag, colour, start time and original id carry over, and it has no clicked date |
| Events.FindEvent | src/app/events/page.js:591-593 | `events.find` by id: the first event with the clicked id, or nothing exactly when no event has it |
| Events.ListClickForm | src/app/events/page.js:589-596 | a click in the monthly list edits the page's own event with that id, and selects nothing when there is none |
| Events.ShownTime | src/app/events/page.js:104 | the editor shows the stored start time when it is truthy and `All Day` otherwise |
| Events.SaveDate | src/app/events/page.js:352-354 | the save date is the start, except for a new event without a truthy start, which uses the clicked date |
| Events.StoredStartTime | src/app/events/page.js:375-378 | `All Day` is stored as null; every other shown value is stored as it is |
| Events.ValidateSave | src/app/events/page.js:346-380 | an empty title is refused first, then a missing date; the date is start, or else the clicked date for a new event, and the start for an existing one; `All Day` is stored as a null start time; the saved title, description and colour are the form's |
| Events.DraftSavesAsAllDay | src/app/events/page.js:309-380 | a fresh draft, once titled, saves as an all-day row on the selected date with an empty description, a null start time and the default colour, and maps back to an all-day event |
| Events.AllDayRoundTrip | src/app/events/page.js:375-378 | pick any offered label, save, and map the stored row back: the event is all-day exactly for `All Day`, and the editor shows the label that was picked |
| Events.ApplyUpdate | src/app/events/page.js:429-438 | the length is kept; only events with the selected id change, taking the saved title, description and date, with all-day = !start_time, while keeping their id, colours and extended properties |
| Events.HandleSaveEvent | src/app/events/page.js:342-457 | a refused form writes nothing; a new event is inserted under the user's id and appended once inserted; an edit is written under `originalId \|\| id` and patched locally once updated; a failed write leaves the list unchanged |
| Events.CreatedEventIsAppended | src/app/events/page.js:409 | an inserted event is the new last element, and the elements before it are unchanged |
| Events.DeleteEvent | src/app/events/page.js:472 | exactly the events with the deleted id go; the others remain |
| Events.DeleteEventKeepsOrder | src/app/events/page.js:472 | deletion works piecewise over any split of the list, so order is kept |
| Events.DeleteLoadedEvent | src/app/events/page.js:472 | deleting a loaded event removes the events of that row and of no other row |
| Events.DeleteAllOwn | src/app/events/page.js:493 | exactly the events created by another user remain, each drawn from the list |
| Events.DeleteAllOwnKeepsOrder | src/app/events/page.js:493 | the delete-all filter works piecewise over any split of the list, so order is kept |
| Events.HandleDeleteEvent | src/app/events/page.js:459-483 | the delete key is `originalId \|\| id`; a failed delete changes nothing; a successful one leaves exactly the events of `events` whose id differs from the target's, so the target and every event sharing its id go |
| Events.HandleDeleteAllEvents | src/app/events/page.js:485-496 | a failed RPC changes nothing; on success the list holds exactly the events of `events` created by someone else |
| AdminDashboard.AssignableRolesExcludePending | src/app/admin-dashboard/page.js:11 | the offered roles are exactly student, teacher and admin; pending is never offered |
| AdminDashboard.AdminGuard | src/app/admin-dashboard/page.js:26-48 | no session or no profile → login; any non-admin role → dashboard; only an admin proceeds |
| AdminDashboard.LoadDashboard | src/app/admin-dashboard/page.js:53-75 | pending holds exactly the pending profiles; registered holds exactly the other profiles except the admin's own |
| AdminDashboard.LoadIsConsistent | src/app/admin-dashboard/page.js:53-75 | with unique profile ids, the loaded page has nobody both pending and registered, and no registered user has the pending role |
| AdminDashboard.HandleRoleChange | src/app/admin-dashboard/page.js:83-85 | one selection is set; the other selections and both lists are untouched |
| AdminDashboard.RoleChangeKeepsConsistent | src/app/admin-dashboard/page.js:83-85 | choosing an offered role keeps the page consistent |
| AdminDashboard.FindPending | src/app/admin-dashboard/page.js:103 | `find` returns the first pending row with the id, or nothing exactly when there is none |
| AdminDashboard.HandleAssignRole | src/app/admin-dashboard/page.js:87-120 | without a selection nothing is written and nothing changes; a failed update changes nothing; on success the pending list is exactly the old pending rows with another id, the user is appended to registered with the chosen role if they were pending, and only their selection is dropped |
| AdminDashboard.ApprovalKeepsConsistent | src/app/admin-dashboard/page.js:100-115 | assignment, whatever its outcome, keeps the page consistent |
| AdminDashboard.ApprovedOnce | src/app/admin-dashboard/page.js:103-109 | an approved pending user appears exactly once in the registered list, as its new last row |
| AdminDashboard.HandleDenyUser | src/app/admin-dashboard/page.js:122-158 | a cancelled confirmation does nothing; a failed profile delete issues no RPC and changes nothing; on success exactly that user leaves pending |
| AdminDashboard.DenyIgnoresRpc | src/app/admin-dashboard/page.js:144-154 | the auth-user RPC's outcome never affects the page |
| AdminDashboard.HandleDeleteUser | src/app/admin-dashboard/page.js:160-198 | the same transitions as deny, applied to the registered list |
| AdminDashboard.RemovalKeepsConsistent | src/app/admin-dashboard/page.js:154-194 | deny and delete keep the page consistent |
| Assignments.ListPrefix | src/app/assignments/page.js:43-46 | a student lists their own folder, named by their id; every other role lists the bucket root |
| Assignments.UploadKey | src/app/assignments/page.js:71 | the upload key starts with `id/` and the rest of it is the file name, for every role |
| Assignments.ObjectKey | src/app/assignments/page.js:89-91 | the view/delete key is the upload key for a student and the bare listed name for everyone else |
| Assignments.StudentKeysAgree | src/app/assignments/page.js:44-106 | for a student the view/delete key is the upload key, and it lies in the listed folder |
| Assignments.StudentListing | src/app/assignments/page.js:44-52 | a student's listing shows exactly the names of their own uploads |
| Assignments.RootListingShowsOwners | src/app/assignments/page.js:44-52 | a listing of the bucket root shows exactly the uploaders' folder names |
| Assignments.NonStudentKeysMissUploads | src/app/assignments/page.js:89-109 | for a teacher or administrator, no listed name, used as a key, names an uploaded object |
| Assignments.NonStudentSeesFolderNotFile | src/app/assignments/page.js:104-106 | for any single upload, a non-student sees its owner's folder, and the derived key misses the object |
| Assignments.IntendedListing | src/app/assignments/page.js:44-48 | corrected listing: a student sees exactly their own uploads, anyone else sees every upload |
| Assignments.IntendedKeysHitUploads | src/app/assignments/page.js:89-109 | with the corrected listing every view/delete key names an uploaded object, and a student's key is unchanged |
| Assignments.HandleUpload | src/app/assignments/page.js:65-86 | no file → nothing; otherwise the upload goes to `id/name` for any role; the list is refreshed from the role's prefix only after a success |
| Assignments.AfterUpload | src/app/assignments/page.js:76-84 | without a file or after a failed upload the list is kept; after a success it becomes the re-listing, or empty when that returns nothing |
| Assignments.LocalDelete | src/app/assignments/page.js:99 | exactly the entries with that name go; the others remain |
| Assignments.LocalDeleteKeepsOrder | src/app/assignments/page.js:99 | the local delete keeps the survivors in order |
| Assignments.HandleDeleteFile | src/app/assignments/page.js:89-102 | the remove goes to the role's object key; the list changes only after a successful remove, and then holds exactly the old entries with another name |

## Left out

- Storage, database, authentication and RPC calls. Their answers are parameters (`StoreReplies`, `updateOk`, `inserted`, `rpcOk` and so on). Exceptions thrown by the client are not modelled.
- React state and effects. `fetchResources` is memoised on `[toast]` only, so the `user` and `currentPath` it reads can be stale. ResourceBrowser.FormatListing takes both as explicit parameters and does not model the memoisation.
- The classification of storage error messages into toast texts (src/app/resources/page.js:451-459 and similar), because it depends on foreign error strings. All toast text is omitted.
- `formatFileSize`, because it uses floating-point `log`, `pow` and `toFixed`.
- Date display and `currentMonthEvents` in the events page, because they depend on `Date` parsing and the clock. Dates are opaque strings: in particular, an event clicked in the calendar carries a `Date` object as its `start`, and the model treats it like the stored string.
- Events.EditForm: a click in the calendar hands over the calendar library's event object, not the page's list element. The model assumes that object carries the page's top-level `description`, colour and `extendedProps` unchanged, which the library does not promise; the list-click path (Events.ListClickForm) does hand over the page's own element.
- The calendar library's own event objects. The `setProp` and `setExtendedProp` calls after an update (src/app/events/page.js:442-451) and `event.remove()` change the library's copy, not the page's list, and are not modelled.
- File preview and download through the DOM, signed and public URL construction, and the `assigning`/`deleting`/`uploading` busy flags.
- `Strings.Lower` lower-cases ASCII letters only; `toLowerCase` also folds non-ASCII letters.
- ResourceOps.RenameFolder and ResourceOps.HandleDelete act on the names a listing returns, one level deep, as the source does. Keys nested more deeply under a renamed or deleted folder are neither copied nor removed, and the model does not claim they are.
- ResourceOps.RenameFile, ResourceOps.RenameFolder and ResourceOps.HandleDelete: a completed run is followed by a re-listing of the browsing position (`fetchResources(currentPath)`), which a Run does not include; the calls a Run lists are exactly the rename or delete calls.
- ResourceOps.FolderRenameEffect and ResourceOps.FolderDeleteEffect state the effect of a completed run only. A run that stops part-way is described by RenameFolder's contract, which says which calls were issued.
- Assignments.HandleUpload: the re-listing's contents are an input (Assignments.AfterUpload), not computed from a bucket.

## Findings

| source | as written | input that shows it | evidently intended | confidence | as-written member | corrected member |
|---|---|---|---|---|---|---|
| src/app/assignments/page.js:44-106 | a teacher or administrator lists the bucket root with `list("")`. That listing is one level deep, as the resources page also relies on, so it returns the uploaders' folder names. View and delete then use that bare name as the object key. | student `s1` uploads `hw.pdf` (key `s1/hw.pdf`); a teacher sees the entry `s1` and views or removes the key `s1`, which names no object | teachers and administrators see every uploaded assignment and address it by its full `owner/name` key | medium; not executed, and depends on the storage listing being non-recursive | Assignments.NonStudentKeysMissUploads, Assignments.TeacherViewExample | Assignments.IntendedListing, Assignments.IntendedKeysHitUploads |
