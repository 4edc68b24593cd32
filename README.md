# Admin console tables, modelled in Dafny

The admin console has two management tables. The **user table** loads user
accounts, lets the operator put a row into inline edit mode, type into its
fields, save or cancel, delete rows after a confirmation, and add users
through a form. The **video table** loads video records from a loosely typed
payload and gives every missing or falsy property a default. It deletes
records after a confirmation and downloads a video's report under a file name
made from the title. Its status rules decide the badge colour and whether the
download button is enabled.

Each handler is modelled as one atomic transition on the component's state:

- the user table's state is `users`, `newUser`, `showAddForm` and `loading`;
- the video table's state is `videos` and `loading`.

The transitions live in the classes `Users.UserTable` and `Videos.VideoTable`.
Each one is specified by pure list functions (`BeginEdit`, `ReplaceSaved`,
`NormalizeAll`, …), and the lemmas state the properties of those functions.

What the code cannot see is passed in as parameters:

- every server reply is a `Response<T>` (`Ok(data)` or `Err`);
- the answer to `confirm()` is a `bool`;
- `Date.now()` is `now`;
- the translated placeholder title is `untitled`.

Mounting the user table is the constructor followed by `FetchUsers`, the
effect that runs once (Users.tsx:37-39). The video table has no such effect:
it starts empty, and `FetchVideos` runs only when the refresh button is
pressed (Videos.tsx:84).

`Videos.Or` models JavaScript's `x || d` for one property, with `Videos.Truthy`
as ECMAScript's ToBoolean. They are specified by `Videos.NormalizeDefaults` and
`Videos.NormalizePassesThrough`, which state each default against the concrete
missing and falsy values.

A notification is represented by the translation key it shows. The handlers
that send a write or a report request (`HandleUpdate`, both `HandleDelete`s,
`HandleAddUser`, `SubmitAddForm`, `HandleDownloadReport` and `ClickDownload`)
return that request. The two list fetches, GET `/users` and GET
`/dashboard/videos`, are not returned: each fetch method takes the reply alone.

Files:

- `api.dfy`: replies, options and toasts.
- `rows.dfy`: removing rows by key, which both tables do.
- `users.dfy`: `src/components/Admin/Users.tsx`.
- `videos.dfy`: `src/components/Admin/Videos.tsx`.

Three behaviours of the code are worth stating outright:

- **Failed user fetch.** `fetchUsers` empties the list without raising a
  notification (Users.tsx:30-31). Only the video fetch raises a toast
  (Videos.tsx:37-39).
- **Cancelling the add form.** The form's cancel button only hides the form
  and keeps the draft as typed (Users.tsx:165, `Users.UserTable.CloseAddForm`).
- **Single edited row.** Beginning an edit flags every row whose id matches
  (Users.tsx:41-46). With unique ids that is exactly one row; two rows that
  share an id both enter edit mode (`Users.BeginEditSharedId`). So the
  handlers keep "at most one row editing" only when ids are unique.

## Model

| member | source | states |
|---|---|---|
| Users.Row | src/components/Admin/Users.tsx:29 | a fresh row is the server record, unchanged, with the edit flag off |
| Users.Load | src/components/Admin/Users.tsx:29 | a loaded list has the reply's length and order; every row is its record with the edit flag off |
| Users.LoadAppend | src/components/Admin/Users.tsx:87 | appending a fresh row gives the table that loading the longer reply would give |
| Users.BeginEdit | src/components/Admin/Users.tsx:41-46 | length and every non-flag field are kept; a row is editing exactly when its id equals the chosen id |
| Users.BeginEditCount | src/components/Admin/Users.tsx:41-46 | the number of editing rows equals the number of rows that carry the id |
| Users.BeginEditSingle | src/components/Admin/Users.tsx:41-46 | with unique ids, at most one row is editing afterwards, and exactly one when the id is present |
| Users.BeginEditSharedId | src/components/Admin/Users.tsx:41-46 | two rows sharing an id both enter edit mode, so the single-edit rule needs unique ids |
| Users.AtMostOneEditingPairwise | src/components/Admin/Users.tsx:41-46 | the counted invariant is equivalent to "no two rows are editing" |
| Users.CancelEdit | src/components/Admin/Users.tsx:48-50 | length and every non-flag field (typed text included) are kept; no row is editing |
| Users.CancelEditIdempotent | src/components/Admin/Users.tsx:48-50 | cancelling twice equals cancelling once |
| Users.CancelAfterBeginEdit | src/components/Admin/Users.tsx:41-50 | beginning an edit and then cancelling leaves what cancelling alone leaves |
| Users.CancelKeepsTypedText | src/components/Admin/Users.tsx:48-50 | cancel does not undo inline edits: cancel after an edit equals the edit applied to the cancelled rows |
| Users.ReplaceSaved | src/components/Admin/Users.tsx:60-62 | length is kept; rows with the saved id become the server's record with the flag off; all other rows are unchanged |
| Users.ReplaceSavedCount | src/components/Admin/Users.tsx:60-62 | saving removes exactly the editing rows that carry the id from the editing count |
| Users.SaveExitsEditMode | src/components/Admin/Users.tsx:60-62 | saving the one row being edited leaves no row in edit mode |
| Users.Apply | src/components/Admin/Users.tsx:204-229 | an inline edit sets its own field; id, flag and the other two fields are unchanged |
| Users.EditRow | src/components/Admin/Users.tsx:204-229 | length is kept; the edit reaches the rows with the given id and no other row |
| Users.EditRowCount | src/components/Admin/Users.tsx:204-229 | inline edits keep every row's edit flag, and so the number of editing rows |
| Users.RemoveUser | src/components/Admin/Users.tsx:75 | no remaining row carries the deleted id |
| Users.RemoveUserSpec | src/components/Admin/Users.tsx:75 | no row keeps the id; the list is unchanged when no row has the id; the filter distributes over concatenation (order kept); with unique ids a present id costs exactly one row |
| Users.RemoveUserCount | src/components/Admin/Users.tsx:75 | deleting never adds an editing row |
| Users.ApplyDraft | src/components/Admin/Users.tsx:125-155 | a form change sets its own draft field and leaves the other three unchanged |
| Users.UserTable.constructor | src/components/Admin/Users.tsx:15-23 | empty list, not loading, form hidden, empty draft with role user |
| Users.UserTable.FetchUsers | src/components/Admin/Users.tsx:25-35 | on success the list is the loaded reply, on failure it is empty; either way no row is editing, loading is false, and the form and draft are untouched |
| Users.UserTable.HandleEdit | src/components/Admin/Users.tsx:41-46 | the list becomes BeginEdit of the old list; with unique ids at most one row is editing; nothing else changes |
| Users.UserTable.HandleCancelEdit | src/components/Admin/Users.tsx:48-50 | the list becomes CancelEdit of the old list, no row is editing, nothing else changes |
| Users.UserTable.HandleFieldChange | src/components/Admin/Users.tsx:204-229 | the list becomes EditRow of the old list, the editing count is kept, nothing else changes |
| Users.UserTable.HandleUpdate | src/components/Admin/Users.tsx:52-68 | sends the row's id, username, email and role; on success installs ReplaceSaved and toasts success; on failure the list is unchanged and the error is toasted; at most one editing row is preserved |
| Users.UserTable.HandleDelete | src/components/Admin/Users.tsx:70-80 | a declined confirmation sends nothing and changes nothing; otherwise it sends the delete, filters the id out on success, keeps the list on failure, and toasts each outcome |
| Users.UserTable.HandleAddUser | src/components/Admin/Users.tsx:82-94 | sends the draft; on success appends one fresh row at the end, closes the form and resets the draft; on failure leaves list, form and draft as they were |
| Users.FormAccepts | src/components/Admin/Users.tsx:119-149 | any draft whose password is shorter than six characters is refused, the untouched form included |
| Users.UserTable.SubmitAddForm | src/components/Admin/Users.tsx:119-149 | a draft that fails the required and minLength constraints never reaches the handler, sends nothing, toasts nothing and changes nothing; an accepted one sends the draft and has HandleAddUser's new state and toast for each reply; at most one editing row is preserved |
| Users.UserTable.OpenAddForm | src/components/Admin/Users.tsx:109 | shows the form, keeps the draft and the list |
| Users.UserTable.CloseAddForm | src/components/Admin/Users.tsx:165 | hides the form, keeps the draft as typed and the list |
| Users.UserTable.EditDraft | src/components/Admin/Users.tsx:125-155 | the draft becomes ApplyDraft of the old draft; nothing else changes |
| Rows.Without | src/components/Admin/Videos.tsx:51 | the result is no longer than the input; every kept row is from the input and lacks the key; every input row without the key is kept |
| Rows.WithoutAppend | src/components/Admin/Videos.tsx:51 | filtering distributes over concatenation, so the kept rows stay in their original order |
| Rows.WithoutAbsent | src/components/Admin/Users.tsx:75 | when no row carries the key, the list is unchanged |
| Rows.WithoutLength | src/components/Admin/Users.tsx:75 | the length drops by exactly the number of rows carrying the key |
| Videos.Normalize | src/components/Admin/Videos.tsx:20-31 | the id is kept; status and resolution are never empty; with a non-empty placeholder the title is never empty |
| Videos.NormalizeAll | src/components/Admin/Videos.tsx:19-32 | same number and order of records; each output is the normalised raw record and has the raw id |
| Videos.NormalizeAllAppend | src/components/Admin/Videos.tsx:19-32 | normalising a concatenation normalises each part |
| Videos.NormalizeDefaults | src/components/Admin/Videos.tsx:21-31 | each property that is missing, `null`, `""` or `0` (for the date also the empty text) takes its default: placeholder title, 0, "pending", "", the current time, "Unknown"; the tags fall back to [] only when missing or `null` |
| Videos.NormalizePassesThrough | src/components/Admin/Videos.tsx:20-31 | the id, every non-empty string, non-zero number and non-falsy date, and any present tag list (the empty one included) pass through unchanged |
| Videos.NormalizeFixedPoint | src/components/Admin/Videos.tsx:19-32 | a normalised row fed back as a raw record normalises to itself, for any second clock reading, when the first was not 0 |
| Videos.MissingStatusIsPending | src/components/Admin/Videos.tsx:23 | a record without a status shows the pending badge and cannot be downloaded |
| Videos.RemoveVideo | src/components/Admin/Videos.tsx:51 | no kept row has the id; every kept row is from the input; every row with another id is kept |
| Videos.Underscored | src/components/Admin/Videos.tsx:67 | the sanitised title has no whitespace, is no longer than the title, and is empty exactly when the title is |
| Videos.UnderscoredRun | src/components/Admin/Videos.tsx:67 | a maximal whitespace run becomes exactly one underscore, and the text on each side is sanitised on its own |
| Videos.UnderscoredAppend | src/components/Admin/Videos.tsx:67 | sanitising splits at any point that is not inside a whitespace run |
| Videos.UnderscoredIdentity | src/components/Admin/Videos.tsx:67 | a title without whitespace is left as it is |
| Videos.UnderscoredIdempotent | src/components/Admin/Videos.tsx:67 | sanitising twice equals sanitising once |
| Videos.UnderscoredVisible | src/components/Admin/Videos.tsx:67 | all characters other than whitespace and underscores survive, in order, and none is added |
| Videos.ReportFileName | src/components/Admin/Videos.tsx:67 | the name has no whitespace, ends with `_report.json`, and equals title + `_report.json` when the title has no whitespace |
| Videos.ReportFileNameStable | src/components/Admin/Videos.tsx:67 | sanitising the file name again changes nothing |
| Videos.ShownBadge | src/components/Admin/Videos.tsx:130-136 | the badge of a shown row is success when the raw status is "completed", error when it is "error", and pending otherwise, a missing, `null` or empty status included |
| Videos.DownloadEnabled | src/components/Admin/Videos.tsx:147 | the download button is enabled exactly for the rows with the success badge |
| Videos.DownloadTitleKey | src/components/Admin/Videos.tsx:149 | the tooltip offers the download exactly when the button is enabled, and otherwise says processing is not complete |
| Videos.VideoTable.constructor | src/components/Admin/Videos.tsx:11-12 | empty list, not loading |
| Videos.VideoTable.FetchVideos | src/components/Admin/Videos.tsx:15-42 | on success the list is the normalised reply with no toast; on failure the list is empty and the error is toasted; loading is false either way |
| Videos.VideoTable.HandleDelete | src/components/Admin/Videos.tsx:44-57 | a declined confirmation sends nothing and changes nothing; otherwise it sends the delete, filters the id out on success, keeps the list on failure, and toasts each outcome |
| Videos.VideoTable.HandleDownloadReport | src/components/Admin/Videos.tsx:59-78 | requests the report; on success offers a download named ReportFileName(title) and toasts success; on failure offers nothing and toasts the error; the table's state is not touched |
| Videos.VideoTable.ClickDownload | src/components/Admin/Videos.tsx:145-149 | a disabled button sends, offers and toasts nothing; an enabled one behaves as HandleDownloadReport on the row's id and title; every offered download belongs to a completed video |

## Left out

- HTTP, toasts, `confirm()`, `t()` and the clock are not modelled as
  behaviour. Their results are parameters, and toasts are recorded by key.
  `console.error` is not modelled.
- Users.UserTable.SubmitAddForm is weaker than the browser's validation in
  two ways. It does not model the email-syntax check of `type="email"`. It
  counts `minLength` in Unicode scalar values, where the browser counts UTF-16
  code units.
- Users.UserTable.FetchUsers: `loading` goes true and back to false within one
  atomic step. So the refresh button that is disabled while a request is
  pending is not modelled.
- Stale closures are not modelled. The handlers read `users` and `videos` as
  they were at render time, so interleaved requests could overwrite each
  other. The model runs each handler sequentially and atomically.
- Raw video properties are typed by the kind of value they should hold. These
  cases are not modelled:
  - ill-typed values, such as a numeric filename or a string duration;
  - NaN;
  - a missing id;
  - a reply that is not an array;
  - a `null` element in the reply, which throws inside the map and ends in the
    catch branch.
- A role other than `admin` or `user` is not modelled. The role is a
  two-valued type.
- The `Date` built by `new Date(...)` is opaque. The model keeps only the
  argument, a timestamp or `now`. It uses one `now` for the whole reply.
- Videos.VideoTable.HandleDownloadReport does not model the report body's
  `JSON.stringify(data, null, 2)` formatting; the download carries the reply as
  received. It also leaves out creating and revoking the Blob and object URL,
  and the anchor click.
- `formatDuration` is not modelled, because its module is not part of this
  model. Also left out: date formatting, JSX rendering, animations, styling,
  and the role badge's colours.
- src/components/Layout/Sidebar.tsx, src/pages/Admin.tsx and vite.config.ts
  are not part of this model. They contain concurrent fetches, local storage,
  routing, locale switching and build configuration.
