# VMBook journal service: a Dafny model of its core

VMBook's back end stores users, their devices, journals, photos and text
entries. It lists them with filters and pages, counts a user's activity
per day, and composes a journal from selected photos with two language
services. A vision service captions every photo that has no description,
and a text-generation service writes the journal.

This project models two parts of that back end:

- the helpers in `app/api/functions.py`:
  - `get_title_from_journal`;
  - the URL-to-file rewrite and answer extraction of `describe_image`;
  - `generate_journal_func`;
- the request handlers of the v1 router in `app/api/endpoints_v1.py`:
  `create_user`, `update_user`, `get_user_activities`, `get_user_journals`,
  `update_user_journal`, `generate_journal`, `get_user_photos`, and the URL
  that `create_user_photo` builds.

The handlers work over an in-memory store, the class
`EndpointsV1.Store`. It holds one map per table, keyed by row id.

Modules, by file:

- `wrappers.dfy`: `Option` and `Result`.
- `pystr.dfy`: the Python `str` operations the code uses — `find`,
  `split`, `strip`, `replace(pat, "")`, `pat in s` and `join` — with
  Python's meaning.
- `purepaths.dfy`: the POSIX `pathlib` operations `describe_image` uses —
  parsing, `str()`, `parent`, `relative_to("/")` and `/`.
- `records.dfy`: the table rows, the partial-update field `Patch`
  (`Keep` = not sent, `Set(v)` = sent, where `Set(None)` is an explicit
  null), and the error outcomes:
  - `HttpError(status, detail)` for an `HTTPException`;
  - `ValidationError` for FastAPI's 422 on query bounds;
  - `ServerError` for an uncaught exception or a failed commit, which
    gives 500 and rolls back.
- `functions.dfy`: the helpers of `app/api/functions.py`.
- `listing.dfy`: the generic query pipeline — filter, order by a
  timestamp, offset/limit window — and the scan of a table.
- `activity.dfy`: the per-day histogram and the dictionary-count loop
  that builds it.
- `endpoints_v1.dfy`: the handlers and the `Store` class.

Neither service is modelled; each is a function parameter.

- The vision service maps a local file to the list of content texts in
  its answer.
- The text-generation service maps the entry list to `NoOutput` or
  `Output(text)`.

The following are parameters as well:

- the password hasher;
- the clock (`now`);
- the ids the database or `uuid4` would draw;
- `STATIC_SERVER` and `STATIC_PATH`.

A listing reads a table in the order the database scans it. The listing
functions take that order as a `seq` of rows. The `Store` methods
`GetUserJournals` and `GetUserPhotos` draw it from their own maps with
`Listing.ScanKeys`, which yields every key once.

The database is MySQL: journal and photo descriptions and entry contents
use its type `LONGTEXT` (`database/database.py:7`, `:80`, `:100`, `:122`).
A string column with `max_length=255`, or with no width at all (`bio`), is
`VARCHAR(255)` there.
MySQL's default strict mode refuses a longer value when the row is
committed. The model checks the width of every text it writes to such a
column: `username`, `email`, `password_hash`, `profile_picture_url`, `bio`
and the journal `title`. A value that is too long gives 500 and stores
nothing. A journal `description` is `LONGTEXT` and has no width.

The handlers behave as follows, some of it in ways a reader may not expect:

- The title `get_title_from_journal` returns is the first line with its
  `#` runs cut off. It is not whitespace-stripped, and there is no
  fallback title. For `"intro junk\n# My Title\nBody text"` the title is
  `" My Title"` (`Functions.ExtractionExample`).
- When the generation service gives no output, `generate_journal_func`
  returns the fixed pair ("Failed Entry", "Failed to generate journal.").
  This pair is stored as a normal journal, not reported as an error.
- When the generation service gives output, `generate_journal_func` ends
  without a `return`. Unpacking its `None` then fails, so the request
  gives 500.
- An empty photo list is not rejected. The generation service is still
  called, with no entries.
- A body without `"photo_ids"` does not reach the 400 "No photos
  selected" branch. `dict.get` returns `None` rather than raising
  `KeyError`, and `in_(None)` then fails with 500.
- The photo selection of `generate_journal` has no owner filter. Any
  stored photo with a listed id is used.
- The device lookup of `get_user_photos` is not owner-filtered either. It
  takes the first device with that name in scan order.
- A journal update that sends `description: null` fails in `.find` (500).
  One that sets `starred` to null, or `title` to null without a
  `description`, fails at the NOT NULL constraint (500). A null `title`
  sent together with a description is replaced by the title derived from
  the description (`EndpointsV1.NullTitleReplaced`).
- `time_modified` is bumped only when the update changes some column.
- A photo that receives a caption during `generate_journal` is stored
  with it, and its `time_modified` is bumped. This holds only when the
  commit succeeds.
- A description with no `#` and no newline that is longer than 255
  characters gives a title that does not fit. The update then fails with
  500 (`EndpointsV1.LongLineRefused`). In general it is the derived title,
  not the first line, that must fit.

## Model

| member | source | states |
|---|---|---|
| PyStr.Find | app/api/functions.py:119 | `s.find(c)`: -1 exactly when `c` is absent, otherwise a position holding `c` with no `c` before it |
| PyStr.Split | app/api/functions.py:124 | `s.split(sep)`: at least one piece, no piece contains `sep`, joining the pieces with `sep` gives `s` back, and the first piece is the text before the first `sep` |
| PyStr.SplitJoin | app/api/functions.py:124 | splitting undoes joining when no part contains the separator |
| PyStr.StripShape | app/api/functions.py:124 | `strip(c)` keeps a contiguous middle part of `s`, and only `c` characters surround it |
| PyStr.LStrip | app/api/functions.py:124 | the leading half of `strip(c)`: a suffix of `s` that does not start with `c`, and only `c` precedes it |
| PyStr.RStrip | app/api/functions.py:124 | the trailing half of `strip(c)`: a prefix of `s` that does not end with `c`, and only `c` follows it |
| PyStr.RemoveLeading | app/api/functions.py:30 | `replace(pat, "")` removes a leading `pat` when `pat` does not occur again in the rest |
| PyStr.FirstPiece | app/api/functions.py:124 | `s.split(sep)[0]`: a prefix of `s` without `sep`, followed in `s` by `sep` or by nothing; all of `s` when `sep` is absent |
| PyStr.Strip | app/api/functions.py:124 | `strip(c)`: no longer than `s`, and neither starts nor ends with `c` |
| PyStr.RemoveAll | app/api/functions.py:30 | `replace(pat, "")` is no longer than `s`, and an empty `pat` leaves `s` unchanged; for a non-empty `pat` what it removes is fixed by `PyStr.RemoveFirst` and `PyStr.RemoveAbsent` |
| PyStr.RemoveKeepsCharacters | app/api/functions.py:30 | removal adds nothing: every character left comes from `s` |
| PyStr.RemoveFirst | app/api/functions.py:30 | the scan removes the leftmost occurrence of a non-empty `pat`: the text before it is kept and removal goes on after it |
| PyStr.RemoveAbsent | app/api/functions.py:30 | removing a pattern that does not occur leaves the text unchanged |
| PurePaths.Parse | app/api/functions.py:31 | `PurePosixPath(s)`: every part is non-empty, not "." and free of `/`; the path is relative exactly when `s` is empty or does not start with `/` |
| PurePaths.Components | app/api/functions.py:31 | every part of a path text is non-empty, not "." and free of `/` |
| PurePaths.ComponentsOfJoin | app/api/functions.py:31 | the parts of the slash-joined pieces are exactly the kept pieces, so with `PurePaths.KeepPartsConcat` and `PurePaths.KeepPartsOne` every non-empty, non-"." piece is kept, in order |
| PurePaths.KeepPartsConcat | app/api/functions.py:31 | keeping parts distributes over concatenation of the piece lists |
| PurePaths.KeepPartsOne | app/api/functions.py:31 | a single piece is kept exactly when it is non-empty and not "." |
| PurePaths.ComponentsExample | app/api/functions.py:31 | `"a//./b"` has exactly the parts `"a"` and `"b"` |
| PurePaths.Format | app/api/functions.py:31 | `str(p)` is never empty |
| PurePaths.ParseFormat | app/api/functions.py:31 | printing a well-formed path of any root (none, `/` or `//`) and parsing the text gives the path back |
| PurePaths.FormatDot | app/api/functions.py:31 | a well-formed path prints as "." exactly when it is the empty relative path |
| PurePaths.Parent | app/api/functions.py:31 | `.parent` keeps the root and drops exactly the last part; a path without parts is its own parent |
| PurePaths.RelativeToSlash | app/api/functions.py:31 | `relative_to("/")` is defined exactly when the root is exactly `/`, and then gives the same parts without a root |
| PurePaths.Append | app/api/functions.py:31 | `base / s` for a relative `s` keeps the root of `base` and appends the parts of `s` |
| PurePaths.ParseFormatRelative | app/api/functions.py:31 | formatting a relative path and parsing it back gives the same path |
| PurePaths.ParseAbsolute | app/api/functions.py:31 | the text `/a/b/...` of parts that are non-empty, not "." and free of `/` parses to the path with root `/` and exactly those parts |
| Functions.GetTitleFromJournal | app/api/functions.py:118-125 | without `#` the body is the input; with `#` the body is the input's suffix that starts at its first `#`; the title has no newline and neither starts nor ends with `#` |
| Functions.TitleIsStrippedFirstLine | app/api/functions.py:124 | the title is the body's first line with its `#` runs stripped from both ends; no whitespace stripping and no fallback |
| Functions.ExtractionIdempotent | app/api/functions.py:119-125 | extracting again from the returned body gives the same title and body |
| Functions.HeadingAfterPreamble | app/api/functions.py:119-124 | a `#`-free preamble before a heading line is dropped; the title is that heading with its `#` runs stripped |
| Functions.ExtractionExample | app/api/functions.py:118-125 | the concrete case: the preamble is dropped and the space after `#` stays in the title |
| Functions.GenerateJournalFunc | app/api/functions.py:110-115 | no output yields exactly the pair ("Failed Entry", "Failed to generate journal."); any output yields `None` |
| Functions.ImageLocalPath | app/api/functions.py:30-31 | the step fails exactly when the URL, with every static-server occurrence removed, parses to a root other than exactly `/`; otherwise the result is the text of the path whose root and leading parts are those of `parent(STATIC_PATH)`, followed by the parts of the stripped URL |
| Functions.DoubleSlashRefused | app/api/functions.py:31 | the URL `//a` has the root `//`, so the rewrite fails for it although it starts with `/` |
| Functions.FirstText | app/api/functions.py:46-50 | the first content text when there is one, otherwise "Failed to describe image." |
| Functions.DescribeImage | app/api/functions.py:30-50 | fails exactly when the path rewrite fails; otherwise the vision answer's first text for the rewritten path, or the failure text when the answer is empty |
| EndpointsV1.CreateUserResult | app/api/endpoints_v1.py:103-113 | 400 "Email already registered" exactly when the email is in use; every other failure is 500; success exactly when username and email are non-null, the email is free, username, email and password hash fit 255 characters and the id is new; the new row carries the password's hash, is active, has no login time and fits its columns |
| EndpointsV1.CreateUserKeepsEmailsUnique | app/api/endpoints_v1.py:104-105 | a successful create keeps emails unique across users |
| EndpointsV1.Store.CreateUser | app/api/endpoints_v1.py:103-113 | the store method returns `CreateUserResult`, inserts the row only on success and leaves the other tables alone |
| EndpointsV1.ApplyUserUpdate | app/api/endpoints_v1.py:150-154 | fails (500) exactly when a NOT NULL field or the password is sent as null, or a sent text (the password as its hash) is longer than its 255-character column; a row that fitted still fits |
| EndpointsV1.UserLoopIsFieldwise | app/api/endpoints_v1.py:150-154 | the `setattr` loop over the sent fields, in declaration order, ends in the field-by-field result |
| EndpointsV1.SetUserFields | app/api/endpoints_v1.py:150-154 | the loop over the sent user fields yields the left fold of the field assignments, stopping at the first failing one |
| EndpointsV1.UpdateUserResult | app/api/endpoints_v1.py:144-158 | 404 exactly for an unknown user; fields not sent keep their value; sent fields take the sent value, the password as its hash; id, creation and login times never change; success exactly when the patch succeeds and its email is no other user's; a row that fitted still fits |
| EndpointsV1.UpdateUserKeepsEmailsUnique | app/api/endpoints_v1.py:150-156 | a successful update keeps emails unique |
| EndpointsV1.EmptyUserUpdate | app/api/endpoints_v1.py:150-154 | an update that sends nothing returns the stored row unchanged |
| EndpointsV1.Store.UpdateUser | app/api/endpoints_v1.py:144-158 | runs the field loop over the stored row and commits; the outcome is `UpdateUserResult`; the users table changes only on success and the other tables not at all |
| EndpointsV1.JournalItemsKeys | app/api/endpoints_v1.py:367-371 | the keys of `update_data`: a null description fails (500) in `.find`, and nothing else fails; one key per field sent, plus a `title` key that a sent description adds; with a sent title the derived title comes first and the body last; without one the body comes just before the derived title, at the end; no description key unless one was sent |
| EndpointsV1.ApplyJournalUpdate | app/api/endpoints_v1.py:367-374 | fails exactly on a null description, a null starred, a null or too long title without a description, or a description whose derived title is longer than 255 characters; a sent description stores the pair `get_title_from_journal` returns; fields not sent are unchanged; ids and timestamps are untouched; a journal that fitted still fits |
| EndpointsV1.JournalLoopIsFieldwise | app/api/endpoints_v1.py:367-374 | the `setattr` loop over the sent fields, title re-derived from the description, ends in `ApplyJournalUpdate`'s row |
| EndpointsV1.SetJournalFields | app/api/endpoints_v1.py:373-374 | the loop yields the left fold of the field assignments |
| EndpointsV1.Touched | app/api/endpoints_v1.py:376 | the commit's `onupdate`: an unchanged row stays identical; a changed row gets `time_modified = now` and is otherwise the new row |
| EndpointsV1.UpdateJournalResult | app/api/endpoints_v1.py:357-379 | 404 "User not found" exactly for an unknown user; 404 "Journal not found" exactly when that user owns no such journal; 500 exactly when the patch fails; otherwise the patched row, with `time_modified` bumped only on a change; a journal that fitted still fits |
| EndpointsV1.LongLineRefused | app/api/endpoints_v1.py:367-377 | a description without `#` whose first and only line is over 255 characters fails with 500 |
| EndpointsV1.NullTitleReplaced | app/api/endpoints_v1.py:369-374 | a null `title` sent with a description whose derived title fits succeeds, and the stored title is the derived one |
| EndpointsV1.JournalUpdateNoChange | app/api/endpoints_v1.py:367-377 | an update that sends nothing returns a stored journal that fits its columns unchanged |
| EndpointsV1.Store.UpdateUserJournal | app/api/endpoints_v1.py:357-379 | returns `UpdateJournalResult`; the journals table changes only on success and the other tables not at all |
| Activity.Histogram | app/api/endpoints_v1.py:168-179 | one item per distinct day in first-seen order, each counting that day's occurrences |
| Activity.HistogramShape | app/api/endpoints_v1.py:168-179 | distinct dates; every count at least 1; a day is listed exactly when it occurs |
| Activity.HistogramSum | app/api/endpoints_v1.py:168-179 | the counts sum to the number of records |
| Activity.CountOfConcat | app/api/endpoints_v1.py:169-175 | counting over the three tables is the sum of the per-table counts |
| Activity.CountDays | app/api/endpoints_v1.py:173-175 | the dictionary loop: keys are exactly the days seen, each with its count, in insertion order |
| Activity.Tally | app/api/endpoints_v1.py:168-179 | the dictionary loop and the response loop together give exactly the histogram |
| Activity.UserDays | app/api/endpoints_v1.py:172-174 | one day per row the user owns; each day occurs as often as the user owns rows created that day |
| EndpointsV1.Store.GetUserActivities | app/api/endpoints_v1.py:163-180 | 404 exactly for an unknown user; distinct dates; each count at least 1 and equal to the user's journals, photos and entries created that day; a day is listed exactly when it has one; counts sum to the user's record total |
| Listing.Filter | app/api/endpoints_v1.py:296-314 | the rows satisfying the predicate, nothing else, drawn from the input; each kept row as often as the input has it |
| Listing.Sort | app/api/endpoints_v1.py:316-317 | ordered by the key in the chosen direction; a permutation of the input |
| Listing.Window | app/api/endpoints_v1.py:318 | `offset`/`limit`: at most `limit` rows, the ones starting at position `offset` |
| Listing.WindowPages | app/api/endpoints_v1.py:318 | consecutive pages concatenate to the page that spans both |
| Listing.WindowSorted | app/api/endpoints_v1.py:316-318 | a window of ordered rows is ordered |
| Listing.ScanKeys | app/api/endpoints_v1.py:296 | a table scan yields every key once |
| EndpointsV1.ListUserJournals | app/api/endpoints_v1.py:256-320 | 422 exactly when `limit` is outside 1..100 or `offset` is negative; then 404 exactly for an unknown user; otherwise at most `limit` rows, each an input row of that user, starred when `starred` is true, `time_modified` inside the inclusive date bounds, description containing `contains`; ordered by `sortby`, ascending only for "asc" |
| EndpointsV1.ListUserJournalsComplete | app/api/endpoints_v1.py:296-318 | a first page at least as large as the matches returns every matching row |
| EndpointsV1.ListUserJournalsWindow | app/api/endpoints_v1.py:316-318 | a valid request returns exactly the window `[offset, offset+limit)` of the user's matching journals in the requested order, so by `Listing.WindowPages` adjacent pages tile the result |
| EndpointsV1.JournalPageStored | app/api/endpoints_v1.py:296-318 | over a scan of the journals table, a page lists no journal twice, and every journal in it is stored and matches the query |
| EndpointsV1.JournalPageComplete | app/api/endpoints_v1.py:296-318 | over a scan, a first page at least as large as the matches lists every stored journal that matches |
| EndpointsV1.Store.GetUserJournals | app/api/endpoints_v1.py:255-320 | scans the journals table once per key and answers `ListUserJournals` over that scan: no journal twice, each stored and matching, and a large enough first page complete |
| Listing.WindowSub | app/api/endpoints_v1.py:318 | a page takes no row more often than the input has it |
| Listing.PageDistinct | app/api/endpoints_v1.py:316-318 | filtering, ordering and paging rows without repeats gives a page without repeats |
| EndpointsV1.FirstDeviceNamed | app/api/endpoints_v1.py:567 | `.first()` of the devices with that name: -1 exactly when there is none, otherwise the first such position |
| EndpointsV1.DeviceFilter | app/api/endpoints_v1.py:565-569 | a device name filters on a device id exactly when it is non-empty and names a device, and the id is that of the first such device |
| EndpointsV1.OrderedPhotos | app/api/endpoints_v1.py:554-578 | before the page is cut: exactly the input photos that match, ordered by the sort key in the requested direction |
| EndpointsV1.ListUserPhotos | app/api/endpoints_v1.py:517-581 | 422 on page bounds; 404 for an unknown user; 404 "Device not found" exactly when a non-empty device name matches no device; otherwise at most `limit` of the user's matching photos, ordered by `sortby` |
| EndpointsV1.ListUserPhotosDevice | app/api/endpoints_v1.py:565-571 | with a device name given, every result has the first device of that name as its device |
| EndpointsV1.ListUserPhotosWindow | app/api/endpoints_v1.py:577-579 | a successful request returns exactly the window `[offset, offset+limit)` of the user's matching photos (device filter included) in the requested order |
| EndpointsV1.PhotoPageStored | app/api/endpoints_v1.py:554-581 | over a scan of the photos table, a page lists no photo twice, and every photo in it is stored and the user's |
| EndpointsV1.PhotoPageDevice | app/api/endpoints_v1.py:565-571 | over a scan of the devices table, a device filter means a stored device has that name and every photo on the page has its id |
| EndpointsV1.DeviceNamedStored | app/api/endpoints_v1.py:567 | a scan of the devices table has a device of a name exactly when the table has one |
| EndpointsV1.Store.GetUserPhotos | app/api/endpoints_v1.py:516-581 | scans the devices and photos tables once per key and answers `ListUserPhotos` over those scans: 404 "Device not found" exactly when no stored device has the name; no photo twice, each stored and the user's; with a device name, all on one stored device of that name |
| EndpointsV1.UniqueFilename | app/api/endpoints_v1.py:601 | `{uuid4()}_{filename}`: the token, `_`, then the client's file name; a single path part exactly when neither contains `/` |
| EndpointsV1.PhotoUrl | app/api/endpoints_v1.py:607 | the URL is `STATIC_SERVER`, then `/`, then `static/images/{user_id}/{name}` joined with `/` |
| EndpointsV1.PhotoUrlLocalPath | app/api/endpoints_v1.py:601-607 | for a URL built by `create_user_photo` from a token and file name without `/`, `describe_image` reads `parent(STATIC_PATH)/static/images/{user_id}/{token}_{filename}` |
| EndpointsV1.Caption | app/api/endpoints_v1.py:479-480 | a photo with a non-empty description keeps it; one without is captioned by `describe_image`; the caption is missing exactly when one was needed and the rewrite fails |
| EndpointsV1.CollectEntries | app/api/endpoints_v1.py:477-482 | fails exactly when some needed caption fails; otherwise one entry per selected photo, in order, of type "image", with the photo's time, url and (possibly new) description, and the photo rows with that description |
| EndpointsV1.SelectionOfScan | app/api/endpoints_v1.py:475 | filtering the scan by the listed ids and ordering by creation time is a valid selection |
| EndpointsV1.Store.SelectPhotos | app/api/endpoints_v1.py:475 | exactly the stored photos whose ids are listed, each once, in ascending creation time |
| EndpointsV1.EntriesInTimeOrder | app/api/endpoints_v1.py:475-482 | entries built from photos in creation order are in creation order |
| EndpointsV1.CaptionsStored | app/api/endpoints_v1.py:480 | writing the captioned rows back changes exactly the selected photos, each to its captioned and touched row |
| EndpointsV1.PhotoTouched | app/api/endpoints_v1.py:480 | a photo row after the commit: unchanged when its caption did not change it; otherwise the new row with `time_modified` set to `now` |
| EndpointsV1.GeneratedCommitValid | app/api/endpoints_v1.py:484-491 | storing a fitting journal under its id and photo rows under their ids keeps every table keyed by row id, every text within its width and emails unique |
| EndpointsV1.Store.CommitGenerated | app/api/endpoints_v1.py:484-491 | succeeds exactly when the service gives no output and the new id is free; then it stores the journal "Failed Entry" / "Failed to generate journal." and the captioned photos; otherwise nothing changes |
| EndpointsV1.Store.GenerateJournal | app/api/endpoints_v1.py:443-493 | 404 for an unknown user; 500 without `photo_ids`; the entries sent to the service are one per selected photo, in creation order; success exactly when every caption works, the service gives no output and the id is free; a failure changes nothing |

## Left out

- Passwords and tokens: hashing is an opaque function parameter. `login`, JWT issuing and `hash_pwd` are not part of this model.
- The vision and text-generation services: they are opaque function parameters. Their prompts, exceptions and the structure of their answers beyond the content list and the output text are left out.
- Database sessions, `commit`/`refresh` and `get_db` are I/O: a handler's outcome is all-or-nothing, and a failed commit is `ServerError` with the store unchanged.
- File upload and saving, `os.makedirs` and static serving are file I/O. Of `create_user_photo` only the file name and URL construction are modelled; the 400 branches for bad JSON, a failed save and a missing file depend on that I/O and on JSON parsing.
- `app/api/endpoints.py` is not part of this model: it is a legacy router whose logic duplicates the v1 patch loops.
- The other v1 endpoints are outside the modelled core: `get_user`, `get_users`, `delete_user`, the device endpoints, `create_user_journal`, `get_user_journal`, the delete endpoints, `get_user_photo`, `update_user_photo`, `analyze_photo`, `get_image` and `fake_endpoint`.
- The ownership checks written with Python `and` and the device and photo update patches belong to those endpoints; they are not modelled as enforcing anything.
- The `is_public` and `tags` filters and the `tags`/`is_public` fields of a journal update refer to columns the journal table does not have; they are left out.
- `sortby` is limited to `time_created` and `time_modified`; any other column name would sort by that column or fail in `getattr`.
- EndpointsV1.ListUserJournals: SQL `ORDER BY` leaves the order of equal keys open; the model keeps scan order (a stable sort), so it fixes one of the orders the database may return.
- EndpointsV1.CreateUserResult: emails are compared exactly. MySQL's default collation ignores case and trailing spaces, so it may also reject an email that differs only in those (`EndpointsV1.EmailTaken`).
- EndpointsV1.UpdateUserResult: the same exact comparison decides whether an email clashes with another user's (`EndpointsV1.EmailClash`), where the unique index compares under the collation.
- EndpointsV1.FirstDeviceNamed: the device name is compared exactly. Under MySQL's default collation `device_name == device` also matches names that differ in case or trailing spaces.
- MySQL without strict mode would cut a long text to 255 characters and store it; the model follows the default strict mode.
- Column widths are counted in characters of the model's strings; MySQL counts characters of the column's character set, and the model does not encode text.
- EndpointsV1.ListUserJournals: `contains` is SQL `LIKE '%text%'`; it is modelled as a plain substring test, without `%`/`_` wildcards or collation rules.
- Activity.UserDays: `strftime("%Y-%m-%d")` is modelled as the day number `t / 86400` of a UTC time in seconds; the date string itself is not built.
- Times are whole seconds; datetime parsing and time zones are left out.
- The success path of `generate_journal_func` returns `None`; no journal with a generated title is ever stored, and the model does not claim one.
- EndpointsV1.Store.UpdateUserJournal: the Python loop goes on setting fields after a null and then fails at commit; the model stops at the first failing field. The committed outcome (500, nothing stored) is the same.
- Device and photo columns the modelled handlers never read (file size and type, app version, sync times) are left out of the records.
