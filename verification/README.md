# Volunteer events: the schema, the like/apply views and the admin spreadsheet export

A Dafny model of the core of a small Django application. Visitors browse
events, signed-in users like events and apply to volunteer for them, and staff
export the admin tables to a spreadsheet. The model covers three parts:

- **The schema** of `core/models.py` (module `Models`):
  - a `Store` of tables: users, categories, events, volunteer applications and likes;
  - the constraints the database enforces, collected in the invariant `Valid`:
    - unique category names;
    - one application and one like per (user, event) pair;
    - foreign keys that resolve;
    - CASCADE and PROTECT on delete;
  - the `status` choice field and its default;
  - the `created_at`/`updated_at` stamps;
  - the `__str__` formats.
- **The views** of `core/views.py` (module `Views`). Each view is a pure function from the store and the request to a response tag and the new store:
  - `event_detail`;
  - `apply_to_event`, with the cleaning of the application form's `motivation` field from `core/forms.py`;
  - `toggle_like`;
  - `my_dashboard`.
- **The admin export** of `core/admin.py`:
  - the cell formatter `_format_admin_value` (module `AdminFormat`), with the ISO 8601 fallback of Python's `isoformat` (module `IsoFormat`);
  - column and header resolution, row materialization, and the selection, permission and sheet-layout logic of `export_xlsx_view` (module `AdminExport`).

`Wrappers` holds `Option` and `Result`. `Sequences` holds the generic sequence
functions used throughout: filtering, first match, sorting by key, and
selection and removal by key.

Modelling choices:

- **Tables** are sequences of rows in insertion order. Applications and likes are identified by their (user, event) pair.
- **The clock** is a `now: nat` parameter of each write.
- **Dates and datetimes** are explicit value tags. The source tells them apart by probing attributes.
- **Localized date formatting** is a parameter that may fail (`None`). The fallback ISO text is modelled exactly for UTC offsets in whole minutes.
- **`label_for_field` and `lookup_field`** become two maps:
  - the labels a model admin can find;
  - the values an object's columns resolve to.

  A missing entry stands for a lookup that raises.
- **Worksheet cells** follow the workbook library's rule for appended values: text is cut to 32767 characters, and text that then still holds a control character U+0000 to U+0008, U+000B, U+000C or U+000E to U+001F makes the append raise, which ends the request in status 500.

The model follows the code as written in these points:

- **The export's selection** is the list of submitted labels, in submission order. A label submitted twice gives two sheets.
- **A non-staff caller** gets status 403 from `export_xlsx_view` itself. The redirect to the login page comes from Django's `admin_view` wrapper, which is not part of this model.
- **Labels outside the choices.** The export form is a Django `MultipleChoiceField`, which rejects labels outside its choices. So for a valid form, the registry check at `core/admin.py:142-144` never skips anything (`ValidSelectionIsRegistered`); only the permission check does.
- **`apply_to_event`** answers 404 for a missing event before it looks for an existing application.

## Model

| member | source | states |
|---|---|---|
| Models.ParseStatus | core/models.py:44-52 | a stored status value reads back as the status it was stored from, and only the three choice values are accepted |
| Models.Saved | core/models.py:8-9 | a save keeps `created_at`, sets `updated_at` to now, and keeps created ≤ updated under a clock that does not run backwards |
| Models.FindApplication | core/views.py:67 | the lookup finds a row of the pair exactly when the table has one |
| Models.FindLike | core/views.py:91 | the lookup finds a like of the pair exactly when the table has one |
| Models.FindEvent | core/views.py:64 | `get_object_or_404` finds an event with the id exactly when one exists |
| Models.LikePairsAfterDelete | core/views.py:92-93 | deleting the pair's like removes exactly that pair from the liked pairs |
| Models.LikePairsAfterAppend | core/views.py:96 | inserting a like adds exactly its pair to the liked pairs |
| Models.AtMostOnePerPair | core/models.py:54-57 | in a valid store each (user, event) pair has at most one application and at most one like |
| Models.CreateCategoryChecksSchema | core/models.py:16 | on a consistent store, creating a category succeeds exactly when the store with the new row appended still meets every constraint; it is refused exactly when the name is taken (`unique=True`) |
| Models.CreateCategoryKeepsValid | core/models.py:15-23 | a successful insert keeps every schema constraint |
| Models.CreateEventChecksSchema | core/models.py:27 | on a consistent store, creating an event succeeds exactly when the appended row's category foreign key resolves, that is, exactly when the resulting store is consistent |
| Models.CreateEventKeepsValid | core/models.py:26-32 | a successful insert keeps every schema constraint |
| Models.CreateApplicationChecksSchema | core/models.py:49-57 | on a consistent store, an application insert succeeds exactly when the resulting store is consistent; it is refused exactly for a second application of the pair (`unique_together`) or a dangling user or event |
| Models.CreateApplicationKeepsValid | core/models.py:43-57 | a successful insert keeps every schema constraint, including one application per pair |
| Models.CreateLikeChecksSchema | core/models.py:64-70 | on a consistent store, a like insert succeeds exactly when the resulting store is consistent; it is refused exactly for a second like of the pair or a dangling user or event |
| Models.CreateLikeKeepsValid | core/models.py:63-70 | a successful insert keeps every schema constraint, including one like per pair |
| Models.DeleteLike | core/views.py:93 | deleting removes the pair's like and keeps every other row of every table |
| Models.DeleteLikeKeepsValid | core/models.py:63-70 | deleting a like keeps every schema constraint |
| Models.UpdateStatus | core/models.py:52 | only the pair's row changes, and it gets the new status and a `Saved` stamp |
| Models.SaveApplicationStatus | core/models.py:52 | a status change touches no other table and no other application |
| Models.SaveApplicationStatusKeepsValid | core/models.py:43-57 | saving an application's status keeps every schema constraint |
| Models.DeleteEvent | core/models.py:50 | deleting an event also deletes its applications and likes (CASCADE) |
| Models.DeleteEventKeepsValid | core/models.py:65 | after the cascade every remaining reference still resolves |
| Models.DeleteEventKeepsReferences | core/models.py:50-65 | the cascade leaves no application or like pointing at the deleted event |
| Models.DeleteCategory | core/models.py:27 | deleting a category is refused exactly while an event references it (PROTECT), and otherwise removes only that category |
| Models.DeleteCategoryKeepsValid | core/models.py:27 | a permitted category delete keeps every schema constraint |
| Models.DeleteUser | core/models.py:49 | deleting a user also deletes the user's applications and likes (CASCADE) |
| Models.DeleteUserKeepsValid | core/models.py:64 | after the cascade every remaining reference still resolves |
| Models.DeleteUserKeepsReferences | core/models.py:49-64 | the cascade leaves no application or like pointing at the deleted user |
| Models.ApplicationStrShowsStatus | core/models.py:59-60 | the status can be read back from an application's string form whatever the username and title contain |
| Models.ApplicationStrReadsBack | core/models.py:59-60 | an application's string form gives back the username (the text before the first space), the event title (between ` -> ` and the last ` (`) and the status (inside the final parentheses), whatever the title contains |
| Models.LikeStrReadsBack | core/models.py:72-73 | a like's string form gives back both the username (the text before the first space) and the event title (the text after ` likes `), whatever the title contains |
| Models.Display | core/models.py:22-73 | `str()` of a user is its username, of a category its name (22-23), of an event its title (39-40); an application's gives back its username, event title and status (59-60), and a like's its username and event title (72-73) |
| Views.Strip | core/forms.py:19-22 | the cleaned text neither starts nor ends with whitespace |
| Views.StripRemovesOnlySpace | core/forms.py:19-22 | cleaning removes only whitespace, from both ends, and keeps the middle of the text unchanged |
| Views.StripLeft | core/forms.py:19-22 | the result is a suffix of the input, and all that was dropped is whitespace |
| Views.StripRight | core/forms.py:19-22 | the result is a prefix of the input, and all that was dropped is whitespace |
| Views.CleanMotivation | core/views.py:73-74 | the form is valid exactly when the stripped motivation is non-empty and NUL-free, and then it carries the stripped text |
| Views.EventDetail | core/views.py:29-59 | 404 exactly when the event is missing; `liked` and `application` reflect the requester's own rows and are empty for a visitor; the page's two counts are the event's like and application counts |
| Views.LikesCountIsDistinct | core/views.py:34 | on a consistent store the event's like count is the number of distinct like rows of the event, as `Count("likes", distinct=True)` counts |
| Views.ApplicationsCountIsDistinct | core/views.py:35 | on a consistent store the event's application count is the number of distinct application rows of the event |
| Views.ApplyToEvent | core/views.py:62-84 | login, then 404, then redirect without writing when an application exists; a GET or an invalid POST renders the apply form for the event, with errors exactly for the POST (84); only a valid POST writes, and it writes exactly one new application |
| Views.ApplyAddsOne | core/views.py:72-80 | a successful application adds one row and exactly the requester's pair |
| Views.ApplyRaisesApplicationsCount | core/views.py:72-80 | a successful application raises the event's application count by one and no other event's |
| Views.ApplyIsIdempotent | core/views.py:66-70 | once applying has redirected, applying again changes nothing, whatever the second request carries |
| Views.ApplyKeepsValid | core/views.py:62-84 | the view keeps every schema constraint |
| Views.ToggleLike | core/views.py:87-98 | login, then POST only, then 404; the requester's pair leaves or joins the liked pairs, and no other like or table changes |
| Views.ToggleKeepsValid | core/views.py:87-98 | the view keeps every schema constraint |
| Views.ToggleTwiceRestores | core/views.py:89-98 | two toggles restore the liked pairs, and the whole store when the pair was not liked before |
| Views.ToggleAddsLike | core/views.py:95-96 | a known user's toggle on an event they have not liked appends their like, stamped now, and changes nothing else |
| Views.LikeThenUnlikeRestoresLikes | core/views.py:89-98 | the like a first toggle adds is the one a second toggle deletes, so the likes table is back as it was |
| Views.ToggleMovesLikesCountByOne | core/views.py:89-98 | a toggle moves the event's like count by exactly one, and no other event's count |
| Views.NewestFirstApplicationsOrder | core/views.py:124 | sorting by the negated creation stamp puts the newest application first |
| Views.NewestFirstLikesOrder | core/views.py:126 | sorting by the negated creation stamp puts the newest like first |
| Views.MyDashboard | core/views.py:118-127 | exactly the requester's applications and likes, as multisets, each newest first |
| Views.ServeKeepsValid | core/views.py:62-98 | under any sequence of requests the constraints hold, so no pair ever has two applications or two likes |
| IsoFormat.DigitsValueOfPad | core/admin.py:62 | a zero-padded number reads back as the number |
| IsoFormat.PadOfDigitsValue | core/admin.py:62 | a digit string is the padding of its value |
| IsoFormat.IsoDate | core/admin.py:68 | `date.isoformat()` is ten characters |
| IsoFormat.Pad | core/admin.py:62 | a number below 10^width is written as exactly `width` decimal digits (read back by `DigitsValueOfPad`) |
| IsoFormat.OffsetSuffix | core/admin.py:62 | a naive datetime gets no suffix and an aware one a six-character `±HH:MM` (read back by `ParseOffsetOfOffsetSuffix`) |
| IsoFormat.IsoDateTime | core/admin.py:62 | `isoformat(sep=" ", timespec="seconds")` is date, space, time and an optional offset |
| IsoFormat.ParseIsoDateOfIsoDate | core/admin.py:68 | the ISO date text reads back as the same date |
| IsoFormat.IsoDateOfParseIsoDate | core/admin.py:68 | every accepted date text is the rendering of what it parses to |
| IsoFormat.ParseOffsetOfOffsetSuffix | core/admin.py:62 | the UTC offset suffix reads back as the same offset |
| IsoFormat.OffsetSuffixOfParseOffset | core/admin.py:62 | every accepted offset suffix is the rendering of what it parses to |
| IsoFormat.ParseIsoDateTimeOfIsoDateTime | core/admin.py:62 | the ISO datetime text reads back as the same datetime with microseconds cleared |
| IsoFormat.IsoDateTimeOfParseIsoDateTime | core/admin.py:62 | every accepted datetime text is the rendering of what it parses to |
| AdminFormat.FormatValue | core/admin.py:47-70 | None gives empty text; a boolean gives Yes exactly when true and No otherwise; a fallback date or datetime text reads back as the value |
| AdminExport.ColumnsAndHeaders | core/admin.py:73-87 | one header per column, in order: the label, or the raw column name when no label is found |
| AdminExport.RowValues | core/admin.py:90-107 | one cell per column: the formatted value, or empty text when the lookup fails |
| AdminExport.AfterLastDot | core/admin.py:155 | the result is the dot-free suffix after the last dot, or the whole label when there is no dot |
| AdminExport.AfterLastDotOfJoin | core/admin.py:155 | splitting `app.Name` on dots gives back `Name` |
| AdminExport.SheetTitle | core/admin.py:155 | the title is the first min(31, length) characters of the text after the last dot: the whole segment when it is short, exactly 31 characters of it otherwise, and dot-free |
| AdminExport.SheetTitleOfCoreLabel | core/admin.py:155 | a `core.` label within the limit is titled by its model name |
| AdminExport.ExportSheetTitles | core/admin.py:119-124 | the four offered models get the sheets Category, Event, VolunteerApplication and EventLike |
| AdminExport.ColumnWidth | core/admin.py:162-163 | the width lies in 12..45 and is the header length plus six in between |
| AdminExport.ExportedObjects | core/admin.py:158 | at most 5000 objects, none beyond the queryset |
| AdminExport.ExportedObjectsAreSmallestIds | core/admin.py:158 | the exported objects come in ascending id order, all of them when there are at most 5000, and every object left out has an id no smaller than any exported one |
| AdminExport.LeftOutIdsAreNotSmaller | core/admin.py:158 | the 5000-row cut keeps the smallest ids: every object left out has an id no smaller than any kept one |
| AdminExport.SheetIsDetermined | core/admin.py:153-163 | the sheet description leaves nothing open: two sheets meeting it are equal |
| AdminExport.SheetForMeetsDescription | core/admin.py:153-163 | the sheet assembled in one piece meets the sheet description, so with `SheetIsDetermined` it is the only sheet that does |
| AdminExport.WriteHeader | core/admin.py:153-163 | the header row holds each column's header, in column order, and each column gets the width of its header |
| AdminExport.WriteRows | core/admin.py:158-160 | one row per exported object, in id order, each holding that object's formatted cells |
| AdminExport.ExportSheet | core/admin.py:153-163 | the sheet has the title, the header row, one row of formatted cells per exported object, and a width per header |
| AdminExport.ViewPermissionNamesModel | core/admin.py:147-149 | for a dot-free app label, the permission asked for reads back as the model admin's app label (before the first dot) and model name (after `view_`) |
| AdminExport.ViewPermissionIsInjective | core/admin.py:147-149 | two model admins ask for the same permission exactly when their app label and model name agree |
| AdminExport.ViewedModelSpellsPermission | core/admin.py:147-149 | conversely, a permission that names an app label and model name is spelled `<app_label>.view_<model_name>`, so the read-back accepts no other spelling |
| AdminExport.MayExportReadsPermissions | core/admin.py:147-150 | a user may export a model exactly when they are a superuser or hold a permission naming that model's app label and model name |
| AdminExport.AdminMap | core/admin.py:119-125 | the offered admins are exactly the registered ones among the four labels |
| AdminExport.Choices | core/admin.py:127-128 | the form offers exactly the registered labels |
| AdminExport.ExportedLabelsStep | core/admin.py:141-151 | one more selected label adds itself to the exported labels exactly when it is registered and permitted |
| AdminExport.ExportedLabelsIsFilter | core/admin.py:141-151 | the loop keeps exactly the selected labels that are registered and permitted, in selection order |
| AdminExport.BuildSheets | core/admin.py:141-163 | one sheet per selected, registered and permitted label, in selection order, and none for the others |
| AdminExport.ValidSelectionIsRegistered | core/admin.py:141-151 | for a valid form every selected label is registered, only permissions decide, and a superuser gets every selected model |
| AdminExport.StoredCell | core/admin.py:156-160 | a text cell keeps its first min(32767, length) characters, and a number is kept as it is |
| AdminExport.StoredCellIsClean | core/admin.py:156-160 | a cell the worksheet accepts is stored without any illegal control character, and unchanged when its text is short |
| AdminExport.StoredSheetOfShortCells | core/admin.py:156-160 | a sheet whose texts are all within 32767 characters is stored unchanged |
| AdminExport.ExportSucceedsOfSheets | core/admin.py:137-169 | over the built sheets, the export succeeds exactly when there is at least one sheet and every cell of every sheet is accepted |
| AdminExport.ExportView | core/admin.py:110-172 | 403 exactly for non-staff; the form for a GET or an invalid POST; for a valid POST, `export.xlsx` with one stored sheet per permitted selected model, or status 500 exactly when no selected model is permitted (the sheetless workbook cannot be saved, 138-139, 169) or some cell text holds an illegal control character (appending the row raises, 156, 160) |

## Left out

- Routing and the admin URL patch (`core/admin.py:175-188`) are not modelled. Neither is Django's `admin_view` wrapper, which redirects non-staff to the login page before the view runs.
- Templates, flash messages and the spreadsheet encoding are reduced to tags. This covers the `.xlsx` bytes, the content type and the column letters.
- `event_list`, `signup`, `SignUpForm`, the seed command and the template tags are outside the modelled core.
- The `ModelAdmin` registrations' `search_fields` and `list_filter` only affect the admin pages, not the export.
- `label_for_field`, `lookup_field` and the locale's date formats are Django library code. They become parameters: a label map, a field map and two functions that may fail.
- Queryset values are only text, integers, booleans, dates, datetimes and model instances. Floats and decimals are left out.
- The `image` field (`core/models.py:32`) is a file upload that none of the modelled operations reads or writes.
- `max_length` (`core/models.py:16`, 28, 31, 52) is a column width that the database may refuse on insert; SQLite does not enforce it. The model's inserts do not check it.
- Models.CreateCategoryChecksSchema: refusal "exactly when the name is taken" holds only where column widths are not enforced; a backend that enforces `varchar(120)` also refuses a longer name.
- Models.CreateEventChecksSchema: success "exactly when the category resolves" holds only where column widths are not enforced; a backend that enforces `varchar(200)` also refuses a longer title or location.
- Event ordering by date is only used by `event_list`.
- AdminExport.BuildSheets: two sheets with the same title are kept as they are. The workbook library renames the second one; that renaming is not modelled.
- The workbook library's check of sheet titles (no `\ * ? : / [ ]`) is not modelled. The four offered labels give titles it accepts.
- A database error in the middle of an export is not modelled: the model's queries do not fail.
- Concurrent requests are not modelled. Two simultaneous toggles or applications for one pair are a race that the unique constraint turns into an error; the model serves requests one at a time.
- Views.ApplyToEvent: a database error on insert is modelled only for an authenticated user whose row no longer exists; it then ends in `ServerError`.
- Models.Saved: creation ≤ update is promised only when the clock passed in does not run backwards, because the clock is a parameter.
- Views.ToggleTwiceRestores: the whole store is restored only when the pair was not liked before. Otherwise the recreated like carries a new creation stamp, and only the set of liked pairs is restored.
- Models.LikeStrReadsBack: requires a username without spaces, which Django's username validator guarantees. The validator is not modelled.
- Models.ApplicationStrReadsBack: makes the same space-free username assumption.
- Models.Display: the read-backs of a like's and an application's username and title are promised only for a username without spaces; for any other username only the application's status is promised.
- IsoFormat.IsoDateTime: UTC offsets with seconds or microseconds, which Python writes as `+HH:MM:SS[.ffffff]`, are not modelled; `ValidOffset` admits whole minutes only.
- AdminExport.ViewPermissionNamesModel: assumes an app label without dots, which Django's app labels (Python identifiers) satisfy. The read-back is not promised otherwise.
- AdminExport.MayExportReadsPermissions: makes the same dot-free app label assumption.
- IsoFormat.ParseIsoDateTimeOfIsoDateTime: the round trip clears microseconds, because `timespec="seconds"` drops them.
