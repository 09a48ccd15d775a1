# App store back end and catalog page, modelled in Dafny

The system is a small Arabic-language app store. Its PHP endpoints serve a public catalog of downloadable applications and a contact form. Behind them sits an admin area that manages the apps, the contact messages, the site settings and the admin's own password. A browser script (main.js) builds the catalog page.

The model covers the request handlers of six files. All tables of the MySQL database live in one `Schema.Database` object, as sequences of rows:

- `apps`, `downloads`, `contact_messages`, `settings`, `users` and `activity_logs`;
- the upload tree, as a map from path to file size;
- the next auto-increment ids.

Every handler is a `method` on that object. Each has a contract that covers every outcome:

- the refusal it answers with;
- the rows it changes, and how;
- the log entry it appends.

Each one-statement SQL change is a pure function on the rows, written next to the handler. Examples are `views = views + 1`, an upsert, a `DELETE` and `status = 'read' WHERE status = 'new'`. Lemmas about these functions give the properties the handlers rely on:

- the catalog listing shows exactly the wanted apps, in listing order, page by page;
- a message only ever moves from new to read when it is read;
- a settings upsert never changes a row's group;
- a reset token works once;
- and so on.

The modules follow the program:

- **Common**: `Option`, the refusal reasons, the JSON reply `Response`.
- **Php**: PHP semantics the handlers depend on:
  - `empty()` (true for `""` and `"0"`);
  - truthiness;
  - `??`;
  - `strpos`-style substring search;
  - `basename`;
  - `intval` of a decimal string;
  - decimal printing of integers;
  - `strlen` as a UTF-8 byte count.
- **Keyed**: first-match lookup by key in a sequence (the row `fetch()` returns, the entry of an associative array).
- **Paging**: `LIMIT`/`OFFSET` as a slice, `(page-1)*limit`, `ceil(total/limit)`.
- **Sorting**: a stable insertion sort by a total preorder, standing for `ORDER BY`, with its sortedness and permutation lemmas.
- **Schema**: the rows, the request context (admin or not, POST or not, session user, IP, user agent, referrer, clock) and the `Database` class with its invariant (unique ids below the next id, unique setting keys).
- **Catalog** (api_apps.php): listing, `get_by_id`, `add`, `update`, `delete`, `download`, `get_categories`.
- **Downloader** (download_file.php): the guard sequence, the counter, the event row and the headers of the file it streams.
- **Messages** (api_messages.php): `send`, `get_all` with its status statistics, `get_by_id`, `update_status`, `delete`, `send_reply`.
- **Settings** (api_settings.php): `get_all` grouping, `get`, the transactional `update` / `update_site` / `update_email` / `update_upload`, `get_site_info`.
- **Auth** (api_auth.php): `login`, `logout`, `forgot_password`, `reset_password`, `change_password` over the users table and a `Session` object.
- **Client** (main.js): the query `loadApps` sends and its fallback, `updatePagination`, `getCategoryText`, the card description truncation, and `downloadApp` run against the two server paths.

Collaborators whose code is not part of the model are inputs of the methods. `sanitize()` is a function parameter `san`. `FILTER_VALIDATE_EMAIL` is a predicate `isEmail`. `password_hash` and `password_verify` are parameters `hash`/`verify`. The random token is a parameter `token`. `sendEmail` is its boolean result `sent`. `uploadFile()` is what it did for a field (`Catalog.Upload`). An exception inside a settings transaction is the index `failAt` of the upsert that throws. The clock is `ctx.now`.

Behaviour of the code that the model reproduces as written:

- **Page number.** The requested page is not clamped (api_apps.php:26-28). A page below 1, or a negative limit, gives a negative OFFSET/LIMIT. MySQL refuses it, and the handler answers with its generic error (`StorageError`). A limit of 0 divides by zero at api_apps.php:78, so the listing requires `limit != 0`; the message listing divides by it at api_messages.php:130, after the admin check, so it requires a non-zero limit of admins only.
- **Search.** It is a plain substring test, case-sensitive, with LIKE wildcards not interpreted.
- **Download links.** Listed and fetched apps link to `download.php?id=` (api_apps.php:66, 100), while the `download` action returns `download_file.php?id=` (api_apps.php:393). `Catalog.LinksDiffer` proves the two always differ.
- **Downloads counted twice.** The page's `downloadApp` calls the `download` action, which counts one download and appends one event row. It then opens the streamer, which does both again (main.js:726-731, download_file.php:28-38). So one click counts two downloads (`Client.ClickCountsTwice`).
- **Download paths.** Neither download path checks that the stored path lies inside the upload folder, and the model asserts no such containment.
- **`update` on apps.**
  - It validates nothing.
  - It overwrites all twelve fields. An absent text field becomes `''`, os and license included; the Arabic defaults for os and license are only those of `add` (api_apps.php:128-129).
  - An upload that `uploadFile()` refused is ignored: the old file columns stay.
- **`add` with a refused image.** The app file has already been stored by then, so that file stays on disk with no row.
- **`delete` of an app** does not require POST.
- **Messages `get_by_id`** marks the message read before it looks it up.
- **Messages `delete` and `update_status`** answer success for an id that does not exist.
- **Settings `update`** upserts with no group. A key it creates therefore has the empty group (a NULL `setting_group` is modelled as `''`, which sorts and groups the same way). `get_site_info` reads only group `general`, so a `site_name` created this way stays invisible to it (`Settings.SiteNameOutsideGeneral`).
- **`change_password`** reads the stored hash by the session's user id without the `is_active` test that `login` makes.

## Model

| member | source | states |
|---|---|---|
| Php.ContainsIsSubstring | api_apps.php:41-44 | `strpos`-style containment holds iff the term occurs at some position of the text |
| Php.TrimTrailingSlashes | download_file.php:42 | `basename` first drops the trailing slashes, and only slashes |
| Php.AfterLastSlash | download_file.php:42 | `basename` then keeps the longest slash-free suffix |
| Php.DigitChar | download_file.php:53 | a decimal digit is printed as a character from 0 to 9 |
| Php.NatToString | download_file.php:53 | a number prints as digits with no leading zero |
| Php.IntToString | api_apps.php:393 | an integer prints with a leading minus sign iff it is negative |
| Php.NatToStringRoundTrip | download_file.php:53 | reading back the decimal digits of a number gives the number |
| Php.NatToStringInjective | api_apps.php:393 | two distinct numbers never print the same |
| Php.Utf8Length | api_auth.php:211 | `strlen` counts UTF-8 bytes: at least one byte per character and at most four |
| Php.AsciiLength | api_auth.php:211 | for text of ASCII characters `strlen` is the character count |
| Keyed.FindBy | api_settings.php:63-68 | the index found is the first element with that key; none is found iff no element has it |
| Keyed.FindBySameKeys | api_settings.php:171-176 | the first match depends only on the keys, so rewriting values never moves it |
| Keyed.FindByAppend | api_settings.php:171-176 | after an append the first match stays where it was, or is the new element when nothing earlier matched |
| Paging.CeilDiv | api_apps.php:78 | `ceil(total/limit)`: the least page count whose pages hold every row |
| Paging.Slice | api_apps.php:56-62 | `LIMIT limit OFFSET offset`: the length is the rows left after the offset, capped by the limit, and each row is the row at offset plus its index |
| Paging.OnItsPage | api_apps.php:56-62 | the row at index k is shown on page k / limit + 1, at position k mod limit |
| Paging.NonEmptyPages | api_apps.php:78 | a page p ≥ 1 holds rows iff p ≤ `pages` |
| Sorting.SortBy | api_apps.php:47 | the `ORDER BY` result is a permutation of its input |
| Sorting.SortBySorted | api_apps.php:47 | the `ORDER BY` result is sorted by any total preorder |
| Sorting.InsertSorted | api_apps.php:47 | inserting into an ordered result keeps it ordered |
| Sorting.DistinctMultiplicity | api_apps.php:398-405 | in a list without repeats every element occurs at most once |
| Sorting.RepeatedMultiplicity | api_apps.php:398-405 | an element found at two positions occurs at least twice |
| Sorting.SliceOfSorted | api_apps.php:47-62 | a LIMIT/OFFSET window of an ordered result is itself ordered |
| Sorting.PermutationKeepsDistinct | api_apps.php:398-405 | reordering rows keeps them pairwise distinct |
| Schema.Database.constructor | config_database.php:14-32 | the connection opens tables that already exist: any contents whose ids are unique and below their counters, and whose setting keys and user ids are unique, form a valid database holding exactly those contents |
| Schema.SettingRow | api_settings.php:63-68 | the row for a key is a stored row with that key; there is none iff no row has it |
| Catalog.WhereClausesMeaning | api_apps.php:30-44 | the assembled WHERE clause selects exactly the active apps, of the category unless the category is empty or `all`, whose name, description or developer contains a non-empty search term |
| Catalog.WhereClauses | api_apps.php:33-44 | the assembled clause list always starts with the active-only condition |
| Catalog.Select | api_apps.php:30-53 | `SELECT ... WHERE`: an app is in the result iff it is a row and matches |
| Catalog.SelectAppend | api_apps.php:50-53 | selection distributes over concatenation, so it counts the same rows wherever they come from |
| Catalog.ListedFirstIsPreorder | api_apps.php:47 | featured first, then more downloads, then newer, is a total preorder |
| Catalog.EnrichAll | api_apps.php:65-70 | the `foreach (&$app)` loop gives every row its details link and image URL, in order |
| Catalog.ImageUrlShape | api_apps.php:67-69 | the image URL is the placeholder for an absent or empty path, else the images folder plus the basename, with no further slash |
| Catalog.ListApps | api_apps.php:21-80 | `total` is the number of matching apps whatever the page; `pages` is `ceil(total/limit)`; the apps are the enriched slice at `(page-1)*limit` of the ranked matches; a negative offset or limit is a storage error |
| Catalog.ListedPageWanted | api_apps.php:30-62 | every app on a page is a stored app that is wanted |
| Catalog.RankedSliceMember | api_apps.php:47-62 | every app on a page of the ordered matches is one of the matches |
| Catalog.SelectedIsWanted | api_apps.php:30-44 | every selected app is a stored app that is wanted |
| Catalog.ListedPageSorted | api_apps.php:47-62 | every page is in listing order |
| Catalog.EveryMatchIsListed | api_apps.php:47-78 | every wanted app appears on some page between 1 and `pages` |
| Catalog.FindApp | api_apps.php:90-92 | first row with the id (and active, when asked); none iff no such row |
| Catalog.FindFrom | api_apps.php:90-92 | the scan from a position finds the first row at or after it with the id (and active, when asked) |
| Catalog.FoundIsOnly | api_apps.php:90-92 | with unique ids the row found is the only row with that id |
| Catalog.BumpViews | api_apps.php:96-97 | `views + 1` for the rows with the id; every other column and row is unchanged |
| Catalog.BumpViewsTouchesOne | api_apps.php:96-97 | `views + 1` changes only that app's views, by one, and keeps ids unique |
| Catalog.GetById | api_apps.php:82-110 | id ≤ 0 is invalid, a missing or inactive app is not found, both with no change; else the answer is the row as read with its links, and its views rise by one |
| Catalog.AddGuard | api_apps.php:113-159 | `add` proceeds iff admin, POST, all required fields present with positive size, and neither upload refused; non-admin is refused first |
| Catalog.NewApp | api_apps.php:126-178 | the inserted row has the next id, the posted name, category and featured flag, os and license defaults when absent, file columns iff the upload was stored, and the column defaults the schema is assumed to give: active, zero views and downloads, created and updated now |
| Catalog.Add | api_apps.php:112-194 | a refusal inserts and logs nothing; a success inserts exactly one row under the next id, stores the uploads, and logs `app_added` |
| Catalog.AddedAppIsListed | api_apps.php:162-178 | a new app is active, unseen, undownloaded and wanted under its own category |
| Catalog.Revised | api_apps.php:222-290 | update writes all twelve posted fields: the ten text and size fields as posted (os and license `''` when absent), both flags; a stored upload sets the file (or image) name and path to the upload's, and otherwise they stay; id, counters and creation time stay, `updated_at` is now |
| Catalog.ReviseRows | api_apps.php:286-290 | `UPDATE ... WHERE id = ?` keeps the number of rows and every id, and leaves the rows with another id unchanged |
| Catalog.UpdateGuard | api_apps.php:197-220 | `update` proceeds iff admin, POST, id > 0 and the app exists (active or not) |
| Catalog.Update | api_apps.php:196-303 | a refusal changes nothing; otherwise the row is revised, replaced files are deleted, and `app_updated` is logged |
| Catalog.ReviseRowsTouchesOne | api_apps.php:286-290 | with unique ids the update rewrites exactly that row and keeps ids unique |
| Catalog.RemoveApp | api_apps.php:338-339 | DELETE keeps exactly the rows with another id |
| Catalog.RemoveAppKeepsIds | api_apps.php:338-339 | deleting keeps ids unique |
| Catalog.RemovedIsGone | api_apps.php:338-339 | after a delete no row with that id is found |
| Catalog.DeleteGuard | api_apps.php:306-326 | `delete` proceeds iff admin, id > 0 and the app exists |
| Catalog.Delete | api_apps.php:305-352 | a refusal changes nothing; otherwise the owned files present are deleted, the row is removed, the downloads rows stay, and `app_deleted` is logged |
| Catalog.BumpDownloads | api_apps.php:381-382 | `downloads + 1` for the rows with the id; every other column and row is unchanged |
| Catalog.BumpDownloadsTouchesOne | api_apps.php:381-382 | `downloads + 1` changes only that app's counter, by one |
| Catalog.DownloadGuard | api_apps.php:355-379 | refuses, in this order: an id ≤ 0 as invalid, then no active row with the id as not found, then an empty or missing file as unavailable; proceeds iff none applies |
| Catalog.CountDownload | download_file.php:5-38 | a refusal changes no counter and no row; otherwise the counter rises by one and one event row (id, IP, agent or `''`, referrer or `''`) is appended |
| Catalog.ApiDownload | api_apps.php:354-396 | the `download` action counts as above and answers the streamer link and app name |
| Catalog.LinksDiffer | api_apps.php:66 | the listing's `download.php` link never equals the action's `download_file.php` link |
| Catalog.FileLinkNamesOneId | api_apps.php:393 | the streamer link determines the app id |
| Catalog.CountActivePositive | api_apps.php:398-405 | a category holding an active app has a positive count |
| Catalog.ActiveCategories | api_apps.php:398-405 | the distinct categories of active apps, each once |
| Catalog.Tally | api_apps.php:398-405 | `COUNT(*)` per category of the active apps |
| Catalog.Categories | api_apps.php:398-405 | one row per category with an active app, never twice, with its positive count, most popular first |
| Catalog.TallyFacts | api_apps.php:398-405 | the unsorted tally lists exactly the categories with active apps, counted, without repeats |
| Catalog.SortedTallyFacts | api_apps.php:398-405 | ordering by count keeps the tally's rows |
| Downloader.Serve | download_file.php:5-61 | an id ≤ 0 is invalid, then a missing active app is not found, then an empty or absent file is unavailable, each with no change; on success the counter and event row are written before the headers, which name the served file and its size |
| Downloader.AttachmentName | download_file.php:42 | the attachment name is `file_name` when truthy, else `basename(file_path)`: the part after the last slash once trailing slashes are dropped, which holds no slash |
| Downloader.Headers | download_file.php:46-53 | eight headers, none of them named twice |
| Downloader.HeadersDescribeFile | download_file.php:46-53 | Content-Length, the last header, reads back as the file size, and the disposition quotes the file name |
| Messages.ParseStatus | api_messages.php:183-191 | a status is accepted iff it is one of the four names, and it names that status |
| Messages.StatusNameRoundTrip | api_messages.php:183-191 | every status's name parses back to it |
| Messages.FindMessage | api_messages.php:152-155 | first message with the id; none iff there is no such message |
| Messages.SendGuard | api_messages.php:22-40 | `send` proceeds iff POST, all four fields present and the email valid |
| Messages.Send | api_messages.php:21-71 | a refusal inserts nothing; a success inserts one new message under the next id and reports the admin notice |
| Messages.WithStatus | api_messages.php:87-90 | exact status filter, or every message when the status is empty |
| Messages.NoFilterKeepsAll | api_messages.php:87-96 | an empty status keeps every message |
| Messages.UnknownStatusSelectsNothing | api_messages.php:87-96 | a status outside the four names selects nothing |
| Messages.FormatAll | api_messages.php:107-112 | the formatting loop gives each row its display dates, in order |
| Messages.CountsCoverAll | api_messages.php:115-122 | the four status counts add up to the number of messages |
| Messages.StatusStats | api_messages.php:115-122 | at most one GROUP BY row per status, so at most four rows |
| Messages.SumCountsAppend | api_messages.php:115-122 | the counts of two lists of groups add up |
| Messages.StatusStatsPartition | api_messages.php:115-122 | the GROUP BY rows count every message once, and no group is empty |
| Messages.StatEntryFacts | api_messages.php:115-122 | a status's group row counts its messages and is present only when the count is positive |
| Messages.ListMessages | api_messages.php:73-132 | non-admin refused, whatever the limit; `total` counts the filtered messages whatever the page; `pages` is `ceil(total/limit)`; the page is the slice at `(page-1)*limit` of the newest-first order; negative offset or limit is a storage error |
| Messages.ListedMessagesSorted | api_messages.php:98-104 | every page is newest first |
| Messages.NewerFirstIsPreorder | api_messages.php:98-104 | newest first is a total preorder |
| Messages.ListedMessagesMatch | api_messages.php:87-104 | every message on a page is stored and has the requested status |
| Messages.FilteredHasStatus | api_messages.php:87-90 | every filtered message is stored and has the requested status |
| Messages.SortedSliceMember | api_messages.php:98-104 | every message on a page of the ordered result is one of the filtered messages |
| Messages.MarkRead | api_messages.php:148-149 | the rows with the id that are new become read; no other status changes and no other column changes |
| Messages.MarkReadTransitions | api_messages.php:148-149 | reading a message twice is reading it once |
| Messages.GetMessage | api_messages.php:134-167 | non-admin and id ≤ 0 change nothing; otherwise the mark happens first, then the message is answered or not found |
| Messages.FetchedIsNotNew | api_messages.php:148-166 | a message the admin fetched is never still new |
| Messages.SetStatus | api_messages.php:193-207 | the rows with the id get the status and the notes, and `replied_at` now only for replied; their other columns and the other rows stay |
| Messages.UpdateStatusGuard | api_messages.php:170-191 | `update_status` proceeds iff admin, POST, id > 0 and a valid status |
| Messages.UpdateStatus | api_messages.php:169-220 | a refusal changes nothing; otherwise the status is set and logged, even for an absent id |
| Messages.UpdatedMessage | api_messages.php:193-207 | after the update the message has the requested status and notes, and `replied_at` is now iff it was replied |
| Messages.RemoveMessage | api_messages.php:228-236 | DELETE keeps exactly the messages with another id |
| Messages.RemoveMessageKeepsIds | api_messages.php:228-236 | deleting keeps ids unique |
| Messages.RemoveAbsentMessage | api_messages.php:228-248 | deleting an absent id changes nothing |
| Messages.DeleteMessage | api_messages.php:222-249 | non-admin and id ≤ 0 change nothing; otherwise the row is removed, the deletion logged and success reported |
| Messages.MarkReplied | api_messages.php:293-294 | a delivered reply is the same row change as `update_status` to replied with the reply as the notes |
| Messages.ReplyGuard | api_messages.php:252-279 | `send_reply` proceeds iff admin, POST, id > 0, subject and reply present |
| Messages.SendReply | api_messages.php:251-310 | the row changes only when the message exists and `sendEmail` returned true; then it is marked replied and logged |
| Settings.WithGroup | api_settings.php:32-35 | exact group filter, or every setting when the group is empty |
| Settings.StrLeTotal | api_settings.php:37 | code-point string order is total |
| Settings.StrLeAntisymmetric | api_settings.php:37 | code-point string order is antisymmetric |
| Settings.StrLeTransitive | api_settings.php:37 | code-point string order is transitive |
| Settings.SettingOrderIsPreorder | api_settings.php:37 | group then key is a total preorder |
| Settings.GroupSettings | api_settings.php:44-51 | the grouping loop builds the grouping of the rows in order |
| Settings.InGroup | api_settings.php:44-51 | the rows of one group: exactly the rows whose group it is |
| Settings.AddToGroupsItems | api_settings.php:46-50 | appending a row extends its own group's list by it and no other list |
| Settings.InGroupSorted | api_settings.php:37-51 | the rows of one group keep the order of the query |
| Settings.GroupedItems | api_settings.php:44-51 | each group's list holds exactly that group's rows, in row order |
| Settings.GroupedDistinct | api_settings.php:44-51 | no group name appears twice |
| Settings.GetAll | api_settings.php:21-55 | non-admin refused; otherwise the grouped listing |
| Settings.GetAllPlacement | api_settings.php:21-55 | every selected setting is in the list of its own group and nowhere else, and each list is ordered by key |
| Settings.Get | api_settings.php:57-71 | an empty key is refused; otherwise the value of a row with that key, or null iff there is none |
| Settings.LastValue | api_settings.php:92-95 | none exactly when no pair names the key (the value found is the last one: `Settings.LastValueIsLast`) |
| Settings.LastValueIsLast | api_settings.php:92-95 | a pair that no later pair for its key overrides gives the key's value |
| Settings.PutLookup | api_settings.php:94 | `$m[$k] = $v` makes `$m[$k]` hold `v` and leaves every other key |
| Settings.PutDistinct | api_settings.php:94 | an assignment never makes a key appear twice |
| Settings.DistinctLastIsLookup | api_settings.php:100-109 | with distinct keys, the value given last for a key is the value stored under it |
| Settings.CollectLookup | api_settings.php:92-95 | the validated array has each key once, holding the last value posted for it |
| Settings.ValidateAll | api_settings.php:92-95 | the validation loop builds that array from the sanitized pairs |
| Settings.Upsert | api_settings.php:100-109 | ON DUPLICATE KEY adds a row exactly when the key has none, and otherwise keeps the number of rows |
| Settings.Upserted | api_settings.php:97-109 | the upserts of a transaction never remove a row and add at most one row per pair |
| Settings.UpsertRow | api_settings.php:100-109 | one upsert gives its key the new value in its old row, or a new row in the given group, and leaves every other key |
| Settings.UpsertedRow | api_settings.php:100-109 | after the upserts a written key holds its last value, in its old group or the given one when new; other keys keep their row |
| Settings.UpsertKeepsKeysUnique | api_settings.php:100-109 | an upsert keeps setting keys unique |
| Settings.GroupNeverChanges | api_settings.php:171-176 | an upsert on an existing key never changes its group |
| Settings.Commit | api_settings.php:97-126 | an exception at any upsert rolls back every write and logs nothing; otherwise all upserts and one log entry are committed |
| Settings.UpdateGuard | api_settings.php:74-89 | `update` proceeds iff admin, POST and a non-empty payload |
| Settings.UpdateSettings | api_settings.php:73-127 | a refusal changes nothing; otherwise the validated entries are committed with no group |
| Settings.UpdateSettingsEffect | api_settings.php:97-109 | after a committed update every submitted key holds its sanitized value and every other key is unchanged |
| Settings.SiteGuard | api_settings.php:130-158 | `update_site` proceeds iff admin, POST, name and admin email present, admin email valid, contact email valid or empty |
| Settings.UpdateSite | api_settings.php:129-197 | a refusal changes nothing; otherwise exactly the four site keys are committed in group general |
| Settings.EmailGuard | api_settings.php:216-224 | `update_email` proceeds iff admin, POST, host and username present, username a valid email |
| Settings.UpdateEmail | api_settings.php:199-268 | a refusal changes nothing; otherwise the mail keys are committed in group email |
| Settings.EmailPasswordKept | api_settings.php:237-248 | an empty password field leaves the stored password row as it was; otherwise it is written |
| Settings.EmailPasswordEntry | api_settings.php:237-248 | the password is among the mail pairs, last, exactly when its field is not empty |
| Settings.UploadGuard | api_settings.php:286-289 | `update_upload` proceeds iff admin, POST and both size limits positive |
| Settings.UpdateUpload | api_settings.php:270-328 | a refusal changes nothing; otherwise the upload keys are committed in group uploads |
| Settings.GetSiteInfo | api_settings.php:330-343 | each of the four fields is the value of its key in group general, or its default (the site name, else `''`) when the key has no general row |
| Settings.SiteInfoDefaults | api_settings.php:337-342 | with no general rows every field takes its default |
| Settings.SiteInfoAfterUpdateSite | api_settings.php:163-177 | what `update_site` writes is what `get_site_info` then shows |
| Settings.LastOfDistinct | api_settings.php:163-168 | with distinct keys, the value given last for a key is its only value |
| Settings.GeneralAfter | api_settings.php:170-177 | after upserts in group general, a written key whose row was absent or general shows the value written last |
| Settings.SiteNameOutsideGeneral | api_settings.php:337-342 | a site name stored outside group general is not shown |
| Auth.Session.constructor | config_database.php:35 | a fresh session holds no user and is not logged in |
| Auth.FirstWhere | api_auth.php:41-45 | the row `fetch()` returns is the first satisfying the condition; none iff no row does |
| Auth.Apply | api_auth.php:47-284 | each UPDATE keeps the identity columns and sets exactly its own columns: a sign-in sets `last_login` and the remember token when one is given; a reset request sets the token and expiry; a reset sets the hash and clears both; a password change sets the hash; every other column stays |
| Auth.Touch | api_auth.php:47-284 | an UPDATE by id keeps the number of users and every id |
| Auth.TouchOne | api_auth.php:47-48 | with unique ids an UPDATE by id changes that user and no other |
| Auth.Login | api_auth.php:25-105 | wrong method or empty fields are refused before any lookup; success only for the first active match whose password verifies, setting the session, `last_login`, a remember token iff remember is `true`, and a log entry; otherwise the session is unchanged and one `failed_login` entry is logged |
| Auth.SignInEffect | api_auth.php:47-70 | a login stamps `last_login` on the found user only, and stores a token only when remember is `true` |
| Auth.LoginCandidate | api_auth.php:41-45 | the user tried is active and named by username or email, and no earlier active user has that name |
| Auth.Logout | api_auth.php:107-132 | the session ends empty; a log entry is written only when someone was logged in |
| Auth.ForgotPassword | api_auth.php:143-188 | an invalid email changes nothing; an unknown one changes nothing; a known active user gets the token with expiry one hour ahead, even when the email fails |
| Auth.IssuedTokenLifetime | api_auth.php:163-167 | under one clock shared by PHP and MySQL, an issued token matches at every time before one hour from issue, and at none from then on |
| Auth.ResetGuard | api_auth.php:191-213 | refuses, in this order, a non-POST request, empty fields, a confirm mismatch, fewer than 6 bytes; proceeds iff none applies |
| Auth.ResetPassword | api_auth.php:190-242 | a refusal or an unknown or expired token changes nothing; otherwise the new hash is stored, the token cleared and the reset logged |
| Auth.ResetTokenSingleUse | api_auth.php:222-225 | after a reset the user it reset matches no token at any time, holds the new hash, and no other user changes |
| Auth.ChangeGuard | api_auth.php:245-272 | refuses, in this order, a non-POST request, no session, empty fields, a confirm mismatch, fewer than 6 bytes; proceeds iff none applies |
| Auth.ChangePassword | api_auth.php:244-300 | the hash changes only when the current password verifies for the session's user, and the change is logged |
| Auth.ChangedPasswordIsAccepted | api_auth.php:281-284 | when verification accepts the hash it is given, the new password verifies against the stored hash; the pending reset token and every other user stay as they were |
| Client.LoadAppsParams | main.js:236-253 | the `URLSearchParams` appends build the query |
| Client.QueryMeaning | main.js:236-253 | `action=get_all` always comes first; category only when truthy and not `all`; search, page and limit only when truthy; no name twice |
| Client.AppendIfValue | main.js:236-253 | appending a parameter whose name is new adds its value, keeps names distinct, and changes no other name's value |
| Client.StageFresh | main.js:236-253 | after each append the names are distinct and none of the names still to come is present |
| Client.StageValue | main.js:236-253 | after each append the value for a name is that of the latest append naming it |
| Client.SentSkip | main.js:236-253 | appends of other names leave a name's value as it was |
| Client.StageHead | main.js:236-237 | `action=get_all` stays the first parameter |
| Client.SentCategory | main.js:239-241 | `category` is sent, with its value, iff it is truthy and not `all` |
| Client.SentSearch | main.js:243-245 | `search` is sent, with its value, iff it is truthy |
| Client.SentPage | main.js:247-249 | `page` is sent, as its decimal text, iff it is truthy |
| Client.SentLimit | main.js:251-253 | `limit` is sent, as its decimal text, iff it is truthy |
| Client.LoadAppsResult | main.js:258-266 | a successful reply is passed on; a failed one or an exception gives the empty first page of 12 |
| Client.Window | main.js:461-467 | for two or more pages the window lies in 1..pages, has `min(5, pages)` buttons, and holds the current page when it is valid |
| Client.UpdatePagination | main.js:442-489 | nothing for one page; otherwise previous iff page > 1, the window's buttons with only the current one active, next iff page < pages, and the info line with a fixed 12 |
| Client.ActiveIsCurrent | main.js:469-475 | only the current page's button is active, and one is iff the page is in range |
| Client.InfoMatchesPage | main.js:483-487 | the info line names exactly the rows of the page shown, for the page size of 12 |
| Client.CategoryText | main.js:350-366 | a listed code gets its label; anything else is shown as given |
| Client.CategoryLabelsCollide | main.js:350-366 | only `utility` and `utilities` share a label |
| Client.LabelUnshared | main.js:350-366 | no label but the utilities one belongs to two codes |
| Client.ShortDescription | main.js:312-315 | the first 100 characters plus `...` iff longer than 100; otherwise unchanged |
| Client.BumpKeepsLookup | main.js:722-731 | the `download` action leaves the streamer's lookup and file path as they were |
| Client.DownloadApp | main.js:722-731 | a refused download changes nothing; otherwise the counter rises twice and two event rows are appended, the first at the time of the `download` request and the second at the later time the streamer is opened |
| Client.ClickCountsTwice | main.js:722-731 | one click adds two to that app's downloads and changes no other app |

## Left out

- Auth.IssuedTokenLifetime: PHP's `date`/`strtotime` (api_auth.php:164), which writes the expiry, and MySQL's `NOW()` (api_auth.php:216), which checks it, are treated as one clock `ctx.now` in one time zone. The lemma holds only when the PHP and database session time zones agree; the connection sets neither, and with differing zones a token can be expired, or valid too long, from the moment it is issued.
- Database connection, PDO errors other than the negative LIMIT/OFFSET, `session_start`, `die` output beyond its message, and upload-directory creation: all I/O.
- The `get_stats` action of api_apps.php (api_apps.php:407-413): it calls `getDashboardStats`, which no shown file defines.
- The `get_stats` action of api_messages.php (api_messages.php:312-334): it lies outside the modelled actions (send, get_all, get_by_id, update_status, delete, send_reply). Its per-day count over the last 30 days depends on the clock's calendar, and its `GROUP BY status` count is the query that `Messages.StatusStats` models for get_all.
- The unknown-action fallback of every endpoint and `check_session` in api_auth.php: they only echo a fixed reply or the session.
- CORS and content-type headers, `ob_clean`, `flush`, `readfile`, cookies (`setcookie` for remember-me) and `session_destroy`: HTTP output and browser state. Logout clears the modelled session fields instead.
- The bodies of the emails (`sendEmail`, `sendPasswordResetEmail`): only whether the send succeeded is modelled. The reply email of `send_reply` signs with the subject instead of the site name (api_messages.php:288); that text is not part of the model.
- The extension and size policy of `uploadFile()`, and `deleteFile()` beyond removing the path: their code is not part of this model.
- SQL LIKE wildcards and case-insensitive collation: the search is a plain substring test, string order is code-point order, and every `=` comparison (category, status, username and email, reset_token, and the unique setting_key behind the upserts) is modelled as exact equality. Messages.UnknownStatusSelectsNothing and Auth.LoginCandidate hold under that exact equality only.
- `GROUP BY status` row order: taken as the ENUM order new, read, replied, archived.
- Concurrency: each counter update is one atomic step.
- Date formatting (`date('Y-m-d H:i', ...)`): an abstract function `format` from timestamps to text.
- main.js DOM rendering, fetch, timers, events, `showAlert`, the modal and menus, `formatFileSize`, `formatDate`, `createStarRating`, and the `+1` increment of the on-page download count text after `downloadApp` (main.js:737-741).
- Client.CategoryText: a JavaScript object also answers inherited keys such as `constructor`; the model treats only the eleven listed codes as labelled.
- Client.ShortDescription: JavaScript counts UTF-16 code units, while the model counts characters; they differ only for characters outside the Basic Multilingual Plane.
- Messages.ListMessages, Catalog.ListApps: the response's `page` echoes the requested integer; `intval` of a non-numeric parameter is not modelled beyond taking the integer as given.
- Messages.ListMessages: an admin request with `limit` 0 divides by zero at api_messages.php:130 (a PHP `DivisionByZeroError`); the model requires a non-zero limit of admins instead of modelling that error.
- `ORDER BY` ties: rows equal on (is_featured, downloads, created_at), or messages equal on created_at, are kept in table order. MySQL promises no order among ties, not even the same one across separate LIMIT queries, so Catalog.EveryMatchIsListed and the page lemmas hold for the model's fixed order only.
- Column defaults no part of the model defines: an inserted app is taken to be active, with zero views and downloads and both timestamps now (Catalog.NewApp, on which Catalog.AddedAppIsListed rests); a new message takes status `new` (Messages.NewMessage); a setting row created by `update` without a group is taken to have group `''`; a download event row's `download_date`, which neither INSERT sets, is taken to be `ctx.now` (Catalog.EventRow).
- `floatval(size_mb)` yields a PHP float; the model takes the posted size as an exact `real`, with no rounding.
