# Stall-design catalogue: upload and user registry, in Dafny

This project models the core of a small Express/MySQL back end and its React admin page.
Exhibition-stall designs are uploaded with up to two files. Each upload gets a random file
number of the form `AB1234C`. Uploads can then be searched, edited and deleted. Users sign
up and log in.

The model has four parts:

- **Tables.** The `users` and `uploads` tables are sequences of rows inside the Dafny
  classes `Users.UserTable` and `Uploads.UploadTable`. Each has an auto-increment counter.
- **Routes.** The routes that change or read a table row by row are methods of those
  classes and return a status code and a reply body: `POST /signup`, `POST /login`,
  `POST /upload`, `GET /uploads` (search), `PUT /uploads/:fileNumber` and `DELETE /uploads/:id`.
  The read-only listings are functions of the table with no status code:
  `GET /uploads/summary` and `GET /uploads/count` (`Aggregates.Summary`,
  `Aggregates.DesignCounts`, `Aggregates.TotalUploads`), `GET /industries`
  (`Aggregates.Industries`), `GET /get-directories` and `GET /get-inquiries`
  (`Listings.DirectoryListing`, `Listings.InquiryListing`). `POST /add-event` contributes only
  its derived column (`Listings.ExistingClientsColumn`). Each parameterised SQL statement has
  its table meaning. `SELECT ... WHERE` is `Tables.Where`, which keeps table order. `UPDATE`
  rewrites every row that matches. `DELETE` filters rows out.
- **Derived strings.** The public file URLs, the local path found from a URL, the download
  links of the directory and inquiry listings, and the `existing_clients` column.
- **Admin page.** The page's pure helpers, plus its state as `AdminPanel.PanelState`. Each
  handler replaces that state through setters.

Modules, one file each: `Wrappers` (Option), `Tables` (SQL selection), `JsStrings`
(JavaScript `indexOf`/`split`/`join` and Node's `path.basename`), `FileNumber`, `Assets`
(file URLs and paths), `Users`, `Uploads`, `Aggregates` (group-by counts and distinct
industries), `Listings` and `AdminPanel`.

How JavaScript values are modelled:

- A request field is a `string`. "" stands for both a missing and an empty value, because
  the routes only test truthiness.
- A nullable column is an `Option<string>`.
- `Math.random()` is replaced by a sequence of seven supplied reals in [0, 1).
- bcrypt is a pair of function values. Its one assumed law, a password matches its own
  digest, appears only as a precondition (`Users.IsSound`).
- A JWT is a symbolic value holding its claims, its secret and its lifetime.
- Whether a file exists is a set of paths given to the delete route.

**Interface mismatch, recorded and not fixed.** The admin page deletes with
`DELETE /uploads/<file_number>` (frontend/src/pages/AdminPanel.jsx:64). The route looks the
path segment up as the numeric `id` (Backend/server.js:404-411). In the model, `Delete` takes
the raw segment and compares it with the integer `id` the way MySQL does: it reads the
segment's leading digits, and a segment with none reads as 0. `Uploads.DeleteByFileNumberFindsNothing`
shows that a file number always reads as 0. No id is 0, so the page's delete always gets 404.
The page then runs its error branch and does not remove the entry from its list.
`Uploads.DecimalIdSelectsId` shows that a decimal id would have selected its row.

**A refinement of the split condition.** It is not enough that `front` contains no " X ".
Splitting `front + " X " + depth` on " X " gives back `(front, depth)` only when all three of
these hold:

- `front` contains no " X ";
- `front` does not end in " X";
- `depth` contains no " X ".

`AdminPanel.FrontEndingInXCounterexample` and `AdminPanel.DepthHoldingSeparatorCounterexample`
show that neither of the last two conditions can be dropped.

## Model

| member | source | states |
|---|---|---|
| FileNumber.GenerateUniqueFileNumber | Backend/server.js:59-81 | the loops append two letters, four digits and a letter; the result equals the code selected by the draws and always has length 7 with letters at positions 0, 1 and 6 and digits at 2-5 |
| FileNumber.DrawIndex | Backend/server.js:66 | `Math.floor(Math.random() * n)` is always an index in [0, n) |
| FileNumber.CharFromDraw | Backend/server.js:65-67 | `charAt` of a drawn index always returns a character of the alphabet |
| FileNumber.DrawIndexInterval | Backend/server.js:66 | the index k is picked exactly by the draws in [k/n, (k+1)/n), so all indices are equally likely under a uniform draw |
| FileNumber.LetterIsUpper | Backend/server.js:60-68 | a letter draw always yields A-Z |
| FileNumber.DigitIsDigit | Backend/server.js:61-74 | a digit draw always yields 0-9 |
| FileNumber.EveryFileNumberIsGenerated | Backend/server.js:59-81 | every string of the shape letter, letter, four digits, letter is produced by some draws |
| Users.LoginResponse | Backend/server.js:135-170 | 400 exactly when both identifiers or the password are missing, with the message of the first failed check; otherwise 401 when no row matches or the password does not match the first matching row; otherwise 200 with a token over id, email and username of that first row, signed with the secret, lifetime "1h"; a missing identifier matches no row |
| Users.LoginMatcher | Backend/server.js:143-144 | a missing identifier is sent as NULL and matches no row: with the email missing every match has the given username, with the username missing every match has the given email, and with both missing nothing matches; every match satisfies `email = ? OR username = ?`; a row with the given non-empty email or username matches |
| Users.LoginLookup | Backend/server.js:143-150 | the lookup is empty exactly when there is no first matching row, and otherwise returns that row first |
| Users.SignedUpUserCanLogIn | Backend/server.js:107-164 | after a successful signup, logging in with the same email, or the same username, and password succeeds with a token naming the new user, given bcrypt's compare accepts its own hash |
| Users.UserTable.Signup | Backend/server.js:89-122 | checks run in the order empty field, password mismatch, email or username taken; each failure answers 400 with its message and changes nothing; success appends exactly one row with the next id and the hash of the password (10 rounds) and answers 201 with that id |
| Users.UserTable.Login | Backend/server.js:135-170 | the handler's status and body are exactly `LoginResponse` on the current table |
| Uploads.UploadTable.AddUpload | Backend/server.js:186-211 | answers 200 with a generated file number of the right shape; appends exactly one row with the next id, the form fields, that file number and per file base URL + stored name or null; earlier rows unchanged |
| Uploads.UploadTable.BuildSearchQuery | Backend/server.js:229-244 | the statement is the fixed prefix followed by one " AND col = ?" per non-empty filter in the order design, front_depth, industry; parameters are those filter values in the same order; placeholder count equals parameter count |
| Uploads.ActiveColumns | Backend/server.js:233-244 | a column is constrained exactly when its filter is non-empty, in the fixed column order |
| Uploads.PlaceholdersOfQuery | Backend/server.js:229-244 | the built statement holds one `?` per constrained column |
| Uploads.ParseConditionsOfConditions | Backend/server.js:229-247 | reading the conditions back from the built text gives the constrained columns, so the statement means what the builder intended |
| Uploads.ActiveConditionsMeanFilter | Backend/server.js:233-247 | a row satisfies the built conditions under the built parameters exactly when it equals every non-empty filter |
| Uploads.UploadTable.Search | Backend/server.js:225-250 | answers 200 with exactly the rows that equal every non-empty filter, in table order; with no filter, the whole table |
| Uploads.Merge | Backend/server.js:337-361 | each of design, front_depth, industry takes the supplied value when non-empty and keeps the stored value otherwise; a file URL becomes base + new name when a file was sent and is kept otherwise |
| Uploads.MergeNothing | Backend/server.js:357-361 | an edit that supplies nothing keeps every stored value |
| Uploads.MergeIdempotent | Backend/server.js:357-361 | applying the same edit twice stores what applying it once stores |
| Uploads.Assign | Backend/server.js:364-384 | the update writes the five columns and never changes id or file_number |
| Uploads.ApplyUpdate | Backend/server.js:364-384 | rows with the file number take the merged values; all other rows are unchanged; ids and file numbers are unchanged; row count unchanged |
| Uploads.EmptyEditLeavesTable | Backend/server.js:347-384 | with unique file numbers, an empty edit leaves the whole table unchanged |
| Uploads.EmptyEditWithSharedFileNumber | Backend/server.js:347-384 | file numbers are not unique by construction, and then an empty edit overwrites a second row having that file number with the values of the first |
| Uploads.UploadTable.Edit | Backend/server.js:347-394 | an unknown file number answers 404 and leaves the table unchanged; otherwise 200, the table becomes `ApplyUpdate` with the values merged from the first matching row, and `updatedFields` are exactly the stored values |
| Uploads.FilesToRemove | Backend/server.js:421-438 | at most two paths are queued; with two, the first derives from file_url_1 and the second from file_url_2; a single one derives from one of the two |
| Uploads.FilesToRemoveMeaning | Backend/server.js:421-438 | a path is queued exactly when it exists and derives from one of the row's URLs; it is the uploads directory plus the URL's basename |
| Uploads.NonEmptyPaths | Backend/server.js:441-442 | every queued path is non-empty, so the unlink loop skips none |
| Uploads.UploadTable.QueueFiles | Backend/server.js:430-438 | pushes the existing derived paths in the order file1, file2 |
| Uploads.UploadTable.Delete | Backend/server.js:403-458 | an unknown id answers 404, removes no row and attempts no unlink; otherwise unlink is attempted on exactly the queued paths, the row at that id is removed, every other row stays in order, and the answer is 200 |
| Uploads.RemoveId | Backend/server.js:454-455 | the DELETE keeps exactly the rows whose id differs, and never adds a row |
| Uploads.RemoveIdRemovesOneRow | Backend/server.js:454-455 | with unique ids, the DELETE statement removes exactly the row with that id and keeps the others in order |
| Uploads.DropKeepsIds | Backend/server.js:454-455 | removing a row keeps the ids unique and within the counter |
| Uploads.DeleteByFileNumberFindsNothing | Backend/server.js:404-413 | a file number compared with the integer id reads as 0, which no row has, so the lookup is empty |
| Uploads.SqlLeadingNumber | Backend/server.js:408-409 | a path segment that does not start with a digit is compared as id 0 |
| Uploads.DecimalIdSelectsId | Backend/server.js:404-409 | the decimal text of an id reads as that id |
| Uploads.Decimal | Backend/server.js:404 | the decimal text of an id is non-empty and all digits |
| Uploads.NoRowSelected | Backend/server.js:346-352 | the lookup by file number is empty exactly when no row carries it |
| Uploads.FirstRowSelected | Backend/server.js:354 | the first row the lookup returns is the first row with that file number |
| Assets.PublicUrl | Backend/server.js:189-194 | null exactly when no file part was sent; otherwise a truthy URL starting with the public base |
| Assets.LocalPath | Backend/server.js:421-426 | `getFilePath` is null exactly for a falsy URL; otherwise the path is the uploads directory followed by the URL's basename as text, which holds no '/' (a basename of "." or ".." is not normalised) |
| Assets.LocalPathOfPublicUrl | Backend/server.js:421-426 | the path derived from a stored public URL ends in the stored file name |
| JsStrings.Basename | Backend/server.js:424 | `path.basename` never contains a '/' |
| JsStrings.BasenameAfterSlash | Backend/server.js:424 | the basename of a directory ending in '/' followed by a slash-free name is that name |
| JsStrings.JoinSplit | frontend/src/pages/AdminPanel.jsx:137-138 | joining the pieces of `split(sep)` with `sep` gives back the string |
| JsStrings.SplitJoin | Backend/server.js:743 | splitting a join gives back the list when no element has an early separator and the last contains none |
| JsStrings.IndexOfFrom | frontend/src/pages/AdminPanel.jsx:137-138 | the first occurrence of the separator at or after the start, or none |
| JsStrings.Split | frontend/src/pages/AdminPanel.jsx:137-138 | `split` with a non-empty separator always yields at least one piece |
| JsStrings.SplitPiecesAreFree | frontend/src/pages/AdminPanel.jsx:137-138 | no piece of a split contains the separator |
| JsStrings.JoinEnds | Backend/server.js:743 | `join` of a non-empty list starts with the first element, followed by the separator when more follow, and ends with the last |
| Aggregates.Distinct | Backend/server.js:315-320 | each value once, the same values as the input |
| Aggregates.InsertByCount | Backend/server.js:262-267 | inserting into a list ordered by descending count keeps it ordered and adds exactly that group |
| Aggregates.SortByCountDesc | Backend/server.js:267 | `ORDER BY upload_count DESC`: ordered by descending count and a permutation of the groups |
| Aggregates.Summary | Backend/server.js:258-272 | the summary is ordered by descending count, has one group per key, and each group counts exactly the rows with its (design, front_depth) pair, at least 1 |
| Aggregates.SummaryMeaning | Backend/server.js:258-272 | one group for exactly each (design, front_depth) pair present, with its row count (at least 1), ordered by descending count |
| Aggregates.DesignCounts | Backend/server.js:283-291 | `design_counts` is ordered by descending count, has one group per design, and each group counts exactly the rows with that design, at least 1 |
| Aggregates.DesignCountsMeaning | Backend/server.js:283-291 | one group for exactly each design present, with its row count (at least 1), ordered by descending count |
| Aggregates.DesignCountsAddUpToTotal | Backend/server.js:283-305 | the design counts add up to `total_uploads` |
| Aggregates.SummaryAddsUpToTotal | Backend/server.js:258-272 | the summary counts add up to the number of uploads |
| Aggregates.TotalUploads | Backend/server.js:295-299 | the total is 0 for an empty table |
| Aggregates.Industries | Backend/server.js:315-320 | each industry present exactly once, and only those |
| Aggregates.GroupedCounts | Backend/server.js:262-267 | grouped counts: each key present has one group, each group's key is present, and its count is the number of rows with that key |
| Listings.DocumentDownloadLink | Backend/server.js:703-710 | the link is null exactly when `document_url` is falsy; any link it returns is the download route followed by a single name without '/' |
| Listings.DocumentLinkOfStoredDocument | Backend/server.js:703-710 | a directory added with a document links to its stored name; one added without links to nothing |
| Listings.InquiryFileUrl | Backend/server.js:499-504 | an inquiry's missing file is stored as "" and a present one as base + name |
| Listings.InquiryDownloadLink | Backend/server.js:622-627 | every inquiry link starts with the inquiry download route |
| Listings.InquiryLinkOfStoredFile | Backend/server.js:620-628 | a stored inquiry file links to its own name; a missing one links to the bare route |
| Listings.ClientsRoundTrip | Backend/server.js:743 | a non-empty list of names free of ", " is recovered by splitting the column on ", " |
| Listings.ClientsColumnAmbiguities | Backend/server.js:743 | an absent list and an empty list store the same column, as do one name holding ", " and two names |
| AdminPanel.SearchFrontDepth | frontend/src/pages/AdminPanel.jsx:74 | `front_depth` is "F X D" exactly when both parts are non-empty, and "" otherwise |
| AdminPanel.SearchFilterOf | frontend/src/pages/AdminPanel.jsx:72-79 | the search sends the form's design, the composed front_depth, and a set industry exactly as typed; the industry reads as empty exactly when it is unset or empty |
| AdminPanel.ResetSearchIsUnfiltered | frontend/src/pages/AdminPanel.jsx:91-98 | after Reset the search constrains nothing and the server returns every upload |
| AdminPanel.EditFrontDepth | frontend/src/pages/AdminPanel.jsx:105-106 | the edit's front_depth is always the template "F X D" (with "undefined" for an unset depth), never the fallback |
| AdminPanel.EditRequestOf | frontend/src/pages/AdminPanel.jsx:102-116 | design is the form's when non-empty and the file's otherwise; industry is the form's when set and non-empty and the file's otherwise; front_depth is the "F X D" template; the files are exactly the chosen ones |
| AdminPanel.SplitFrontDepth | frontend/src/pages/AdminPanel.jsx:137-138 | the depth is unset exactly when the string has no " X ", and then the front is the whole string; neither the front nor the depth ever contains " X " |
| AdminPanel.OpenEditParams | frontend/src/pages/AdminPanel.jsx:134-141 | opening a file fills design and industry from it and front and depth from the split |
| AdminPanel.SplitComposed | frontend/src/pages/AdminPanel.jsx:137-138 | splitting "F X D" recovers F and D when F has no " X " and does not end in " X", and D has no " X " |
| AdminPanel.NoEarlyDimensionSeparator | frontend/src/pages/AdminPanel.jsx:137-138 | under those conditions the first " X " is the one after F |
| AdminPanel.FrontEndingInXCounterexample | frontend/src/pages/AdminPanel.jsx:137-138 | "a X" and "b" compose to a string that splits into "a" and "X b" |
| AdminPanel.DepthHoldingSeparatorCounterexample | frontend/src/pages/AdminPanel.jsx:137-138 | "a" and "b X c" compose to a string that splits into "a" and "b" |
| AdminPanel.OpenThenSaveKeepsRecord | frontend/src/pages/AdminPanel.jsx:103-141 | opening a well-formed record and saving without changes leaves all its fields as they were |
| AdminPanel.OpenThenSaveWithoutSeparator | frontend/src/pages/AdminPanel.jsx:105-138 | a front_depth without " X " gets " X undefined" appended when an opened record is saved unchanged |
| AdminPanel.OpenedFileMatchesSearch | frontend/src/pages/AdminPanel.jsx:72-141 | searching right after opening a well-formed record finds it |
| AdminPanel.RemainingAfterDelete | frontend/src/pages/AdminPanel.jsx:65 | the kept list holds exactly the entries whose file_number differs |
| AdminPanel.RemainingKeepsOrder | frontend/src/pages/AdminPanel.jsx:65 | the kept entries stay in their original order |
| AdminPanel.RemainingDropsTheEntry | frontend/src/pages/AdminPanel.jsx:65 | with one entry of that number, exactly that entry goes |
| AdminPanel.RemainingWithoutTheNumber | frontend/src/pages/AdminPanel.jsx:65 | with no entry of that number, the list is unchanged |
| AdminPanel.Lower | frontend/src/pages/AdminPanel.jsx:275 | the result has the same length, no upper-case ASCII letter, and every character that is not an upper-case letter kept in place |
| AdminPanel.LowerIdempotent | frontend/src/pages/AdminPanel.jsx:275 | lower-casing an already lower-cased string changes nothing |
| AdminPanel.ShowsImage | frontend/src/pages/AdminPanel.jsx:274-287 | an image is shown exactly when the URL is truthy and matches the regular expression: a dot followed by "jpeg" or "jpg" up to the end, in any case |
| AdminPanel.SuffixTestIsPattern | frontend/src/pages/AdminPanel.jsx:274-275 | the lowered URL ending in ".jpg" or ".jpeg" is equivalent to the meaning of the regular expression |
| AdminPanel.ShowsStoredImage | frontend/src/pages/AdminPanel.jsx:274-275 | a stored file's public URL shows as an image exactly when the stored name ends in .jpg or .jpeg, in any case |
| AdminPanel.PanelState.constructor | frontend/src/pages/AdminPanel.jsx:19-30 | the page starts with no files, an empty form, not searched, nothing being edited and no error |
| AdminPanel.PanelState.HandleDelete | frontend/src/pages/AdminPanel.jsx:62-70 | on success the list becomes `RemainingAfterDelete`; on failure only the error message changes |
| AdminPanel.PanelState.HandleSearch | frontend/src/pages/AdminPanel.jsx:72-88 | sends `SearchFilterOf` of the form, shows the returned list or sets the error, and marks the page as searched |
| AdminPanel.PanelState.HandleReset | frontend/src/pages/AdminPanel.jsx:91-98 | design, front and depth become "", the industry is dropped, `searched` becomes false, nothing else changes |
| AdminPanel.PanelState.HandleOpenEdit | frontend/src/pages/AdminPanel.jsx:134-141 | the file becomes the edited one and the form becomes `OpenEditParams` of it |
| AdminPanel.PanelState.HandleEdit | frontend/src/pages/AdminPanel.jsx:101-130 | sends the file's number and `EditRequestOf` the form, the file and the chosen files; on success the edit form closes, on failure only the error message "Error updating file." is set |
| Tables.Where | Backend/server.js:229-247 | a selection returns rows of the table that satisfy the condition, and all of them |
| Tables.WhereAppend | Backend/server.js:229-247 | selection keeps table order |
| Tables.WhereFirst | Backend/server.js:354 | the first selected row is the first row of the table that satisfies the condition |
| Tables.WhereAllButOne | Backend/server.js:454 | when only one row fails the condition, the selection is the table without it |

## Left out

- String equality. Every `WHERE col = ?`, `GROUP BY` and `DISTINCT` compares strings exactly
  (`Users.Taken`, `Users.LoginMatcher`, `Uploads.MatchesFilter`, `Uploads.FileNumberIs`,
  `Aggregates.Groups`, `Aggregates.Distinct`). MySQL's default collations ignore letter case,
  and PAD SPACE collations also ignore trailing spaces. Under them, signup also rejects an
  email differing only in case, and the edit lookup also finds "ab1234c" for "AB1234C". The
  model does neither.
- Concurrency. Each route runs as one uninterrupted step. In the server, signup's SELECT and
  INSERT (Backend/server.js:97-112) can interleave with another signup and store a duplicate
  email or username, which `Users.UserTable.Valid` rules out. The edit's SELECT and UPDATE
  (Backend/server.js:346-384) and the delete's SELECT and DELETE have the same gap.
- AdminPanel.PanelState: the `loading` flag, the chosen files and the industries list are not
  fields. The chosen files are parameters of `HandleEdit`.
- The MySQL pool, the connection test and every 500 error path. A statement is assumed to
  succeed (Backend/server.js:24-44 and each `catch`).
- Express routing, CORS, JSON parsing, static serving and `listen`. Logging is left out too.
- Multer's disk storage and its `Date.now()` file names. The stored file name is an input.
  Multer saves under `uploads/` relative to the working directory, while `getFilePath` joins
  `__dirname`. The model assumes these agree.
- bcrypt and JWT internals. `Users.IsSound` states the one law that is assumed.
- `Math.random` as floating point. A draw is a mathematical real in [0, 1), not a double.
- Assets.LocalPath: Node's `path.join` normalisation of "", "." and ".." segments is not
  modelled; the text is joined directly. A stored URL ending in "/.." therefore gives the
  uploads directory followed by "..", which `path.join` resolves to the server directory
  itself. The model does not promise that the path names a file inside the uploads directory.
- `existsSync`, `unlink` and `createReadStream`. Existence is a set of paths given to the
  route. `Delete` reports which unlinks it attempts, not whether they succeed.
- The download branches of `GET /get-directories` and `GET /get-inquiries`, which resolve the
  `download` parameter with `path.resolve`. Nothing here claims that this path stays inside
  the uploads directory.
- The inquiry insert (Backend/server.js:466-580) beyond its two file URLs, the directory and
  event inserts beyond the `documentUrl` and `existing_clients` values, and the events query.
- Uploads.UploadTable.AddUpload: a multipart field that is missing entirely is stored as
  NULL by the server. The model stores "" for it. It therefore does not capture what a NULL
  column does later in the panel: `handleEdit` (frontend/src/pages/AdminPanel.jsx:103-113)
  falls back to a NULL `industry`, `FormData.append` sends it as the text "null", and the
  server stores that text; and a NULL `front_depth` makes `split` in `handleOpenEdit` throw.
- Uploads.SqlLeadingNumber: MySQL also skips leading spaces and reads a sign, a decimal
  point and an exponent. Only leading decimal digits are modelled.
- Aggregates.SortByCountDesc: MySQL leaves the order of equal counts open. The model fixes
  one of the allowed orders, and the lemmas do not depend on which one.
- A query without `ORDER BY` returns rows in table order in this model. MySQL does not
  promise any order.
- React rendering, hooks, axios and the re-fetch that `handleReset` and `handleEdit` start
  afterwards. The outcome of a request is a parameter of each handler.
- The presentation files (ViewDirectory.jsx, Header.jsx, Footer.jsx, App.jsx) are not part
  of this model.
