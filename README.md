# Job-application backend: a verified model of its request logic

The backend (`Backend/server.js`) is a small REST service. Applicants submit personal
details and up to five scanned documents. Staff list and filter applications, approve or
reject them, and attach or remove an offer letter. One Postgres table (`applications`)
holds the rows, and one directory (`uploads`) holds the files.

This Dafny project models the logic inside the request handlers:

- `text.dfy` (module `Text`): string helpers. These are the regex `test` as a left-to-right
  scan, `toLowerCase`, `join`, and decimal rendering.
- `records.dfy` (module `Records`): the row, its status, its file records, and the status
  whitelist.
- `upload.dfy` (module `Upload`): the multer file filter and `path.extname`.
- `intake.dfy` (module `Intake`): the submission rules. These are the required-field check,
  the `documents` loop, the employment history, the duplicate rule, and the inserted row.
- `list_query.dfy` (module `ListQuery`): the listing route's SQL text and placeholder values.
- `store.dfy` (module `Store`): class `ApplicationStore`. Its `table` is a map from id to
  row, its `files` is the set of paths in the uploads directory, and `nextId` is the id
  sequence. The handlers are methods on it.
- `scenarios.dfy` (module `Scenarios`): client methods that walk through request sequences
  using only the store's contracts.

Multer runs before a handler. So an operation that receives files first adds their paths
to `files`. If multer refuses a file, the operation stores nothing and answers
`UploadRefused`. A refused file is one in an undeclared field, or one that fails the
filter. Multer deletes what it already wrote before it raises that error.

The current date and the generated file paths are nondeterministic in the source. Here
they are parameters: `today`, and the `path` of each uploaded `FileInfo`.

The code leaves these gaps in clean-up, and the model keeps them:

- Files are not always cleaned up. A submission refused with 400 leaves its uploaded files
  on disk. Replacing an offer letter does not delete the old file. `ClearAll` deletes only
  files that some row still refers to, so these orphans survive it.
- "Every referenced file exists" is not guaranteed by the code. It holds only while newly
  written paths are fresh, that is, not already in the directory. The store proves
  `Consistent()` is preserved under exactly that condition. If names collide, the 404
  clean-up of the offer-letter route can delete a file that another row refers to.

## Model

| member | source | states |
|---|---|---|
| `Text.Test` | Backend/server.js:38-40 | the regex test is true iff one of the alternatives occurs at some position of the string |
| `Text.SearchFrom` | Backend/server.js:38-40 | scanning from position i finds a match iff an alternative occurs at some position at or after i |
| `Text.ToLower` | Backend/server.js:40 | lower-casing keeps the length and maps each character through ASCII lower-casing |
| `Text.DecimalRoundTrip` | Backend/server.js:155 | the placeholder number printed into the query reads back as the same number |
| `Records.ParseStatus` | Backend/server.js:193-195 | a status value is accepted iff it is one of approved, rejected or pending; the accepted status is named by the request value |
| `Records.StatusRoundTrip` | Backend/server.js:193 | every status a row can hold passes the whitelist and parses back to itself |
| `Upload.ExtName` | Backend/server.js:40 | the extension is non-empty iff the last segment is not ".." and has a dot after its first character; it is then a suffix of the slash-trimmed path that starts with its only dot and has no slash |
| `Upload.FileAccepted` | Backend/server.js:37-45 | a file is accepted iff its MIME type contains pdf, jpeg, jpg or png and its lower-cased extension also contains one of them |
| `Upload.ExtNameOfDottedName` | Backend/server.js:40 | the name base.ext has extension .ext whenever base is not empty and the name is not ".." |
| `Upload.NoDotNoExtension` | Backend/server.js:40 | a name with no dot has an empty extension |
| `Upload.NoExtensionRefused` | Backend/server.js:38-44 | a file whose name has an empty extension is refused whatever its MIME type |
| `Upload.DotFileRefused` | Backend/server.js:38-44 | a dot-file such as ".pdf" has an empty extension, so it is refused whatever its MIME type |
| `Upload.AcceptsExtensionContainingType` | Backend/server.js:38-44 | because the regex is unanchored, any extension that contains an allowed word in any letter case passes when the MIME type does |
| `Upload.RejectsTextFile` | Backend/server.js:38-44 | a .txt file is refused whatever MIME type it claims |
| `Intake.UploadsAccepted` | Backend/server.js:37-62 | multer lets the request through only if every file sits in one of the five declared fields and passes the filter; so at most five files arrive |
| `Intake.MissingRequiredField` | Backend/server.js:71-73 | the 400 guard holds iff one of role, location, fullName, email, phone, gender, fatherName, fatherPhone is absent or empty |
| `Intake.BuildDocuments` | Backend/server.js:89-100 | the documents map has exactly the uploaded categories among ssc, inter, graduation, postgrad and relieving, each mapped to its upload's record |
| `Intake.AcceptedUploadsAreAllRecorded` | Backend/server.js:56-62 | once multer has accepted the uploads, the documents map equals the uploads |
| `Intake.EmploymentHistoryFor` | Backend/server.js:102-107 | the employment history is present iff employmentStatus is "experienced", and then carries companyName, companyLocation and experience |
| `Intake.PersonalInfoOf` | Backend/server.js:119 | personal_info carries the form's fullName, email, phone, gender, fatherName and fatherPhone, and its name, email and phone are not empty |
| `Intake.NewApplication` | Backend/server.js:109-125 | the inserted row has the form's role, location, personal info and employment status, the employment history of the form (present iff experienced), the given documents, status pending, no offer letter and today's date |
| `Intake.IsDuplicate` | Backend/server.js:75-87 | the handler's test that the duplicate query returned rows holds iff some stored row has the same email and phone and was created today |
| `Intake.SameDayResubmissionIsDuplicate` | Backend/server.js:75-87 | after a row is stored, the same email and phone on the same day are a duplicate |
| `Intake.OtherDayIsNotDuplicate` | Backend/server.js:75-87 | a row created on another day never makes a submission a duplicate |
| `ListQuery.BuildListQuery` | Backend/server.js:137-160 | without filters the query is the bare SELECT with no values; otherwise the i-th condition reads $(i+1), the i-th value is what it compares against, and the conditions are joined by AND |
| `ListQuery.RequestedConditions` | Backend/server.js:141-159 | the conditions are the search condition on $1 when search is non-empty, then the status condition on the next number when status is not "all" |
| `ListQuery.SearchConditionIsFirst` | Backend/server.js:146-151 | the $1 written into the search condition is the placeholder of the first condition |
| `ListQuery.NoFilterIffUnfiltered` | Backend/server.js:141 | there is no WHERE clause iff search is empty and status is "all" or absent |
| `ListQuery.StatusPlaceholder` | Backend/server.js:154-157 | the status condition is the last one and reads $1 without a search and $2 with one |
| `ListQuery.StatusPlaceholderReadsBack` | Backend/server.js:155 | the number after "status = $" reads back as the placeholder index it was built from |
| `ListQuery.BothFiltersJoined` | Backend/server.js:159 | with both filters, the clause is the search condition, " AND ", and the status condition on $2 |
| `Store.InsertKeepsConsistent` | Backend/server.js:89-125 | inserting a row whose files were all freshly written keeps every reference stored and no file shared |
| `Store.AttachKeepsConsistent` | Backend/server.js:227-238 | pointing a row at a freshly written offer letter keeps the store consistent |
| `Store.ApplicationStore.constructor` | Backend/server.js:48-51 | the store starts with an empty table over an uploads directory that may already hold files |
| `Store.ApplicationStore.Submit` | Backend/server.js:56-132 | multer refusal stores nothing; otherwise the uploads are on disk. A missing field, then a same-day duplicate, each give 400 with the table unchanged. Otherwise exactly one new row is added under a fresh id |
| `Store.ApplicationStore.Insert` | Backend/server.js:109-125 | the row for an accepted submission is added under the next id, the sequence advances, and the store stays consistent when the documents were freshly written |
| `Store.ApplicationStore.UpdateStatus` | Backend/server.js:190-211 | an invalid value gives 400 and an unknown id 404, both with nothing changed; otherwise only that row's status changes, to the requested one, from any prior status |
| `Store.ApplicationStore.AttachOfferLetter` | Backend/server.js:214-246 | no file gives 400. An unknown id deletes the new file and gives 404. Otherwise only that row's offer letter changes, and no file is deleted, so the previous letter's file stays |
| `Store.ApplicationStore.RemoveOfferLetter` | Backend/server.js:249-275 | an unknown id gives 404 with nothing changed; otherwise the letter's file is deleted if present and the row's offer letter becomes null |
| `Store.ApplicationStore.DeleteRowFiles` | Backend/server.js:282-291 | the files left are the old ones minus every document and offer-letter path of the row |
| `Store.ApplicationStore.ClearAll` | Backend/server.js:278-300 | afterwards no row remains, and the files left are the old ones minus every path any row referred to |

## Left out

- Express setup, CORS, JSON parsing, static serving of `/uploads`, and `app.listen` (lines 8-14 and 303-305): HTTP plumbing.
- The pg pool (lines 17-23) and the evaluation of SQL (`->>`, `ILIKE`, `DATE(created_at)`): a database. The listing route is modelled only as the SQL text and values it builds. Running the query, and the single-record lookup (lines 171-187), are not part of this model.
- Multer's disk storage, file naming with `Date.now()` and `Math.random()`, and the 5 MB limit (lines 26-36): library internals. Uploaded files arrive as values with their stored path. A second file in one field is a multer error that the model does not represent.
- The clock (line 76) is the `today` parameter. The model assumes the server's UTC date and Postgres's `DATE(created_at)` name the same day, which depends on the database time zone.
- Every 500 path, the `console.error` logging, and failures of `unlinkSync`: exception handling and I/O.
- Ids are natural numbers. A non-numeric id in the URL makes Postgres fail with a 500, which is not modelled.
- Creating the uploads directory at startup (lines 49-51): the store starts from a given directory content.
- The race between the duplicate check and the insert under concurrent requests: concurrency, which the code does not handle.
- `Text.ToLower`: does not model full Unicode lower-casing, only ASCII. No other character lower-cases into p, d, f, j, e, g or n, so the filter's verdict is the same.
- Request fields are strings or absent. A non-string JSON `status` fails the whitelist exactly like an absent one. Array-valued query parameters are not modelled.
- `Store.ApplicationStore.Submit`, `Store.ApplicationStore.AttachOfferLetter`: preserve `Consistent()` only when the newly written paths are fresh. The source does not promise more, because file names are unique only in practice.
