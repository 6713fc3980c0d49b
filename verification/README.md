# Attendance tracker core, in Dafny

This project models the logic of a school attendance tracker: an Express
server over MySQL (`server.js`) and its browser client (`public/script.js`).
Students scan a card barcode at a kiosk and the server records a check-in
time. Staff manage the student roster and read daily attendance, absent/late
and summary reports, which they export as CSV.

The model takes that logic out of the HTTP handlers and SQL and states it over
immutable values:

- `Domain`:
  - the `students` table is a `Roster`; the `attendance` table is a `Ledger`.
    Each is a sequence of rows in primary-key order, plus the next
    auto-increment value.
  - the `forms` table is a `Catalog`, a map from form number to its class names.
  - invariants: keys increase (`ValidRoster`, `ValidLedger`); at most one row
    per student per day (`OnePerDay`); every attendance row belongs to a
    student on the roster (`Linked`, the table's foreign key).
- `Clock`: a time of day is a number of seconds. `FormatTime` is the
  zero-padded `HH:MM:SS` text the server stores and compares. The 07:45:00
  cutoff is `LateCutoff` and the two-hour cooldown is `Cooldown`.
- `Scanning`: `POST /api/attendance/scan` as a function from roster, ledger,
  barcode, date and time to one of five outcomes plus the new ledger.
- `Cleanup`: the start-up query that deletes all but the latest row per
  student and day.
- `Reports`: `GET /api/students`, `GET /api/attendance/:date`,
  `GET /api/absent-late/:date` and `GET /api/stats`.
  - The joins are written out over the sequences, including the left join's
    all-NULL row.
  - `ORDER BY name` is a stable insertion sort on the code-point order of names.
- `Admin`: creating, editing and deleting students, and deleting a student's
  attendance. Error results carry the handlers' status codes and messages.
- `Client`: the browser's pure helpers:
  - the scan guard and the ten-entry scan history
  - the local search
  - the Present/Absent label and both CSV exports
  - export file names, the barcode-sheet title and the listing URLs
- `Text`, `Lists`, `Base`: the string, sequence and option/result vocabulary
  used above (decimal text and padding, split/join, lowercasing, trimming,
  code-point order, filtering, sorting).

"Now", "today" and the current year are parameters. Nothing reads a clock.

Four points of the code's behaviour shape the model:

- There is no check-in time window (no "too early" or "too late" rejection).
- A second scan on the same day is not rejected as a duplicate. Within two
  hours of the stored check-in it answers `cooldown_checkin` and changes
  nothing. After that it overwrites the row's `time_in`.
- The status column is always the default `'present'`. Lateness is computed
  at report time against the fixed 07:45:00 cutoff.
- The absent/late report reports "Absent" (no row that day) and "Late" (a row
  after the cutoff). The stats count the same students, and only from 07:45:00
  on.

## Model

| member | source | states |
|---|---|---|
| Scanning.Scan | server.js:338-415 | An empty barcode gives "Barcode is required" and an unknown one gives "Student not found"; neither, nor a cooldown, changes the ledger. A first scan of the day appends exactly one row (the student, today, now, status 'present') and keeps every other row. A repeat scan within 7200 s of the stored time answers cooldown with the remaining seconds. A later repeat overwrites only that row's time_in. |
| Scanning.ScanCounts | server.js:369-403 | Per student and day the row count after any scan is unchanged, except that a first check-in takes the scanned student's count for today from 0 to 1. |
| Scanning.ScanKeepsOnePerDay | server.js:369-403 | No scan ever creates a second row for a student and day: one row per student per day is preserved. |
| Scanning.ScanKeepsValid | server.js:398-401 | A scan keeps row keys increasing and below the auto-increment counter. |
| Scanning.ScanTwiceWithinCooldown | server.js:369-382 | A check-in followed by a second scan less than two hours later gives cooldown with 7200 minus the elapsed seconds remaining, leaves the ledger as the first scan made it, and keeps one row. |
| Scanning.ScanTwiceAfterCooldown | server.js:384-397 | A check-in followed by a second scan two or more hours later re-checks-in at the second time and still leaves exactly one row. |
| Scanning.ScanKeepsLinked | server.js:76-84 | A scan only inserts rows for a student found on the roster, so the attendance-to-student foreign key keeps holding. |
| Cleanup.CleanupDuplicates | server.js:133-150 | Cleanup keeps only rows of the ledger, and no kept row has a same-student same-day row with a larger id. Every row that no such row outranks is kept. |
| Cleanup.CleanupOnePerDay | server.js:137-144 | After cleanup each student has at most one row per day, and the ledger stays well formed. |
| Cleanup.CleanupKeepsEveryDay | server.js:137-144 | Every student and day that had a row before the cleanup still has one (its row with the greatest id). |
| Cleanup.LatestOnDay | server.js:137-144 | For a student and day with rows, picks the row with the greatest id. |
| Cleanup.CleanupKeepsSingleRow | server.js:137-144 | A student and day with a single row keeps exactly that row. |
| Cleanup.CleanupIdempotent | server.js:133-150 | Running the cleanup twice is the same as running it once. |
| Reports.ListStudents | server.js:213-239 | The listing is sorted by name and is a permutation of the roster students that pass the form and class filters. A student is listed iff the student passes the filters. |
| Reports.LeftJoin | server.js:508-509 | The left join of one student: each of the student's rows that day, or one NULL row exactly when there is none. |
| Reports.AttendanceForDate | server.js:418-448 | The attendance of a date is sorted by name and is a permutation of the inner join. A joined row appears iff its record has that date, its student has the record's school id and passes the filters. |
| Reports.AttendanceOncePerStudent | server.js:418-448 | With one row per student per day and unique school ids on the roster, no student appears twice in a date's attendance. |
| Reports.AbsentLate | server.js:494-531 | The report is sorted by name. Every row is a roster student that passes the filters and is either "Absent" with no check-in time and no row that day, or "Late" with the check-in time of a row after 07:45:00. Every such student is reported. |
| Reports.NeverPresent | server.js:500-508 | A reported status is "Absent" or "Late", never "Present", and it is "Absent" exactly when the student has no row that day. |
| Reports.AbsentLateOncePerStudent | server.js:494-531 | With one row per student per day and unique roster keys, each student appears at most once in the absent/late report. |
| Reports.CheckedInStudents | server.js:458-465 | The students counted as present are exactly the roster students with a row today, in roster order. |
| Reports.AbsentLateStudents | server.js:472-478 | The students counted as absent or late are exactly the roster students with no row today or a row after 07:45:00. |
| Reports.ComputeStats | server.js:451-491 | completed_today always equals present_today, and absent_late_today is 0 whenever the time is before 07:45:00. |
| Reports.StatsMatchReport | server.js:470-478 | From 07:45:00 on, the absent/late count is the number of distinct students the unfiltered absent/late report lists for today. |
| Reports.StatsCounts | server.js:451-491 | On a well-formed roster, total_students is the roster size and present_today is the number of students with a row today. From the cutoff on, absent_late_today is the number of absent or late students. Both counts are at most the total. |
| Clock.FormatTimeOrder | server.js:470 | Comparing two zero-padded HH:MM:SS texts lexicographically gives the same answer as comparing the times of day. |
| Clock.ParseFormatTime | server.js:360 | The HH:MM:SS text of a time of day reads back as that time. |
| Admin.Validate | server.js:246-280 | Accepted iff name, form and class are present, the form is in the catalog and the class is in that form's list. Otherwise "Missing required fields" when a field is missing, else "Invalid form" when the form is unknown, else "Invalid class for this form". |
| Admin.SharedValidation | server.js:624-658 | Create and update reject a request with the same validation error in exactly the same cases. |
| Admin.ClassLetter | server.js:296-305 | The class letter is 'X' exactly for a class outside the seven names, and one of 'A'–'G' otherwise. |
| Admin.ClassLetterInjective | server.js:296-304 | Different mapped classes get different letters. |
| Admin.ParseGenerateId | server.js:282-307 | For a four-digit year and a form below 100, a generated id reads back as its year, two-digit form, class letter and sequence number. |
| Admin.GenerateIdInjective | server.js:307 | Different sequence numbers give different ids for the same year, form and class. |
| Admin.BarcodeFor | server.js:311 | The barcode is "SMK" followed by the school id. |
| Admin.UsedIds | server.js:313-332 | The ids an insert is refused for are exactly those equal to a stored school id or whose "SMK" barcode is already stored. |
| Admin.CreateAsWritten | server.js:282-332 | The handler as written: with a generated id the sequence is the class count plus one, and the insert is refused with "Student ID or barcode already exists" exactly when that id or its barcode is taken. |
| Admin.AsWrittenReusesId | server.js:286-307 | In a class whose remaining student holds number 2 after number 1 was deleted, the handler generates "202501A002" again and refuses the create, while the corrected create succeeds. |
| Admin.FreshId | server.js:282-307 | The corrected generated id never clashes. It is a generated id whose sequence number exceeds the class count, and it equals the handler's count-plus-one id whenever that one is free. |
| Admin.Create | server.js:242-335 | Validation errors pass through unchanged. "already exists" happens iff a given id clashes. A successful create appends one student with the next key, the requested fields, the given or a fresh id and its "SMK" barcode. |
| Admin.CreateAgrees | server.js:282-332 | Whenever the handler's own id is free, the corrected create returns exactly what the handler returns. |
| Admin.CreateKeepsValid | server.js:64-69 | Create keeps roster keys increasing and school ids and barcodes unique. |
| Admin.Update | server.js:619-674 | After validation, "Student not found" iff no student has the key. Otherwise only that student's name, form and class change, and every other student, key, school id and barcode stays as it was. |
| Admin.UpdateIdempotent | server.js:660-663 | Applying the same accepted edit twice is the same as applying it once. |
| Admin.UpdateKeepsValid | server.js:660-663 | An edit keeps the roster well formed. |
| Admin.Delete | server.js:567-616 | "Student not found" iff the key is unknown. "Cannot delete student with attendance records" iff the student has rows and cascade is not "true". Otherwise exactly that student and (with cascade) exactly their rows are removed; without rows the ledger is untouched. |
| Admin.DeleteAttendance | server.js:534-564 | "Student not found" iff the key is unknown. Otherwise exactly the student's rows are removed and the deleted count is their number. |
| Admin.DropStudent | server.js:594-597 | Deleting by school id keeps exactly the other students' rows in their order, and removes as many rows as the student had. |
| Admin.DeleteKeepsValid | server.js:534-616 | Both deletes keep the roster and the ledger well formed. |
| Admin.DeleteKeepsLinked | server.js:578-609 | Deleting a student (with cascade when needed) never leaves an attendance row without its student. |
| Admin.CreateUpdateKeepLinked | server.js:619-674 | Creating or editing a student keeps every attendance row linked to a roster student, since an edit never changes a school id. |
| Client.ProcessBarcode | public/script.js:176-207 | No request is made exactly when the input is empty or whitespace only. Otherwise the trimmed barcode is sent, non-empty with no whitespace at either end. |
| Client.SentBarcodeAccepted | public/script.js:177-207 | The sent barcode passes the guard unchanged and the server never answers it with "Barcode is required". |
| Client.HistoryHoldsLatest | public/script.js:222-225 | After any run of scans the history is the newest entries first, followed by the older history, cut to ten. |
| Client.HistoryOfSession | public/script.js:222-225 | A session's history is its ten most recent scans, newest at index 0, never longer than ten. |
| Client.RecordAnswer | public/script.js:214-243 | Only a successful answer adds an entry, at the front, with the student and action, and the history is then cut to ten entries exactly as any other push. Its time is the server's time, or the browser's clock for a cooldown. A refused scan leaves the history unchanged. |
| Client.LocalSearch | public/script.js:464-490 | With a form or class selected the list is reloaded. Otherwise exactly the loaded students whose name, school id or class, lowercased in the ASCII letters, contains the term lowercased the same way are shown, in their order. |
| Client.EmptyTermShortcut | public/script.js:481-487 | Skipping the filter for an empty term shows what filtering with it would: every student. |
| Client.SearchNarrows | public/script.js:478-487 | Typing more characters only narrows the local search. |
| Client.StatusLabel | public/script.js:788-789 | The label is "Present" iff time_in is a non-empty string, and "Absent" otherwise. |
| Client.LabelFollowsTimeIn | public/script.js:1287 | For a stored row, the label shown and exported is "Present" exactly when the row has a check-in time. |
| Client.AttendanceFields | public/script.js:1281-1288 | An attendance line has six fields: the quoted name, the school id, "Form " and the form number, the quoted class, then the HH:MM:SS check-in time and "Present", or an empty time and "Absent" when the row has none. |
| Client.AttendanceCsvLines | public/script.js:1277-1289 | When no text field holds a newline, the attendance CSV splits into the header line and then exactly one line per record, in order. |
| Client.AttendanceLineFields | public/script.js:819-830 | When no text field holds a comma, an attendance line splits back into exactly its six fields. |
| Client.AbsentLateFields | public/script.js:1294-1301 | An absent/late line has six fields: the quoted name, the school id, "Form " and the form number, the quoted class, the HH:MM:SS check-in time or "Not checked in" when there is none, and the status. |
| Client.AbsentLateCsvLines | public/script.js:1290-1302 | When no text field holds a newline, the absent/late CSV splits into its header line and one line per reported student, in order. |
| Client.AbsentLateLineFields | public/script.js:1294-1301 | When no text field holds a comma, an absent/late line splits back into exactly its six fields. |
| Client.FilterSuffix | public/script.js:1306-1313 | The file-name suffix is empty exactly when neither filter is set. |
| Client.SuffixRoundTrip | public/script.js:1306-1313 | The suffix determines the filters: "_Form{f}_{c}", "_Form{f}" and "_{c}" read back as the form and class that produced them. |
| Client.ExportFilename | public/script.js:1320 | The file name starts with "{type}_{date}" and ends in ".csv". |
| Client.ExportNameRoundTrip | public/script.js:1306-1320 | Cutting "{type}_{date}" and ".csv" off a file name leaves a suffix that reads back as the selected form and class. |
| Client.BarcodeSheetTitle | public/script.js:897-905 | The title is "All Students" exactly when no filter is set. It starts with "Form " when a form is set and is "Class {c}" for a class alone. |
| Client.TitleAndSuffixAgree | public/script.js:897-905 | The sheet title and the export suffix agree on whether any filter is set. |
| Client.QueryReads | public/script.js:870-887 | The server reads the query the page builds, with its fragment cut off and '+' read as a space, as the selected form and class with each '+' turned into a space, when neither holds "&" or "#". |
| Client.QueryRoundTrip | public/script.js:870-887 | For filters holding none of "&", "+", "%" and "#", the server reads back exactly the selected form and class. |
| Client.PlusReadAsSpace | public/script.js:876-884 | A class holding '+' is not read back as itself: the page writes it unescaped and the server reads a space. |
| Client.WithQuery | public/script.js:1258-1264 | A listing URL is the path, followed by "?" and the query only when a filter is set. |
| Client.ReportUrl | public/script.js:1250-1264 | An export fetches the attendance listing for "attendance" and the absent/late listing otherwise, for the chosen date. |
| Lists.SortByName | server.js:232 | Sorting by name yields a sequence sorted by the name order and a permutation of its input. |
| Lists.WhereKeepsDistinct | server.js:458-465 | Filtering a sequence with distinct keys keeps them distinct. |
| Text.SplitJoin | public/script.js:1277-1289 | Splitting a join of separator-free pieces gives back the pieces. |
| Text.LexTotal | server.js:232 | The code-point order on names is total. |

## Left out

- Database bootstrap, table creation and form seeding (server.js:31-130), and the Express routing: every handler's SQL runs against the in-memory roster and ledger, and the answers are datatypes rather than HTTP responses.
- `GET /api/forms` and the `JSON.parse` of a stored class list, with its comma-split and default fallbacks: the catalog is a typed map from form number to class names.
- A database error answered with status 500: the in-memory operations cannot fail that way.
- The clock: today, the time of day and the year are parameters. The server's mix of a UTC date with a local time (server.js:359-361) is not modelled.
- Scanning.Scan: the remaining cooldown is whole seconds rather than hours rounded with `toFixed(1)`, and the answer messages are not built.
- Scanning.Scan: a NULL time_in is never in cooldown (the JavaScript elapsed time is NaN), and the absent/late report neither flags nor counts it (NULL is not after the cutoff). Both follow from the source rather than being chosen.
- Reports.ListStudents: `ORDER BY name` uses code-point order, not the database collation. The sort is stable, while the database leaves ties unordered.
- Scanning.Scan: the barcode lookup compares barcodes exactly. The tables are created without a charset or collation (server.js:63-84), so the MySQL server's default applies, and the usual default `_ci` collations match without regard to case (and, depending on the collation, accents and trailing spaces). Such a server checks in a student scanned as "smk202501a001" whose barcode is "SMK202501A001"; the model answers "Student not found". The collation is server configuration, so no one comparison can be fixed here.
- Admin.UsedIds and Admin.Create: the UNIQUE school id and barcode columns are modelled with exact comparison, for the same reason. Under a `_ci` collation an id differing from a stored one only in case is also refused.
- Reports.ListStudents, Reports.AttendanceForDate and Reports.AbsentLate: the class filter and the join on school id compare exactly, for the same reason; under a `_ci` collation they also match values differing only in case.
- Client.LocalSearch: lowercasing maps only the ASCII letters 'A'–'Z'. JavaScript `toLowerCase` folds every Unicode letter, so a student named "É" is shown for the term "é" by the page but not by the model.
- The `form` query and body value is `Option<int>`. `parseInt` leniency (a value like "1abc") and NaN are not modelled, and `class` is a string that is "" when unset.
- Admin.ClassLetter: JavaScript object keys such as "toString" would map to a function rather than 'X'. The seven names and 'X' for everything else are modelled.
- Column widths (`VARCHAR(10)` for a class and the like) are not enforced.
- Concurrency: two scans racing between the lookup and the insert are not modelled. Each operation is one atomic step.
- Client: DOM rendering, toasts, sound, barcode images, print windows, the camera integration, keystroke debouncing, the `isProcessingScan` flag and its two-second reset, and the `clientTime` field the server ignores.
- Client.QueryRoundTrip: the server's query parser also decodes "%XX" escapes, which ReadQuery does not model, so the round trip requires filters without "%" as well as without "&", "+" and "#" (which ReadQuery does model). The `URLSearchParams` escaping of the export's listing URL (public/script.js:1258-1264) is not modelled either: WithQuery writes the query as plain text.
- Client.RecordAnswer: the history entry's message text is not modelled.
- Client.BarcodeSheetTitle: the contract states which titles mean "no filter", the "Form " prefix and the class-only title. The exact two-filter and form-only texts are left to the body.
- Client.AttendanceCsvLines and Client.AbsentLateCsvLines: CSV quoting is verbatim as in the source, so the line structure is proved only for rows whose text holds no newline. AttendanceLineFields and AbsentLateLineFields likewise require text with no comma.

## Findings

| source | as written | input that shows it | evidently intended | confidence | as-written member | corrected member |
|---|---|---|---|---|---|---|
| server.js:286-307 | A generated id uses the sequence `COUNT(*)` of the form and class plus one. | Form 1, class Advance, year 2025. After the student numbered 001 is deleted, the class holds one student, "202501A002". A create without an id generates "202501A002" again and is refused with "Student ID or barcode already exists", every time. | A generated id that is not yet taken. | medium, not executed | Admin.CreateAsWritten, Admin.AsWrittenReusesId | Admin.Create, Admin.FreshId, Admin.CreateAgrees |
