# Face attendance bookkeeping, modelled in Dafny

This project models the bookkeeping of three attendance apps from one repository. Face
detection, the camera and the files stay outside the model.

- **The office app** (`venv/updated_code.py`) keeps two dictionaries in memory and pickles
  them after each change: `users` (name to profile) and `known_face_encodings` (name to face
  embedding). It also keeps an attendance sheet. Module `Office` models these as the class
  `AttendanceSystem`. A Python dict remembers insertion order, so each dictionary is an
  `OrderedDicts.ODict`: a key-order sequence plus a map. The app registers admins and users
  and rejects names it already has. It matches a captured face against the stored faces,
  taking the first one in dictionary order whose similarity is above 0.7. It classifies the
  punch by the time of day and keeps at most one row per (name, date). It computes a monthly
  summary and salary, and it gates user deletion and the report download behind an admin
  password. Module `OfficeRules` holds the rules that do not touch the stored state.
- **The face-identification app** (`app.py`) keeps one CSV row per registration. That row is
  also the person's punch card: a recognised face is meant to set In Time when it is empty and
  Out Time otherwise (see "## Findings" for what the code does instead). Module `FaceLog` models it, with the class `FaceRegistry` for the sheet
  and the saved face files.
- **The simple app** (`appD.py`) keeps one table per day, in a file named after the date. A
  name is marked present at most once per day. Module `DailyRegister` models it, with the
  class `Register`.

Modelling choices:

- Times of day are whole seconds after midnight (`Common.Seconds`, 0 to 86399).
- Dates and months are strings. "In month m" is the prefix test `m <= date`.
- Salaries are `real`.
- Similarity scores, face distances and `compare_faces` match flags are inputs. A face
  detector that finds no face is modelled as an absent input (`None`).
- The password hash is the class constant `AttendanceSystem.hash`. Its body is left
  uninterpreted.
- The current date and time are a `Common.Clock` parameter.

## Model

| member | source | states |
|---|---|---|
| `OrderedDicts.ODict.Put` | venv/updated_code.py:108 | Assigning a key keeps the dict well formed. A new key is added at the end of the iteration order. An existing key keeps its place and gets the new value. |
| `OrderedDicts.ODict.Remove` | venv/updated_code.py:352-354 | `pop` removes exactly that key. The remaining keys keep their values, and the key order is the old order without that key. |
| `OrderedDicts.ODict.RemoveKeepsOrder` | venv/updated_code.py:352-354 | Popping a stored key that sits at position i leaves the keys before i and after i in their old order, with the gap closed. The match loop and the user listing then see the remaining users in registration order. |
| `OrderedDicts.ODict.SizeIsLength` | venv/updated_code.py:320 | The dict's size equals the number of keys in iteration order. |
| `OfficeRules.MatchFrom` | venv/updated_code.py:155-160 | The loop continued from position i returns only a name at or after i whose score is above 0.7. `MatchFromIsFirstAbove` completes this: it is the first such name, and there is none exactly when no later score exceeds 0.7. |
| `OfficeRules.Matched` | venv/updated_code.py:155-163 | The match is a stored name whose score is above 0.7. `MatchedIsFirstAboveThreshold` completes this: it is the first such name in dictionary order. |
| `OfficeRules.MatchedIsFirstAboveThreshold` | venv/updated_code.py:155-163 | The match is the name at the first position whose score is strictly above 0.7. There is no match exactly when no score is above 0.7. |
| `OfficeRules.MatchFromIsFirstAbove` | venv/updated_code.py:155-160 | Scanning from any position finds the first later score above 0.7, or finds nothing exactly when no later score is above 0.7. |
| `OfficeRules.MatchNeedNotBeBest` | venv/updated_code.py:155-160 | The first name above the threshold wins over a later, more similar face. |
| `OfficeRules.Classify` | venv/updated_code.py:180-189 | 12:55:00 to 13:05:00 inclusive is Full Day. After 13:05:00 up to 17:00:00 is Late. After 17:00:00 is Half Day (both branches). Before 12:55:00 is Absent. Each status holds exactly in its window. |
| `OfficeRules.Record` | venv/updated_code.py:198-211 | The old sheet is a prefix of the new one, at most one row is added, and afterwards the name has a row for the date. |
| `OfficeRules.RecordAppendsOnly` | venv/updated_code.py:198-211 | A punch keeps every earlier row as a prefix and adds at most one row. It adds a row exactly when the name had none for that date. The new row carries the name, date, time and classified status. Afterwards the name has a row for the date. |
| `OfficeRules.RecordKeepsOnePerDay` | venv/updated_code.py:198-200 | If the sheet has at most one row per (name, date), it still does after a punch. |
| `OfficeRules.RecordTwice` | venv/updated_code.py:198-200 | A second punch on the same date leaves the sheet unchanged. |
| `OfficeRules.RecordLeavesOneRow` | venv/updated_code.py:198-211 | After a punch, the name has exactly one row for that date. |
| `OfficeRules.UserMonthRows` | venv/updated_code.py:228 | A row is in the result exactly when it is a sheet row of the name whose date starts with the month; the result is no longer than the sheet. `UserMonthRowsCounts` (multiplicity) and `UserMonthRowsOfConcat` (sheet order) complete this. |
| `OfficeRules.UserMonthRowsCounts` | venv/updated_code.py:228 | The user's rows of the month keep each sheet row of that name and month exactly as often as the sheet holds it, and no other row. |
| `OfficeRules.UserMonthRowsOfConcat` | venv/updated_code.py:228 | Filtering two parts of the sheet and joining the results equals filtering the whole sheet. With the one-row case that `UserMonthRowsCounts` fixes, this keeps the rows in sheet order. |
| `OfficeRules.MonthRows` | venv/updated_code.py:277 | A row is in the result exactly when it is a sheet row whose date starts with the month; the result is no longer than the sheet. `MonthRowsCounts` (multiplicity) and `MonthRowsOfConcat` (sheet order) complete this. |
| `OfficeRules.MonthRowsCounts` | venv/updated_code.py:277 | The month's rows keep each sheet row of the month exactly as often as the sheet holds it, and no other row. |
| `OfficeRules.MonthRowsOfConcat` | venv/updated_code.py:277 | Filtering two parts of the sheet and joining the results equals filtering the whole sheet, so the month's rows keep their sheet order. |
| `OfficeRules.FullDays` | venv/updated_code.py:237-242 | The full-day count is at most the number of rows. `FullDaysCountsEarlyRows` completes this: it is the number of rows punched at or before 14:00. |
| `OfficeRules.HalfDays` | venv/updated_code.py:237-242 | The half-day count is at most the number of rows. `FullPlusHalf` completes this: the half days are the rows that are not full days. |
| `OfficeRules.FullPlusHalf` | venv/updated_code.py:237-242 | Every counted row is either a full day or a half day, so full + half equals the number of rows. |
| `OfficeRules.FullDaysCountsEarlyRows` | venv/updated_code.py:237-242 | The full-day count is the number of rows punched at or before 14:00:00. |
| `OfficeRules.StatusIgnoredBySummary` | venv/updated_code.py:237-242 | The summary ignores the Status column. An Absent punch, and a Late punch up to 14:00, each count as a full day. |
| `OfficeRules.TotalSalary` | venv/updated_code.py:248 | Pay is the day rate times (full days + half days / 2). With a non-negative rate, pay lies between full days × rate and (full + half) × rate. |
| `OfficeRules.SalaryExample` | venv/updated_code.py:248 | 3 full days and 2 half days at 500 a day pay 2000. |
| `OfficeRules.UserSummary` | venv/updated_code.py:219-259 | A missing attendance file gives that error, and only then. The no-records error comes exactly when the file has no row of the name and month. A salary-lookup failure means the name has no stored day rate. A summary means it has one. |
| `OfficeRules.SummaryCountsMatchingRows` | venv/updated_code.py:228-248 | If no row matches the name and month, the result is the no-records error, never zeros. A summary covers at least one row. Its full + half count equals the length of `UserMonthRows`, which `UserMonthRowsCounts` ties to the matching rows of the sheet, and its full days are the rows at or before 14:00. A summary exists only for a name with a stored day rate, and pays `TotalSalary` at that rate. |
| `OfficeRules.Gate` | venv/updated_code.py:264-265 | Access is granted exactly when the name is stored and its password hash equals the hash of the given password. A stored name without a password field (a plain user) makes the lookup fail. |
| `OfficeRules.Unique` | venv/updated_code.py:299 | The result holds exactly the input names, each once, in the order of first appearance: each name occurs in the input before every occurrence of any later name of the result. |
| `OfficeRules.SummaryLines` | venv/updated_code.py:299-307 | There is at most one summary line per name given. `SummaryLinesAreSummaries` and `SummaryLinesFollowNames` complete this: each line carries its name's summary, each summarised name has exactly one line, and the lines follow the names' order. |
| `OfficeRules.SummaryLinesAreSummaries` | venv/updated_code.py:299-307 | Each summary line carries its name's summary and names one of the given names. Every given name with a summary gets a line. No name gets two lines. |
| `OfficeRules.SummaryLinesBelong` | venv/updated_code.py:299-307 | Each summary line names one of the given names and carries that name's summary. No name gets two lines. |
| `OfficeRules.SummaryLinesCover` | venv/updated_code.py:299-307 | Every given name whose summary succeeds gets a line. |
| `OfficeRules.SummaryLinesFollowNames` | venv/updated_code.py:299-307 | Summary lines come in the order of the names they summarise. |
| `OfficeRules.ReportLinesInOrder` | venv/updated_code.py:299-307 | The report's summary lines come in the order in which their names first appear in the month's rows, the order `unique()` gives. |
| `OfficeRules.Download` | venv/updated_code.py:262-313 | A denied gate gives the invalid-credentials error, and a missing password field gives the lookup error; each happens exactly then. Past the gate, a missing sheet gives the no-sheet error, and a sheet without rows of the month gives the no-records error, each exactly then. |
| `OfficeRules.DownloadReport` | venv/updated_code.py:262-313 | A report is produced exactly when the gate grants access, the sheet exists and some row falls in the month. The report's rows are `MonthRows` of the sheet: each row of the month as often as the sheet holds it (stated outright as a multiset equation), in sheet order (`MonthRowsOfConcat`). Each summary line belongs to a name seen in those rows and carries that name's summary. Every name in those rows with a day rate gets exactly one line. The lines follow the first appearance of their names in those rows. |
| `OfficeRules.Describe` | venv/updated_code.py:328-329 | The role is Admin exactly when `is_admin` holds. An admin's salary shows as "N/A" (None). A user's line shows the stored day rate, or 0 when none is stored. |
| `OfficeRules.CountAdmins` | venv/updated_code.py:327-334 | The admin count is at most the number of keys. `CountAdminsIsAdminNames` completes this: over distinct keys it is the number of admin names. |
| `OfficeRules.CountAdminsIsAdminNames` | venv/updated_code.py:327-334 | Counting admins one key at a time over distinct keys gives the number of admin names. |
| `OfficeRules.CountAdminsOfTable` | venv/updated_code.py:327-334 | Over the ordered user table, the admin count equals the number of users flagged as admin. |
| `Office.FirstMatch` | venv/updated_code.py:151-163 | The loop returns the match rule's result. That is the first name, in dictionary order, whose score is above 0.7, or nothing exactly when no score is above 0.7. |
| `Office.AttendanceSystem.constructor` | venv/updated_code.py:54-65 | The system starts from the loaded users, encodings and sheet. The loaded sheet has at most one row per (name, date), the invariant every later punch keeps. |
| `Office.AttendanceSystem.RegisterAdmin` | venv/updated_code.py:78-90 | A stored name is rejected and nothing changes. Otherwise only `users` changes: it gains the name with `is_admin` true and the hashed password. |
| `Office.AttendanceSystem.RegisterUser` | venv/updated_code.py:93-122 | A stored name is rejected, and so is an image with no face; in both cases nothing changes. Otherwise the embedding is stored under the name, and `users` gains the name with `is_admin` false and the day rate. The sheet is untouched. |
| `Office.AttendanceSystem.MarkAttendance` | venv/updated_code.py:139-216 | No face, or no score above 0.7, gives an error and leaves the sheet as it was. Otherwise the sheet is created if it was missing and becomes `Record` of the first matching name. The outcome reports whether that name was already marked for the date or newly marked with the classified status. `users` and the encodings never change. The sheet keeps at most one row per (name, date). |
| `Office.AttendanceSystem.CalculateUserSummary` | venv/updated_code.py:219-259 | The counting loop returns exactly `UserSummary`. That is the missing-file error, the no-records error, the day-rate lookup failure, or the full and half counts and the salary. |
| `Office.AttendanceSystem.DownloadMonthlyAttendance` | venv/updated_code.py:262-315 | The method returns exactly `Download`: the gate's refusal or lookup failure, the missing-file error, the empty-month error, or the month's rows with one summary line per distinct name that has a summary. |
| `Office.AttendanceSystem.DisplayUsers` | venv/updated_code.py:318-340 | An empty `users` gives the no-users error. Otherwise there is one line per user in dictionary order, each described by `Describe`. The admin count is the number of admin names, and admins + users equals the size of `users`. |
| `Office.AttendanceSystem.DeleteUser` | venv/updated_code.py:343-365 | Deletion happens exactly when the gate grants access and the target is stored. An unknown admin or a wrong password gives an invalid-credentials error, and an admin name with no password field gives a lookup error. Past the gate, an unknown target gives the not-found error. In every failure nothing changes. On success the target leaves `users` and, if present, the encodings; a missing encoding is not an error. All other entries stay as they were. |
| `FaceLog.Reread` | app.py:42-47 | Writing the sheet to CSV and reading it back turns an empty In Time or Out Time into NaN and leaves a time as it is. |
| `FaceLog.FirstRow` | app.py:99 | The row read is the first row that carries the name. |
| `FaceLog.PunchAsWritten` | app.py:98-104 | `update_attendance` as written keeps the row count and leaves every row of another name unchanged. `AsWrittenNeverSetsInTime` and `FirstPunchAfterRegistration` show that it never fills In Time on a sheet read back from CSV. |
| `FaceLog.Punch` | app.py:98-104 | The corrected punch keeps the row count and leaves every row of another name unchanged. `PunchSpec` completes this: an unlisted name changes nothing, and otherwise every row of the name gets In Time (when the first row's In Time is blank) or Out Time, and today's date. |
| `FaceLog.PunchSpec` | app.py:98-104 | Only rows of the name change, and the row count stays the same. An unknown name changes nothing. If the first row of the name has no In Time, every row of the name gets the In Time and keeps its Out Time. Otherwise they get the Out Time and keep their In Time. In both cases their date becomes today. |
| `FaceLog.PunchKeepsStored` | app.py:100-104 | A punch writes only times and dates, so the sheet still looks as the CSV reader returns it. |
| `FaceLog.AsWrittenNeverSetsInTime` | app.py:99-102 | As written, no punch on a sheet read back from the CSV file ever changes an In Time. |
| `FaceLog.FirstPunchAfterRegistration` | app.py:99-102 | After a registration, the first punch as written sets Out Time and leaves In Time empty. The intended rule sets In Time and leaves Out Time empty. |
| `FaceLog.ArgMin` | app.py:81 | The result is the first index of the smallest distance. |
| `FaceLog.Identify` | app.py:78-83 | A recognised face carries the name at the first index of the smallest distance, and that face's match flag is set. An unknown face has its first closest known face unflagged. |
| `FaceLog.IdentifyPicksClosest` | app.py:78-83 | A face gets a name only from the first closest known face, as `np.argmin` picks it on ties, and only if that face is flagged as a match. The face is Unknown exactly when the first closest face is not flagged. |
| `FaceLog.IdentifyWithTolerance` | app.py:77-82 | With the flags `compare_faces` computes (distance at most 0.6), a face is recognised exactly when some known face is within 0.6. |
| `FaceLog.Labels` | app.py:78-83 | Each face of the frame gets, at its own position, the label `Identify` gives it. |
| `FaceLog.KnownNames` | app.py:82-84 | A name is punched exactly when some face of the frame is labelled with it. |
| `FaceLog.KnownNamesOfConcat` | app.py:76-84 | The names of two parts of a frame, joined, are the names of the whole frame, so recognised faces are punched in frame order. |
| `FaceLog.PunchAll` | app.py:76-84 | Punching the names of a frame one after another keeps the row count. `PunchAllTouchesOnlyNamed` completes this: rows of names not punched stay unchanged. |
| `FaceLog.PunchAllTouchesOnlyNamed` | app.py:82-84 | Punching the recognised names of a frame keeps the row count and leaves every row of another name unchanged: attendance changes only on a match. |
| `FaceLog.UnknownFacesPunchNothing` | app.py:82-84 | A frame with no recognised face leaves the sheet as it was. |
| `FaceLog.Loadable` | app.py:23-28 | A row is loaded exactly when its face file exists; no more rows are loaded than the sheet holds. `LoadableCounts` (multiplicity) and `LoadableOfConcat` (sheet order) complete this. |
| `FaceLog.LoadableCounts` | app.py:23-28 | Each row whose face file exists is loaded exactly as often as the sheet holds it, and no other row is loaded. |
| `FaceLog.LoadableOfConcat` | app.py:23-28 | Loading two parts of the sheet and joining the results equals loading the whole sheet, so loaded rows keep their sheet order. |
| `FaceLog.FaceRegistry.constructor` | app.py:13-15 | The registry starts from the sheet and face files found at start-up. |
| `FaceLog.FaceRegistry.SaveNewFace` | app.py:33-47 | The encoding is saved under `name + "_" + id`. Exactly one row is appended, with that Face ID and with In Time and Out Time empty. The earlier rows are unchanged. |
| `FaceLog.FaceRegistry.UpdateAttendance` | app.py:92-104 | The sheet becomes `Punch` of the old sheet, using the intended emptiness test. The face files do not change. |
| `FaceLog.FaceRegistry.RecognizeFaces` | app.py:71-89 | The labels are `Labels` of the frame, so each face gets its label from `Identify`. The sheet becomes the old sheet with the recognised names punched in frame order. Its row count stays the same, and every row whose name no face was recognised as stays as it was. A face seen when no face is known makes argmin fail before anything is written. |
| `FaceLog.FaceRegistry.LoadKnownFaces` | app.py:18-30 | The two lists have equal length, and position i pairs the name and the saved encoding of the i-th row whose face file exists, counted in sheet order (`LoadableOfConcat`, `LoadableCounts`). |
| `DailyRegister.Mark` | appD.py:19-30 | Only today's file can be added or changed; every other day keeps its table. Afterwards today's table has the name, with at most one row more than before. |
| `DailyRegister.MarkSpec` | appD.py:19-30 | A day without a file reads as an empty table. A name already in today's table leaves every file unchanged. Otherwise today's table gains exactly the row (name, time, today). Other days are untouched. |
| `DailyRegister.MarkKeepsWellFormed` | appD.py:24-27 | Each day's table keeps rows of its own date only, with each name at most once. |
| `DailyRegister.MarkTwice` | appD.py:24-30 | Marking a name twice on one day equals marking it once. |
| `DailyRegister.MarkLeavesOneRow` | appD.py:24-30 | After marking, today's table holds exactly one row of the name. |
| `DailyRegister.Register.constructor` | appD.py:11-12 | The register starts from the day files already on disk. |
| `DailyRegister.Register.MarkAttendance` | appD.py:15-30 | The files become `Mark` of the old files. The outcome is "already marked present" exactly when the name was in today's table. |

## Findings

| source | as written | input that shows it | evidently intended | confidence | as-written member | corrected member |
|---|---|---|---|---|---|---|
| app.py:99 | `update_attendance` tests In Time with `== ""`. Registration writes `""` (app.py:42), but the sheet is saved as CSV and read back, so the cell returns as NaN and the test is never true. | Register "ann" with `save_new_face`, then recognise "ann" once: her Out Time is set and her In Time stays empty. Every later punch also overwrites Out Time. | The first punch fills In Time, later punches fill Out Time. | high (not executed) | `FaceLog.PunchAsWritten`, shown by `FaceLog.FirstPunchAfterRegistration` and `FaceLog.AsWrittenNeverSetsInTime` | `FaceLog.Punch`, proved in `FaceLog.PunchSpec` and used by `FaceLog.FaceRegistry.UpdateAttendance` |

## Left out

- Face detection, embeddings and similarity are inputs, not computed: insightface, face_recognition, OpenCV preprocessing, the floating-point cosine similarity, `face_distance` and `compare_faces`. A NaN distance is not modelled.
- SHA-256 is the uninterpreted constant `hash`.
- File formats are not modelled: pickle, Excel and CSV encoding, the column repair of `initialize_attendance_file`, the report workbook, the "₹…:.2f" formatting, the output file name, and `generate_excel_sheet` in appD.py. Each store is modelled as the value that is read back.
- The Timestamp column of the office sheet (date and time as text) is not modelled. It carries nothing the Date and Time columns do not.
- `OfficeRules.Classify` works on whole seconds. The source compares `now.time()`, which includes microseconds, so 13:05:00.4 is Late in the source and Full Day in the model. The same holds at 17:00: 17:00:00.4 is Half Day in the source and Late in the model.
- Exceptions other than the modelled lookup failures are not modelled: an unreadable image, a failed write, and the generic "Error" messages.
- Pandas type inference on reread is not modelled. A name or ID number that looks like a number comes back from CSV or Excel as a number. The names `""`, `"NA"`, `"N/A"`, `"None"`, `"null"` and `"NaN"` come back as NaN, which equals nothing. In appD.py the `in` test at line 24 then never finds such a name, so every call appends another row for it, where `DailyRegister.Mark` reports it already present. In the office sheet the (Name, Date) test at venv/updated_code.py:198 misses the earlier row, so such a name gets a second row that day. The model compares names as strings.
- In appD.py the date (line 16) and the time (line 25) come from two calls to the clock. The model uses one `Clock` reading for both.
- `FaceLog.FaceRegistry.RecognizeFaces` punches every face of a frame with one `Clock` reading. In app.py each `update_attendance` call reads the clock again (app.py:94), so faces later in the frame may get a later time.
- The branch of `load_known_faces` for a missing face_data.csv (app.py:30) is not modelled. app.py:13-15 creates the file at start-up, so the branch is never reached.
- E-mail sending (app.py:48-68) is not modelled.
- The Streamlit and Gradio interfaces and the camera loops are not modelled. The package-install loop at the top of venv/updated_code.py is not modelled either.
- appG.py is not part of this model. Its logic repeats app.py's argmin match and Out Time update inside the camera loop.
