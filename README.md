# Class Attendance System — verified model of the session engine

This project models, in Dafny, the attendance-session engine of the Class Attendance
System and the two browser clients that drive it:

- **Sessions** (`server/models/Attendance.js`): a session record with its class, course,
  date, start and end times, the lecturer's coordinates, a status that is `Active`,
  `Completed` or `Cancelled`, and the list of student check-ins.
- **The attendance routes** (`server/routes/attendance.js`): creating a session,
  checking a student in (lookup of the `Active` session by trimmed class name, date and end time,
  the distance test against a 10 000 m threshold, duplicate suppression by decrypted
  index number or device id, then the append of one entry), and cancelling a session.
  The at-rest protection of names and index numbers follows the code: `b64:` plus base 64
  without a key, `ivHex:cipherHex` under AES-256-CTR with one, and `decrypt` dispatching
  on the token's shape. Two parts differ from Node, as "## Left out" records: texts are
  bytes with no UTF-8 transcoding, and base 64 decoding is strict where Node's is lenient.
- **The expiry sweep** (`server/server.js`): the minute-by-minute job that completes
  every `Active` session whose end text `date + "T" + endTime + ":00Z"` sorts before the
  clock's ISO text, comparing strings byte by byte as MongoDB does.
- **The lecturer dashboard** (`client/index.js`): the `HH:MM:SS` countdown text, the
  seconds-left computation, the dashboard counters, the map of countdown intervals
  (`startTimer`, the interval callback, `stopAllTimers`), and the two loops that
  reconcile the active-sessions table with the listings the server returns.
- **The student portal** (`client/student-portal.js`): the session key
  `class|date|end`, the per-device list of sessions already attended, the stored device
  id, loading the form from a link or a scanned code, and the submit handler up to the
  check-in request it sends.

Every JavaScript string is modelled by its UTF-8 bytes (`Bytes.Text`), which is the view
in which MongoDB's string order, Node's `Buffer` encodings, concatenation and equality are
exact. `trim` removes whole UTF-8 encodings of the characters JavaScript counts as white
space or line terminators (the ASCII ones, U+00A0, U+1680, U+2000 to U+200A, U+2028,
U+2029, U+202F, U+205F, U+3000 and U+FEFF); since UTF-8 is self-synchronising, this is
JavaScript's `trim` on every valid encoding. The values that arrive in request bodies are
`JsValues.JsValue`: `undefined`, `null`, a string, or a number or boolean given by its
`String()` text, so that JavaScript truthiness, `String(v)` and `===` are modelled as the
code uses them.

Server handlers are pure functions on the list of sessions (`CreateSession`,
`MarkAttendance`, `CancelSession`, `Swept`) about which the lemmas reason, together with
methods that perform them on a `SessionStore.Store` the way the routes do: load one
document, change it in memory, save it. The dashboard's table and timers and the
portal's browser storage are classes whose methods update their fields in place; each
loop carries its invariants, and each method's postcondition ties the new state to a
specification function whose properties are proved separately.

The code differs from a natural reading of the feature in these ways, and the model
follows the code:

- The check-in route performs no start/end time-window test; only the sweep's change of
  status stops late check-ins.
- Creating a session does not check that `startTime` precedes `endTime`, and it refuses a
  coordinate of exactly 0 because the field test is JavaScript truthiness.
- `findOne` picks the first matching `Active` session in natural order; several matching
  sessions are not refused.
- A refusal for distance carries the computed distance, as the route's message does.

Mongoose is given by `AttendanceModel.Mongoose`: the student sub-schema as written
(`Strict`, which drops the undeclared `deviceId`) or with the field declared
(`DeclaresDeviceId`, the corrected variant of the finding below), and the test
`!isNaN(Number(text))` its cast of a string to a `Number` path applies. A coordinate
that fails the cast makes `save` reject, so the route answers 500.

External behaviour is given as parameters: the haversine distance
(`AttendanceRoutes.DistanceFn`, which may yield NaN), the AES keystream
(`PiiCipher.Keystream`), random IVs, the clock (`now` texts and millisecond instants),
`new Date(text)` on the browser (`LecturerDashboard.DateParser`), the generated device id,
the geolocation result and the server's answer.

## Model

| member | source | states |
|---|---|---|
| Bytes.SplitOnShape | server/routes/attendance.js:67 | `split(':')` gives one more part than there are separators, and no part contains the separator |
| Bytes.SplitOnFirst | server/routes/attendance.js:67 | splitting a text peels off exactly the part before the first separator |
| Bytes.Trim | server/models/Attendance.js:7 | the trimmed text starts and ends with no character JavaScript's `trim` removes (ASCII white space, U+00A0, U+1680, U+2000 to U+200A, U+2028, U+2029, U+202F, U+205F, U+3000, U+FEFF) and is no longer than the input |
| Bytes.TrimIsSlice | server/models/Attendance.js:7 | the trim is the slice of the input left after dropping only runs of those white-space characters at both ends |
| Bytes.TrimIdempotent | server/models/Attendance.js:12 | trimming an already trimmed name changes nothing |
| Bytes.LexLessAtFirstDifference | server/server.js:85 | MongoDB's string `$lt` is decided by the first differing byte after a common prefix |
| Bytes.LexLessIrreflexive | server/server.js:85 | no string sorts before itself |
| Bytes.ThreePartsDetermine | client/student-portal.js:34 | three parts joined by a separator absent from the first two are recovered from the joined text |
| Base64.Encode | server/routes/attendance.js:48 | the encoding of n bytes has 4·⌈n/3⌉ characters |
| Base64.Decode | server/routes/attendance.js:62 | a text the decoder accepts has a length divisible by 4 |
| Base64.DecodeEncode | server/routes/attendance.js:48 | decoding the base 64 encoding of any bytes gives those bytes back |
| Base64.EncodeDecode | server/routes/attendance.js:62 | every text the decoder accepts is the encoding of what it decodes to |
| Hex.Encode | server/routes/attendance.js:54 | two hex digits per byte, and nothing but hex digits |
| Hex.Decode | server/routes/attendance.js:31 | hex decoding yields at most one byte per two characters |
| Hex.DecodeEncode | server/routes/attendance.js:71-72 | decoding the hex encoding of any bytes gives those bytes back |
| Hex.DecodeStopsAtNonDigit | server/routes/attendance.js:31 | Node's hex decoding stops at the first pair that is not two hex digits |
| PiiCipher.LoadKey | server/routes/attendance.js:26-42 | a key is loaded exactly when the variable is set and decodes to 32 bytes, and it is those bytes |
| PiiCipher.LoadKeyFromHex | server/routes/attendance.js:26-42 | a 32-byte key written as 64 hex digits is loaded as that key |
| PiiCipher.CtrInvolution | server/routes/attendance.js:50-54 | counter mode applied twice with the same key and IV is the identity |
| PiiCipher.Encrypt | server/routes/attendance.js:44-55 | `null`/`undefined` give `null`, anything else a string; without a key the string starts with `b64:` |
| PiiCipher.Decrypt | server/routes/attendance.js:57-80 | `null` stays `null`, non-strings are returned unchanged, a string without exactly one `:` is returned unchanged, a two-part token without a key gives `null` |
| PiiCipher.UnkeyedRoundTrip | server/routes/attendance.js:44-66 | a `b64:` token decrypts to the plaintext whether or not a key is configured |
| PiiCipher.KeyedTokenShape | server/routes/attendance.js:50-54 | a keyed token is exactly two hex parts joined by one `:`, the first the 32 digits of the IV, and never starts with `b64:` |
| PiiCipher.KeyedRoundTrip | server/routes/attendance.js:44-80 | with the key that produced it, a keyed token decrypts to the plaintext |
| PiiCipher.KeyedTokenWithoutKey | server/routes/attendance.js:67-69 | a keyed token read back without a key decrypts to `null` |
| PiiCipher.RoundTrip | server/routes/attendance.js:44-80 | in either mode, `decrypt(encrypt(v))` is `String(v)` for every non-null `v` |
| AttendanceModel.NewSession | server/models/Attendance.js:3-61 | the names are stored trimmed, status defaults to `Active`, the student list starts empty, and the document passes the `required` validators exactly when every required field is present and non-empty (the cast of the coordinates is checked by `CreateSession`) |
| SessionStore.Store.NewId | server/routes/attendance.js:97-108 | a new document receives a fresh `_id` |
| SessionStore.Store.Insert | server/routes/attendance.js:110 | saving a new valid document appends it and keeps ids unique |
| SessionStore.Store.Save | server/routes/attendance.js:179 | saving a loaded document replaces it in place and changes nothing else |
| AttendanceRoutes.CreateSession | server/routes/attendance.js:85-116 | 400 exactly when a field is falsy; 500 exactly when a name trims to empty or a coordinate fails Mongoose's cast to `Number`; otherwise an `Active` session with no students holding the request's values |
| AttendanceRoutes.ZeroCoordinateRefused | server/routes/attendance.js:93 | a coordinate of exactly 0 is refused as a missing field |
| AttendanceRoutes.Create | server/routes/attendance.js:85-116 | the store gains the created session and nothing else, or is unchanged on refusal |
| AttendanceRoutes.QueryText | server/routes/attendance.js:127 | a filter value that is `null` or `undefined` selects no stored string; any other value is compared as its string |
| AttendanceRoutes.FilterOf | server/models/Attendance.js:4-8 | the cast filter compares the trimmed class name, since the path's `trim` setter runs on query values, and the date and end time as given |
| AttendanceRoutes.FindMatch | server/routes/attendance.js:127 | `findOne` returns the first `Active` session answering the cast filter, and none exactly when no session answers it |
| AttendanceRoutes.FindTarget | server/routes/attendance.js:127 | the lookup returns the first `Active` session whose class equals the request's trimmed class name and whose date and end time equal the request's, and none exactly when there is no such session |
| AttendanceRoutes.FindMatchSame | server/routes/attendance.js:127 | `findOne` depends only on which sessions answer the filter |
| AttendanceRoutes.LookupTrimsClassName | server/models/Attendance.js:4-8 | padding the requested class name with white space finds the same session as the trimmed name |
| AttendanceRoutes.PaddedClassNameFound | server/models/Attendance.js:4-8 | a request for class `"A "` finds the active session of class `"A"` |
| AttendanceRoutes.MarkAttendance | server/routes/attendance.js:120-188 | not-found exactly when no `Active` session matches the trimmed class name, the date and the end time; NaN distance gives an error, more than 10 000 m a refusal, a stored matching index number or device id a duplicate, a location Mongoose cannot cast a failed save, each leaving the store unchanged; success exactly otherwise, appending one encrypted entry, whose device id reads back as the sub-schema keeps it, to the found session only |
| AttendanceRoutes.Mark | server/routes/attendance.js:120-188 | the route's outcome and the store it leaves are those of `MarkAttendance`, the session looked up with the trimmed class name |
| AttendanceRoutes.FindTargetSameKeys | server/routes/attendance.js:127 | the lookup depends only on each session's status and three key fields |
| AttendanceRoutes.ThresholdIsInclusive | server/routes/attendance.js:154 | a distance of exactly 10 000 m is accepted |
| AttendanceRoutes.FindTargetAfterCheckIn | server/routes/attendance.js:127 | a check-in changes only a student list, so the same three keys find the same session afterwards |
| AttendanceRoutes.RefusedWhenAlreadyMarked | server/routes/attendance.js:160-170 | once the found session holds an entry with the request's index number or device id, a check-in is refused and changes nothing |
| AttendanceRoutes.SameIndexNumberTwice | server/routes/attendance.js:160-179 | after a check-in, a second one for the same session with the same index number, sent as a string, is refused and appends nothing, under either sub-schema |
| AttendanceRoutes.NumericIndexNumberNotMatched | server/routes/attendance.js:162 | an index number sent as a JSON number is never matched: its stored token decrypts to its text, a string, which is not `===` the number |
| AttendanceRoutes.SameDeviceTwice | server/routes/attendance.js:160-179 | with a sub-schema that declares `deviceId`, a second check-in for the same session from the same device is refused and appends nothing |
| AttendanceRoutes.SameDeviceAcceptedAsWritten | server/models/Attendance.js:51-61 | with the sub-schema as written, the first two check-ins to a session from one device, at one spot, with different index numbers are both marked |
| AttendanceRoutes.StrictKeepsDeviceIdsDropped | server/routes/attendance.js:172-179 | with the sub-schema as written, no stored entry ever reads back a device id |
| AttendanceRoutes.MissingDeviceIdMatchesEntryWithout | server/routes/attendance.js:162 | a request without a device id is a duplicate of any stored entry without one, which under the strict sub-schema is every entry |
| AttendanceRoutes.FindCancellable | server/routes/attendance.js:253-257 | the cancel lookup finds a session with that id, owned by the caller and `Active`, or reports that none exists |
| AttendanceRoutes.CancelSession | server/routes/attendance.js:247-267 | cancel succeeds exactly when an `Active` session of the caller has that id, and then only that session's status changes, to `Cancelled`; otherwise nothing changes |
| AttendanceRoutes.Cancel | server/routes/attendance.js:247-267 | the route's outcome and the store it leaves are those of `CancelSession` |
| AttendanceRoutes.CancelTwice | server/routes/attendance.js:253-262 | a second cancel of the same session is not found and changes nothing |
| AttendanceRoutes.NoCheckInAfterCancel | server/routes/attendance.js:127 | once cancelled, a session is never changed by a check-in |
| ExpirySweep.EndText | server/server.js:85 | the end text is the date, then `T`, then the end time and `:00Z` |
| ExpirySweep.Swept | server/server.js:83-89 | exactly the due sessions become `Completed`; only the status changes; sessions not due are untouched |
| ExpirySweep.DueIndices | server/server.js:83-86 | the query returns exactly the positions of the due sessions, in natural order |
| ExpirySweep.Sweep | server/server.js:80-95 | the loop over the found sessions leaves the collection equal to `Swept` |
| ExpirySweep.SweepIdempotent | server/server.js:83-89 | a second sweep at the same instant changes nothing |
| ExpirySweep.SweepKeepsOthers | server/server.js:83-89 | a sweep never touches a check-in list nor a session that is not `Active` |
| ExpirySweep.NotDueAtEndMinute | server/server.js:85 | a session is not due at any instant `HH:MM:00.xxx` of its end minute |
| ExpirySweep.DueFromSecondOne | server/server.js:85 | an `Active` session is due at every clock text of its end minute from second 01 to second 59 |
| LecturerDashboard.Decimal | client/index.js:117 | `toString()` of a count is all digits with no leading zero |
| LecturerDashboard.ParseDecimalOfDecimal | client/index.js:117-119 | a count's decimal text reads back as the count |
| LecturerDashboard.PadStart2 | client/index.js:117 | `padStart(2, "0")` gives at least two characters |
| LecturerDashboard.ParsePadded | client/index.js:117-119 | a padded field is all digits and reads back as its value |
| LecturerDashboard.FormatTimeLeft | client/index.js:115-121 | `"00:00:00"` for every count of seconds at or below zero, and at least eight characters always |
| LecturerDashboard.FormatFields | client/index.js:117-120 | for positive seconds: three fields, hours the quotient by 3600 with at least two digits, minutes and seconds two digits each and below 60 |
| LecturerDashboard.MinutesBelow60 | client/index.js:118-119 | the minutes and seconds fields are below 60 |
| LecturerDashboard.HoursMinutesSeconds | client/index.js:117-119 | 3600·hours + 60·minutes + seconds equals the count |
| LecturerDashboard.FormatThenParse | client/index.js:115-121 | the countdown text reads back as the seconds left, clamped at zero |
| LecturerDashboard.SecondsLeft | client/index.js:130 | the seconds left are the floor of the remaining milliseconds over 1000, and zero below one second |
| LecturerDashboard.LiveIds | client/index.js:179-185 | `newIds` holds exactly the ids of the listings with seconds left |
| LecturerDashboard.TodayOfIso | client/index.js:95 | today is the date part of the ISO clock text |
| LecturerDashboard.SessionsToday | client/index.js:101 | the today count never exceeds the history's length |
| LecturerDashboard.SessionsTodayCounts | client/index.js:101 | the today count is the number of history entries whose date is today |
| LecturerDashboard.SessionsTodayAppend | client/index.js:101 | the today count of a concatenated history is the sum of the counts |
| LecturerDashboard.StudentsMarkedAppend | client/index.js:104 | the students count of concatenated listings is the sum, a missing list counting 0 |
| LecturerDashboard.DashboardStats | client/index.js:86-112 | all counters read N/A exactly when a request fails; otherwise active sessions is the number of listings, sessions today the number of history records dated today, and students marked the total of the listed sessions' student counts |
| LecturerDashboard.FindRow | client/index.js:185 | the first row with the id, and none exactly when no row has it |
| LecturerDashboard.Refreshed | client/index.js:186-189 | refreshing existing rows never changes their number, ids or names |
| LecturerDashboard.Appended | client/index.js:190-200 | every appended row belongs to a live listing that had no row |
| LecturerDashboard.KeepIds | client/index.js:205-213 | the kept rows are rows of the table whose id is live |
| LecturerDashboard.ActiveTable.StartTimer | client/index.js:123-144 | nothing for an empty id; otherwise the id's previous interval is cleared and one fresh interval is registered, so each id holds at most one |
| LecturerDashboard.ActiveTable.Tick | client/index.js:128-141 | a tick rewrites the row's countdown; at zero it clears its interval, forgets it and removes the row |
| LecturerDashboard.ActiveTable.StopAllTimers | client/index.js:146-149 | every interval is cleared and the map is left empty |
| LecturerDashboard.ActiveTable.ClearTimer | client/index.js:233-236 | the id's interval is cleared and its entry deleted |
| LecturerDashboard.ActiveTable.RefreshRows | client/index.js:179-203 | the first loop leaves the refreshed and appended rows, the restarted timers, and `newIds` equal to the live ids |
| LecturerDashboard.ActiveTable.Visit | client/index.js:180-202 | one listing: its row and timer are updated as the loop's specification says |
| LecturerDashboard.ActiveTable.ShowListing | client/index.js:186-201 | an existing row's countdown is rewritten or a new row appended, then its countdown restarted |
| LecturerDashboard.ActiveTable.DropStaleRows | client/index.js:205-213 | every earlier row whose id is not live is removed together with its countdown |
| LecturerDashboard.ActiveTable.DropIfStale | client/index.js:206-212 | one row of the second loop: removed with its countdown when not live |
| LecturerDashboard.ActiveTable.RemoveRow | client/index.js:207 | removing a row without a countdown keeps the table consistent |
| LecturerDashboard.ActiveTable.UpdateTable | client/index.js:152-224 | the table becomes the reconciled rows and the timers the restarted ones minus those of removed rows, leaking no interval |
| LecturerDashboard.ActiveTable.HandleCancel | client/index.js:226-242 | the cancelled session's countdown is cleared, then the table is reconciled |
| LecturerDashboard.KeepIdsIds | client/index.js:205-213 | the kept rows' ids are the rows' ids that are live |
| LecturerDashboard.AppendedIds | client/index.js:190-200 | the appended rows' ids are the live ids that had no row |
| LecturerDashboard.ReconciledIds | client/index.js:179-213 | after reconciliation the table shows exactly the sessions that still have time left |
| LecturerDashboard.StartedKeys | client/index.js:189-200 | the ids holding a countdown after the first loop are the earlier ones plus every live non-empty id |
| LecturerDashboard.ReconciledTimerIds | client/index.js:205-213 | after reconciliation exactly the live sessions with a non-empty id hold a countdown |
| LecturerDashboard.StartedTimer | client/index.js:123-144 | each countdown the first loop starts counts down to its session's end on an interval issued in that call |
| LecturerDashboard.RefreshedCell | client/index.js:186-188 | a live session's existing row shows that session's time left |
| LecturerDashboard.AppendedRows | client/index.js:190-200 | every appended row is the fresh row of a live session |
| LecturerDashboard.ShowsTimeLeft | client/index.js:179-213 | every row of the reconciled table belongs to a live session and shows its time left |
| StudentPortal.Param | client/student-portal.js:16-24 | an absent parameter is `null`; a parameter is truthy exactly when present and non-empty |
| StudentPortal.SessionKeySplit | client/student-portal.js:34 | splitting a key on the pipe character gives back class, date and end when none of them holds one |
| StudentPortal.SessionKeyInjective | client/student-portal.js:34 | two keys are equal only for equal class, date and end, when class and date hold no pipe character |
| StudentPortal.SessionKeyCollision | client/student-portal.js:34 | class "A, pipe, B" on date "C" and class "A" on date "B, pipe, C" share one key |
| StudentPortal.AbsentDateKey | client/student-portal.js:34 | an absent date and the date text "null" give the same key |
| StudentPortal.SameKeySameTarget | client/student-portal.js:199 | two submits with the same key and all three parameters present look up the same sessions on the server |
| StudentPortal.Recorded | client/student-portal.js:200-203 | after recording, the key is listed, earlier entries keep their order, at most one entry is added, and no duplicate appears |
| StudentPortal.RecordedIdempotent | client/student-portal.js:200-203 | recording a key twice is recording it once |
| StudentPortal.RecordedKeepsListed | client/student-portal.js:201 | a listed key leaves the list unchanged |
| StudentPortal.DeviceIdOf | client/student-portal.js:131-142 | the stored id when there is a non-empty one, otherwise the generated one; never empty |
| StudentPortal.DeviceIdStable | client/student-portal.js:131-142 | once an id has been handed out, every later call hands out the same one |
| StudentPortal.SubmitDecision | client/student-portal.js:144-188 | an error without QR data or position; refused locally exactly when the trimmed name or index number is empty; otherwise the request carries the trimmed inputs, the QR's class, date and end, and the device id |
| StudentPortal.SentFieldsTruthy | client/student-portal.js:157-162 | a sent request's name, index number and device id are non-empty, and the two inputs are trimmed |
| StudentPortal.Portal.ShowForm | client/student-portal.js:27-43 | the form is shown for the QR data, its submit button disabled exactly when the key is listed |
| StudentPortal.Portal.Load | client/student-portal.js:15-45 | the link loads the form only when all five parameters are non-empty |
| StudentPortal.Portal.Scanned | client/student-portal.js:71-105 | a scanned code loads the form when its `class` is non-empty; an invalid URL changes nothing |
| StudentPortal.Portal.GetDeviceId | client/student-portal.js:131-142 | returns `DeviceIdOf` the stored value and leaves that id stored |
| StudentPortal.Portal.Submit | client/student-portal.js:144-188 | the device id is obtained and stored before the field check; the step taken is `SubmitDecision` |
| StudentPortal.Portal.Answered | client/student-portal.js:195-215 | on success the key is recorded, the button disabled and the form hidden; otherwise nothing changes |
| StudentPortal.NoSecondSubmit | client/student-portal.js:199-204 | after a successful check-in the same session's key is listed, so reloading it disables the button |

## Findings

| source | as written | input that shows it | evidently intended | confidence | as-written member | corrected member |
|---|---|---|---|---|---|---|
| server/models/Attendance.js:51-61 | the student sub-schema declares no `deviceId`, so Mongoose's strict mode drops the `deviceId` pushed at server/routes/attendance.js:172-178, and `stu.deviceId` at line 162 is always `undefined` | a session whose only entry is index number "A" from device "D"; a request with index number "B" from device "D" at the same spot is marked | a second check-in from a device that already checked in is refused, as the comment at server/routes/attendance.js:177 says | high; not executed | AttendanceRoutes.SameDeviceAcceptedAsWritten | AttendanceRoutes.SameDeviceTwice |

## Left out

- The haversine distance (`calculateDistance`) is floating-point trigonometry; it is a parameter that yields a number of metres or NaN, and only the threshold logic is modelled.
- AES-256-CTR and `crypto.randomBytes` are foreign code: the cipher is a keystream parameter XORed with the data, and each IV is a parameter.
- UTF-8 transcoding is not modelled: plaintexts are bytes, and `toString('utf8')` on invalid bytes (which Node replaces by U+FFFD) returns the bytes themselves.
- Base64.Decode: decoding is strict as in section 4 of RFC 4648 (canonical and padded) and fails on other text, whereas Node's decoder skips invalid characters and never fails.
- PiiCipher.Decrypt: the `b64:` branch uses strict base 64 as in section 4 of RFC 4648 and gives `null` on malformed text, whereas Node's decoder is lenient and never fails; only canonical tokens, which is all `encrypt` produces, decode as Node does.
- Express routing, JWT verification, the ExcelJS download, clear-history, delete, and the `GET /active` and `GET /history` handlers are I/O or projections; the caller's id is a parameter. The second `GET /history` handler is shadowed by the first and never reached.
- MongoDB `find`/`findOne`/`save` are a sequence of documents in natural order; casts of `_id` and `lecturerId` to ObjectId are ids as numbers, and a query value that is an object or array is not modelled.
- Coordinates are stored as the values that arrived rather than as the numbers Mongoose casts them to; whether the cast succeeds is modelled (`CastsToNumber`), while JavaScript's `Number(text)` test and `parseFloat` are parameters.
- Mongoose's casting of the string paths (a number sent as `className` is stored as its text) is `String(v)`; casts of objects and arrays sent in a body are not modelled.
- Mongoose's `timestamps` option (`createdAt`, and `updatedAt`, which every `save` refreshes) and the `_id` each student entry receives are not modelled; "only the status changes" in `Swept` and `CancelSession`, and "changes nothing else" in `Save`, are about the modelled fields.
- Atomicity between the duplicate test and `save`, the cron schedule, `setInterval` timing and the dashboard's 10-second refresh are concurrency; every operation is one sequential step.
- `new Date(text)` is the `DateParser` parameter; an Invalid Date (NaN seconds) counts as zero seconds left, which is how the table's `> 0` test treats it.
- Number-to-text conversion for counts of 10^21 seconds and more (exponent notation) is not modelled; `Decimal` writes every count in plain digits.
- LecturerDashboard.ActiveTable.UpdateTable: a failed request leaves the table unchanged and is not modelled; the method is the path where the listings arrive. It requires the listings' `_id`s to be distinct, as the server's ids are.
- LecturerDashboard.ActiveTable.Tick: the calls to `updateHistoryTable` and `updateDashboardStats` after a countdown ends are requests to the server and are left out.
- The second loop clears a countdown before removing its row, where the source removes the row first; no other code runs in between, so the order is not observable.
- The table's header row, the cancel buttons' listeners, the history table, QR generation and scanning, the camera, geolocation, `fetch`, and the JSON encoding of `localStorage` entries are DOM or I/O; storage is the `Portal`'s fields.
- StudentPortal.Portal.Submit: the server's answer arrives separately, in `Answered`; a malformed JSON body in the answer is not modelled.
