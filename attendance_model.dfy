/** The attendance session record and its embedded student entries, with what the
    schema enforces when a document is saved (`server/models/Attendance.js`). */
module AttendanceModel {
  import opened Bytes
  import opened JsValues

  type SessionId = nat
  type OwnerId = nat

  /** The `status` enumeration; a value of this type is always one of the three. */
  datatype Status = Active | Completed | Cancelled

  /** The schema's default for `status`. */
  const DefaultStatus: Status := Active

  /** A student's coordinates, stored as they arrived in the request. */
  datatype Location = Location(latitude: JsValue, longitude: JsValue)

  /** One check-in, as it reads back from a loaded document. The sub-schema declares the
      name, index number, timestamp and location; `deviceId` is what `stu.deviceId`
      reads, which depends on the sub-schema (see `EntrySchema`). */
  datatype StudentEntry = StudentEntry(
    studentName: JsValue,
    indexNumber: JsValue,
    timestamp: Text,
    location: Location,
    deviceId: JsValue)

  /** The student sub-schema. As written (`Strict`) it does not declare `deviceId`, and
      Mongoose's default strict mode drops the field from every entry pushed, so it reads
      back as `undefined`. `DeclaresDeviceId` is the sub-schema with the field declared,
      which keeps the pushed value, as the check-in route evidently intends. */
  datatype EntrySchema = Strict | DeclaresDeviceId

  /** What Mongoose does on the way into the collection: the student sub-schema, and the
      test `!isNaN(Number(text))` that its cast of a string to a `Number` path applies.
      JavaScript's number grammar is foreign code here, so the test is a parameter. */
  datatype Mongoose = Mongoose(schema: EntrySchema, numeric: Text -> bool)

  /** What `stu.deviceId` reads back for an entry pushed with `deviceId`. */
  function StoredDeviceId(schema: EntrySchema, deviceId: JsValue): JsValue {
    match schema
    case Strict => Undefined
    case DeclaresDeviceId => deviceId
  }

  /** Whether Mongoose can cast `v` to a `Number` path: `null` and `undefined` stay
      missing, "" becomes `null`, numbers and booleans cast, and any other string casts
      exactly when `Number(text)` is not NaN. A failed cast makes `save` reject. */
  predicate CastsToNumber(db: Mongoose, v: JsValue) {
    match v
    case Str(t) => |t| == 0 || db.numeric(t)
    case _ => true
  }

  datatype Session = Session(
    id: SessionId,
    lecturerId: OwnerId,
    className: Text,
    courseName: Text,
    date: Text,
    startTime: Text,
    endTime: Text,
    lecturerLat: JsValue,
    lecturerLng: JsValue,
    status: Status,
    students: seq<StudentEntry>)

  /** What the schema's `required` validators and `trim` setters leave acceptable on save
      (the cast of the coordinates is `CastsToNumber`): every required string is non-empty
      (Mongoose's `required` rejects ""), `className` and `courseName` are trimmed, and
      the two required numbers are present. */
  predicate Valid(s: Session) {
    && |s.className| > 0 && IsTrimmed(s.className)
    && |s.courseName| > 0 && IsTrimmed(s.courseName)
    && |s.date| > 0 && |s.startTime| > 0 && |s.endTime| > 0
    && !IsNullish(s.lecturerLat) && !IsNullish(s.lecturerLng)
  }

  /** `new Attendance({...})`: the `trim` setters apply to the two names and `status`
      falls back to its default when none is given. The document passes the `required`
      validators exactly when the trimmed names and the other required fields are present. */
  function NewSession(
    id: SessionId, lecturerId: OwnerId, className: Text, courseName: Text,
    date: Text, startTime: Text, endTime: Text, lecturerLat: JsValue, lecturerLng: JsValue,
    status: Option<Status>): (s: Session)
    ensures s.id == id && s.lecturerId == lecturerId
    ensures s.className == Trim(className) && s.courseName == Trim(courseName)
    ensures s.date == date && s.startTime == startTime && s.endTime == endTime
    ensures s.status == (if status.Some? then status.value else DefaultStatus)
    ensures s.students == []
    ensures Valid(s) <==>
              && |Trim(className)| > 0 && |Trim(courseName)| > 0
              && |date| > 0 && |startTime| > 0 && |endTime| > 0
              && !IsNullish(lecturerLat) && !IsNullish(lecturerLng)
  {
    Session(id, lecturerId, Trim(className), Trim(courseName), date, startTime, endTime,
            lecturerLat, lecturerLng,
            if status.Some? then status.value else DefaultStatus, [])
  }

  /** Every stored entry reads back without a device id, as the strict sub-schema leaves
      them. */
  predicate DeviceIdsDropped(ss: seq<Session>) {
    forall j, k | 0 <= j < |ss| && 0 <= k < |ss[j].students| :: ss[j].students[k].deviceId == Undefined
  }

  /** Distinct sessions carry distinct ids (MongoDB's `_id`). */
  predicate IdsUnique(ss: seq<Session>) {
    forall i, j | 0 <= i < j < |ss| :: ss[i].id != ss[j].id
  }
}
