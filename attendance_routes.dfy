/** The attendance routes: creating a session (`POST /`), marking attendance
    (`POST /mark`) and cancelling a session (`PUT /cancel/:id`). Each handler is given
    by a function on the list of sessions, which its lemmas reason about, and by a method
    that performs it on the store the way the route does: load one document, change it
    in memory, save it. The caller's identity (from the bearer token) is a parameter. */
module AttendanceRoutes {
  import opened Bytes
  import opened JsValues
  import opened AttendanceModel
  import opened PiiCipher
  import SessionStore

  // ===========================================================================
  // Create

  datatype CreateRequest = CreateRequest(
    className: JsValue, courseName: JsValue, date: JsValue,
    startTime: JsValue, endTime: JsValue, lecturerLat: JsValue, lecturerLng: JsValue)

  /** 201 with the new session; 400 when a field is falsy; 500 when the document fails
      the schema's casts or validation on save. */
  datatype CreateOutcome = Created(session: Session) | MissingFields | CreateFailed

  /** The route's own check: every one of the seven fields is truthy, so a coordinate of
      exactly 0 is refused. */
  predicate AllFieldsPresent(req: CreateRequest) {
    && Truthy(req.className) && Truthy(req.courseName) && Truthy(req.date)
    && Truthy(req.startTime) && Truthy(req.endTime)
    && Truthy(req.lecturerLat) && Truthy(req.lecturerLng)
  }

  /** The document the route constructs for the caller `owner`, with the `_id` `id`. */
  function Document(id: SessionId, owner: OwnerId, req: CreateRequest): Session {
    NewSession(id, owner, StringOf(req.className), StringOf(req.courseName),
               StringOf(req.date), StringOf(req.startTime), StringOf(req.endTime),
               req.lecturerLat, req.lecturerLng, Some(Active))
  }

  /** A truthy value converts to a non-empty string, and is neither null nor undefined. */
  lemma TruthyStringOfNonEmpty(v: JsValue)
    requires Truthy(v)
    ensures |StringOf(v)| > 0 && !IsNullish(v)
  {
  }

  /** Mongoose can cast both coordinates to numbers. */
  predicate CoordinatesCast(db: Mongoose, lat: JsValue, lng: JsValue) {
    CastsToNumber(db, lat) && CastsToNumber(db, lng)
  }

  /** What creating a session answers. A request whose fields are all truthy can still
      fail: a name of white space only is trimmed to "" and then fails `required`, and a
      coordinate such as "abc" fails the cast to `Number`. No ordering of `startTime` and
      `endTime` is checked. */
  function CreateSession(db: Mongoose, id: SessionId, owner: OwnerId, req: CreateRequest): (r: CreateOutcome)
    ensures r.MissingFields? <==> !AllFieldsPresent(req)
    ensures r.CreateFailed? <==>
              AllFieldsPresent(req)
              && (|Trim(StringOf(req.className))| == 0 || |Trim(StringOf(req.courseName))| == 0
                  || !CoordinatesCast(db, req.lecturerLat, req.lecturerLng))
    ensures r.Created? ==>
              && AttendanceModel.Valid(r.session)
              && CoordinatesCast(db, r.session.lecturerLat, r.session.lecturerLng)
              && r.session.id == id && r.session.lecturerId == owner
              && r.session.status == Active && r.session.students == []
              && r.session.className == Trim(StringOf(req.className))
              && r.session.courseName == Trim(StringOf(req.courseName))
              && r.session.date == StringOf(req.date)
              && r.session.startTime == StringOf(req.startTime)
              && r.session.endTime == StringOf(req.endTime)
              && r.session.lecturerLat == req.lecturerLat
              && r.session.lecturerLng == req.lecturerLng
  {
    if !AllFieldsPresent(req) then MissingFields
    else
      TruthyStringOfNonEmpty(req.date);
      TruthyStringOfNonEmpty(req.startTime);
      TruthyStringOfNonEmpty(req.endTime);
      var s := Document(id, owner, req);
      if AttendanceModel.Valid(s) && CoordinatesCast(db, req.lecturerLat, req.lecturerLng) then Created(s)
      else CreateFailed
  }


  /** A lecturer standing on the equator or the prime meridian cannot create a session. */
  lemma ZeroCoordinateRefused(db: Mongoose, id: SessionId, owner: OwnerId, req: CreateRequest)
    requires req.lecturerLat == Primitive(ZeroText) || req.lecturerLng == Primitive(ZeroText)
    ensures CreateSession(db, id, owner, req) == MissingFields
  {
  }

  method Create(db: Mongoose, store: SessionStore.Store, owner: OwnerId, req: CreateRequest)
    returns (r: CreateOutcome)
    requires store.Valid()
    modifies store
    ensures store.Valid()
    ensures r == CreateSession(db, old(store.nextId), owner, req)
    ensures r.Created? ==> store.sessions == old(store.sessions) + [r.session]
    ensures !r.Created? ==> store.sessions == old(store.sessions)
  {
    if !AllFieldsPresent(req) {
      return MissingFields;
    }
    var id := store.NewId();
    var s := Document(id, owner, req);
    if !AttendanceModel.Valid(s) || !CoordinatesCast(db, req.lecturerLat, req.lecturerLng) {
      return CreateFailed;
    }
    store.Insert(s);
    r := Created(s);
  }

  // ===========================================================================
  // Mark attendance

  datatype MarkRequest = MarkRequest(
    className: JsValue, date: JsValue, endTime: JsValue,
    studentName: JsValue, indexNumber: JsValue,
    latitude: JsValue, longitude: JsValue, deviceId: JsValue)

  /** 200; 404 "not found or not active"; 500 on invalid coordinates; 403 when too far;
      400 for a duplicate; 500 "Server error" when `save` rejects the new entry. */
  datatype MarkOutcome =
    | Marked | NotFoundOrInactive | InvalidCoordinates | TooFar(meters: real) | Duplicate | SaveFailed

  /** The result of `calculateDistance` on the parsed coordinates: a number of metres or
      NaN. The haversine computation itself is floating point and is a parameter. */
  datatype Distance = NotANumber | Meters(m: real)
  type DistanceFn = (JsValue, JsValue, JsValue, JsValue) -> Distance

  /** The vicinity threshold, in metres. */
  const MaxDistance: real := 10000.0

  /** The randomness and foreign code a check-in draws on: the configured key, the AES
      keystream, and the two random IVs of the two `encrypt` calls. */
  datatype Crypto = Crypto(key: CipherKey, ks: Keystream, nameIv: Text, indexIv: Text)

  predicate CryptoOk(c: Crypto) { |c.nameIv| == IvLength && |c.indexIv| == IvLength }

  /** One field of the `findOne` filter, as Mongoose casts it to a string path: `null`
      (and `undefined`, which the driver sends as `null`) matches only a missing field,
      and a stored session has none; any other value is cast to its string. */
  function QueryText(q: JsValue): (r: Option<Text>)
    ensures r.Some? <==> q.Str? || q.Primitive?
    ensures r.Some? ==> r.value == StringOf(q)
  {
    if q.Str? || q.Primitive? then Some(StringOf(q)) else None
  }

  /** The cast filter `{ className, date, endTime }`; only `className` has a `trim`
      setter in the schema, and Mongoose runs a path's setters when it casts a query. */
  datatype Filter = Filter(className: Option<Text>, date: Option<Text>, endTime: Option<Text>)

  function FilterOf(req: MarkRequest): (f: Filter)
    ensures f.className.Some? <==> req.className.Str? || req.className.Primitive?
    ensures f.className.Some? ==> f.className.value == Trim(StringOf(req.className))
    ensures f.date == QueryText(req.date) && f.endTime == QueryText(req.endTime)
  {
    var c := QueryText(req.className);
    Filter(if c.Some? then Some(Trim(c.value)) else None, QueryText(req.date), QueryText(req.endTime))
  }

  /** A session answers the cast filter together with `status: 'Active'`. */
  predicate Matches(s: Session, f: Filter) {
    && s.status == Active
    && f.className == Some(s.className)
    && f.date == Some(s.date)
    && f.endTime == Some(s.endTime)
  }

  /** The session is the one the request's filter selects. */
  predicate IsTarget(s: Session, req: MarkRequest) {
    Matches(s, FilterOf(req))
  }

  /** `findOne` on an already cast filter: the first matching session in natural order. */
  function FindMatch(ss: seq<Session>, f: Filter): (r: Option<nat>)
    ensures r.Some? ==> r.value < |ss| && Matches(ss[r.value], f)
    ensures r.Some? ==> forall j | 0 <= j < r.value :: !Matches(ss[j], f)
    ensures r.None? <==> forall j | 0 <= j < |ss| :: !Matches(ss[j], f)
    decreases |ss|
  {
    if |ss| == 0 then None
    else if Matches(ss[0], f) then Some(0)
    else match FindMatch(ss[1..], f)
      case None => None
      case Some(k) => Some(k + 1)
  }

  /** `findOne` for a request: its filter is cast, then matched in natural order. */
  function FindTarget(ss: seq<Session>, req: MarkRequest): (r: Option<nat>)
    ensures r.Some? ==> r.value < |ss| && IsTarget(ss[r.value], req)
    ensures r.Some? ==> forall j | 0 <= j < r.value :: !IsTarget(ss[j], req)
    ensures r.None? <==> forall j | 0 <= j < |ss| :: !IsTarget(ss[j], req)
  {
    FindMatch(ss, FilterOf(req))
  }

  /** The duplicate test: some stored entry's decrypted index number is `===` the
      request's, or its `deviceId` is `===` the request's. */
  predicate AlreadyMarked(key: CipherKey, ks: Keystream, students: seq<StudentEntry>, req: MarkRequest) {
    exists k | 0 <= k < |students| ::
      Decrypt(key, ks, students[k].indexNumber) == req.indexNumber || students[k].deviceId == req.deviceId
  }

  /** The entry that a successful check-in appends, as it reads back once saved under
      `schema`; `now` is `new Date().toISOString()`. */
  function NewEntry(schema: EntrySchema, c: Crypto, req: MarkRequest, now: Text): StudentEntry
    requires CryptoOk(c)
  {
    StudentEntry(
      Encrypt(c.key, c.ks, c.nameIv, req.studentName),
      Encrypt(c.key, c.ks, c.indexIv, req.indexNumber),
      now,
      Location(req.latitude, req.longitude),
      StoredDeviceId(schema, req.deviceId))
  }

  datatype MarkResult = MarkResult(outcome: MarkOutcome, sessions: seq<Session>)

  /** The check-in pipeline, in its order: lookup, NaN distance, threshold, duplicate,
      append and save. There is no start or end time check: only the sweep's change of
      status stops late check-ins. `parseFloat` accepts a coordinate such as "5.6abc"
      that Mongoose cannot cast, so such a check-in passes every test and then fails
      on `save`, leaving the store unchanged. */
  function MarkAttendance(db: Mongoose, ss: seq<Session>, c: Crypto, distance: DistanceFn, req: MarkRequest, now: Text)
    : (r: MarkResult)
    requires CryptoOk(c)
    ensures r.outcome == NotFoundOrInactive <==> FindTarget(ss, req).None?
    ensures FindTarget(ss, req).Some? ==>
              var i := FindTarget(ss, req).value;
              var d := distance(req.latitude, req.longitude, ss[i].lecturerLat, ss[i].lecturerLng);
              var accepted := d.Meters? && d.m <= MaxDistance && !AlreadyMarked(c.key, c.ks, ss[i].students, req);
              && (r.outcome == InvalidCoordinates <==> d.NotANumber?)
              && (r.outcome.TooFar? <==> d.Meters? && d.m > MaxDistance)
              && (r.outcome == Duplicate <==>
                    d.Meters? && d.m <= MaxDistance && AlreadyMarked(c.key, c.ks, ss[i].students, req))
              && (r.outcome == SaveFailed <==> accepted && !CoordinatesCast(db, req.latitude, req.longitude))
              && (r.outcome == Marked <==> accepted && CoordinatesCast(db, req.latitude, req.longitude))
              && (r.outcome == Marked ==>
                    r.sessions == ss[i := ss[i].(students := ss[i].students + [NewEntry(db.schema, c, req, now)])])
    ensures r.outcome != Marked ==> r.sessions == ss
    ensures |r.sessions| == |ss|
    ensures forall j | 0 <= j < |ss| ::
              r.sessions[j] == ss[j].(students := r.sessions[j].students)
              && ss[j].students <= r.sessions[j].students
              && (ss[j].status != Active ==> r.sessions[j] == ss[j])
  {
    match FindTarget(ss, req)
    case None => MarkResult(NotFoundOrInactive, ss)
    case Some(i) =>
      var s := ss[i];
      var d := distance(req.latitude, req.longitude, s.lecturerLat, s.lecturerLng);
      if d.NotANumber? then MarkResult(InvalidCoordinates, ss)
      else if d.m > MaxDistance then MarkResult(TooFar(d.m), ss)
      else if AlreadyMarked(c.key, c.ks, s.students, req) then MarkResult(Duplicate, ss)
      else if !CoordinatesCast(db, req.latitude, req.longitude) then MarkResult(SaveFailed, ss)
      else MarkResult(Marked, ss[i := s.(students := s.students + [NewEntry(db.schema, c, req, now)])])
  }

  method Mark(db: Mongoose, store: SessionStore.Store, c: Crypto, distance: DistanceFn, req: MarkRequest, now: Text)
    returns (r: MarkOutcome)
    requires store.Valid() && CryptoOk(c)
    modifies store
    ensures store.Valid() && store.nextId == old(store.nextId)
    ensures MarkResult(r, store.sessions) == MarkAttendance(db, old(store.sessions), c, distance, req, now)
  {
    var found := FindTarget(store.sessions, req);
    if found.None? {
      return NotFoundOrInactive;
    }
    var i := found.value;
    var attendance := store.sessions[i];
    var d := distance(req.latitude, req.longitude, attendance.lecturerLat, attendance.lecturerLng);
    if d.NotANumber? {
      return InvalidCoordinates;
    }
    if d.m > MaxDistance {
      return TooFar(d.m);
    }
    if AlreadyMarked(c.key, c.ks, attendance.students, req) {
      return Duplicate;
    }
    attendance := attendance.(students := attendance.students + [NewEntry(db.schema, c, req, now)]);
    if !CoordinatesCast(db, req.latitude, req.longitude) {
      // The push is made in memory; `save` rejects the uncastable location.
      return SaveFailed;
    }
    store.Save(i, attendance);
    r := Marked;
  }

  /** The lookup sees only whether each session matches. */
  lemma {:induction false} FindMatchSame(ss: seq<Session>, ss': seq<Session>, f: Filter, f': Filter)
    requires |ss| == |ss'|
    requires forall j | 0 <= j < |ss| :: Matches(ss[j], f) == Matches(ss'[j], f')
    ensures FindMatch(ss, f) == FindMatch(ss', f')
    decreases |ss|
  {
    if |ss| > 0 {
      assert Matches(ss[0], f) == Matches(ss'[0], f');
      forall j | 0 <= j < |ss| - 1 ensures Matches(ss[1..][j], f) == Matches(ss'[1..][j], f') {
        assert ss[1..][j] == ss[j + 1] && ss'[1..][j] == ss'[j + 1];
      }
      FindMatchSame(ss[1..], ss'[1..], f, f');
    }
  }

  /** The lookup sees only the status and the three key fields of each session. */
  lemma FindTargetSameKeys(ss: seq<Session>, ss': seq<Session>, req: MarkRequest, req': MarkRequest)
    requires |ss| == |ss'|
    requires forall j | 0 <= j < |ss| :: IsTarget(ss[j], req) == IsTarget(ss'[j], req')
    ensures FindTarget(ss, req) == FindTarget(ss', req')
  {
    FindMatchSame(ss, ss', FilterOf(req), FilterOf(req'));
  }

  /** The lookup sees the request's class name only once trimmed: padding it with white
      space finds the same session. */
  lemma LookupTrimsClassName(ss: seq<Session>, req: MarkRequest)
    requires req.className.Str? || req.className.Primitive?
    ensures FindTarget(ss, req) == FindTarget(ss, req.(className := Str(Trim(StringOf(req.className)))))
  {
    var req' := req.(className := Str(Trim(StringOf(req.className))));
    TrimIdempotent(StringOf(req.className));
    forall j | 0 <= j < |ss| ensures IsTarget(ss[j], req) == IsTarget(ss[j], req') { }
    FindTargetSameKeys(ss, ss, req, req');
  }

  /** `"A ".trim()` is `"A"`. */
  lemma TrimOfPaddedA()
    ensures Trim([0x41, 0x20]) == [0x41]
  {
    var t: Text := [0x41, 0x20];
    assert LeadingSpace(t) == 0;
    assert TrimStart(t) == t;
    assert TrailingSpace(t) == 1 && t[..1] == [0x41];
    var u: Text := [0x41];
    assert TrailingSpace(u) == 0;
    assert TrimEnd(u) == u;
    assert TrimEnd(t) == TrimEnd(u);
  }

  /** A concrete case: a session of class "A" is found by a request for class "A ". */
  lemma PaddedClassNameFound(s: Session, req: MarkRequest)
    requires s.status == Active && s.className == [0x41]
    requires req.className == Str([0x41, 0x20])
    requires QueryText(req.date) == Some(s.date) && QueryText(req.endTime) == Some(s.endTime)
    ensures FindTarget([s], req) == Some(0)
  {
    TrimOfPaddedA();
    var f := FilterOf(req);
    assert f.className == Some([0x41]);
    assert Matches(s, f);
  }

  /** A check-in changes only a student list, so a request with the same three keys
      finds the same session afterwards. */
  lemma FindTargetAfterCheckIn(ss: seq<Session>, i: nat, students: seq<StudentEntry>, req1: MarkRequest, req2: MarkRequest)
    requires i < |ss|
    requires req2.className == req1.className && req2.date == req1.date && req2.endTime == req1.endTime
    ensures FindTarget(ss[i := ss[i].(students := students)], req2) == FindTarget(ss, req1)
  {
    var ss1 := ss[i := ss[i].(students := students)];
    var f := FilterOf(req1);
    assert FilterOf(req2) == f;
    forall j | 0 <= j < |ss| ensures Matches(ss[j], f) == Matches(ss1[j], f) {
      if j == i {
        assert ss1[j].status == ss[j].status && ss1[j].className == ss[j].className;
        assert ss1[j].date == ss[j].date && ss1[j].endTime == ss[j].endTime;
      } else {
        assert ss1[j] == ss[j];
      }
    }
    FindMatchSame(ss, ss1, f, f);
  }

  /** Exactly 10000 m is inside the vicinity. */
  lemma ThresholdIsInclusive(db: Mongoose, ss: seq<Session>, c: Crypto, distance: DistanceFn, req: MarkRequest, now: Text)
    requires CryptoOk(c) && FindTarget(ss, req).Some?
    requires var s := ss[FindTarget(ss, req).value];
             && distance(req.latitude, req.longitude, s.lecturerLat, s.lecturerLng) == Meters(MaxDistance)
             && !AlreadyMarked(c.key, c.ks, s.students, req)
             && CoordinatesCast(db, req.latitude, req.longitude)
    ensures MarkAttendance(db, ss, c, distance, req, now).outcome == Marked
  {
  }

  /** After a successful check-in, a second one for the same session with the same
      index number (sent as a string) is refused, whatever its device id and under either
      sub-schema: as a duplicate, or earlier by the distance checks. Nothing is appended. */
  lemma SameIndexNumberTwice(
    db: Mongoose, ss: seq<Session>, key: CipherKey, ks: Keystream, nameIv: Text, indexIv: Text, c2: Crypto,
    distance: DistanceFn, req1: MarkRequest, req2: MarkRequest, now1: Text, now2: Text)
    requires |nameIv| == IvLength && |indexIv| == IvLength && CryptoOk(c2)
    requires c2.key == key && c2.ks == ks
    requires MarkAttendance(db, ss, Crypto(key, ks, nameIv, indexIv), distance, req1, now1).outcome == Marked
    requires req2.className == req1.className && req2.date == req1.date && req2.endTime == req1.endTime
    requires req1.indexNumber.Str? && req2.indexNumber == req1.indexNumber
    ensures var ss1 := MarkAttendance(db, ss, Crypto(key, ks, nameIv, indexIv), distance, req1, now1).sessions;
            var r2 := MarkAttendance(db, ss1, c2, distance, req2, now2);
            && r2.sessions == ss1
            && (r2.outcome == Duplicate || r2.outcome == InvalidCoordinates || r2.outcome.TooFar?)
  {
    var c1 := Crypto(key, ks, nameIv, indexIv);
    var ss1 := MarkAttendance(db, ss, c1, distance, req1, now1).sessions;
    var i := FindTarget(ss, req1).value;
    var e := NewEntry(db.schema, c1, req1, now1);
    assert ss1 == ss[i := ss[i].(students := ss[i].students + [e])];
    FindTargetAfterCheckIn(ss, i, ss[i].students + [e], req1, req2);
    assert AlreadyMarked(c2.key, c2.ks, ss[i].students + [e], req2) by {
      RoundTrip(key, ks, indexIv, req1.indexNumber);
      assert Decrypt(key, ks, e.indexNumber) == req2.indexNumber;
      assert (ss[i].students + [e])[|ss[i].students|] == e;
    }
    RefusedWhenAlreadyMarked(db, ss1, c2, distance, req2, now2);
  }

  /** A request that an entry of its target already matches is refused, one way or another,
      and changes nothing. */
  lemma RefusedWhenAlreadyMarked(db: Mongoose, ss: seq<Session>, c: Crypto, distance: DistanceFn, req: MarkRequest, now: Text)
    requires CryptoOk(c) && FindTarget(ss, req).Some?
    requires AlreadyMarked(c.key, c.ks, ss[FindTarget(ss, req).value].students, req)
    ensures var r := MarkAttendance(db, ss, c, distance, req, now);
            && r.sessions == ss
            && (r.outcome == Duplicate || r.outcome == InvalidCoordinates || r.outcome.TooFar?)
  {
  }

  /** An index number sent as a JSON number is never matched by the index test: the
      stored token decrypts to its text, a string, and a string is not `===` a number. */
  lemma NumericIndexNumberNotMatched(schema: EntrySchema, c: Crypto, req: MarkRequest, now: Text)
    requires CryptoOk(c) && req.indexNumber.Primitive?
    ensures Decrypt(c.key, c.ks, NewEntry(schema, c, req, now).indexNumber) == Str(req.indexNumber.repr)
    ensures Decrypt(c.key, c.ks, NewEntry(schema, c, req, now).indexNumber) != req.indexNumber
  {
    RoundTrip(c.key, c.ks, c.indexIv, req.indexNumber);
  }

  /** With a sub-schema that keeps `deviceId`, a second check-in to the same session from
      the same device is refused after a successful one, whatever its index number. */
  lemma SameDeviceTwice(
    db: Mongoose, ss: seq<Session>, c1: Crypto, c2: Crypto,
    distance: DistanceFn, req1: MarkRequest, req2: MarkRequest, now1: Text, now2: Text)
    requires db.schema == DeclaresDeviceId && CryptoOk(c1) && CryptoOk(c2)
    requires MarkAttendance(db, ss, c1, distance, req1, now1).outcome == Marked
    requires req2.className == req1.className && req2.date == req1.date && req2.endTime == req1.endTime
    requires req2.deviceId == req1.deviceId
    ensures var ss1 := MarkAttendance(db, ss, c1, distance, req1, now1).sessions;
            var r2 := MarkAttendance(db, ss1, c2, distance, req2, now2);
            && r2.sessions == ss1
            && (r2.outcome == Duplicate || r2.outcome == InvalidCoordinates || r2.outcome.TooFar?)
  {
    var ss1 := MarkAttendance(db, ss, c1, distance, req1, now1).sessions;
    var i := FindTarget(ss, req1).value;
    var e := NewEntry(db.schema, c1, req1, now1);
    assert ss1 == ss[i := ss[i].(students := ss[i].students + [e])];
    FindTargetAfterCheckIn(ss, i, ss[i].students + [e], req1, req2);
    assert AlreadyMarked(c2.key, c2.ks, ss[i].students + [e], req2) by {
      assert e.deviceId == req2.deviceId;
      assert (ss[i].students + [e])[|ss[i].students|] == e;
    }
    RefusedWhenAlreadyMarked(db, ss1, c2, distance, req2, now2);
  }

  /** As written, the device test refuses no device that sends its id: the strict
      sub-schema dropped the id of the first check-in, so a second check-in from the same
      device, at the same spot, with another index number, is marked as well. */
  lemma SameDeviceAcceptedAsWritten(
    db: Mongoose, ss: seq<Session>, c1: Crypto, c2: Crypto,
    distance: DistanceFn, req1: MarkRequest, req2: MarkRequest, now1: Text, now2: Text)
    requires db.schema == Strict && CryptoOk(c1) && CryptoOk(c2)
    requires c2.key == c1.key && c2.ks == c1.ks
    requires MarkAttendance(db, ss, c1, distance, req1, now1).outcome == Marked
    requires ss[FindTarget(ss, req1).value].students == []
    requires req2.className == req1.className && req2.date == req1.date && req2.endTime == req1.endTime
    requires req2.latitude == req1.latitude && req2.longitude == req1.longitude
    requires req2.deviceId == req1.deviceId != Undefined
    requires req1.indexNumber.Str? && req2.indexNumber.Str? && req2.indexNumber != req1.indexNumber
    ensures var ss1 := MarkAttendance(db, ss, c1, distance, req1, now1).sessions;
            MarkAttendance(db, ss1, c2, distance, req2, now2).outcome == Marked
  {
    var ss1 := MarkAttendance(db, ss, c1, distance, req1, now1).sessions;
    var i := FindTarget(ss, req1).value;
    var e := NewEntry(db.schema, c1, req1, now1);
    assert ss[i].students + [e] == [e];
    assert ss1 == ss[i := ss[i].(students := [e])];
    FindTargetAfterCheckIn(ss, i, [e], req1, req2);
    StrictEntryNotMatched(c1, c2, req1, req2, now1);
    MarkedWhenAccepted(db, ss1, c2, distance, req2, now2);
  }

  /** A strictly stored entry matches neither another index number nor a device id. */
  lemma StrictEntryNotMatched(c1: Crypto, c2: Crypto, req1: MarkRequest, req2: MarkRequest, now: Text)
    requires CryptoOk(c1) && c2.key == c1.key && c2.ks == c1.ks
    requires req2.deviceId != Undefined
    requires req1.indexNumber.Str? && req2.indexNumber != req1.indexNumber
    ensures !AlreadyMarked(c2.key, c2.ks, [NewEntry(Strict, c1, req1, now)], req2)
  {
    var e := NewEntry(Strict, c1, req1, now);
    RoundTrip(c1.key, c1.ks, c1.indexIv, req1.indexNumber);
    assert Decrypt(c2.key, c2.ks, e.indexNumber) == req1.indexNumber;
  }

  /** The happy path: a target in range, not yet marked, with castable coordinates. */
  lemma MarkedWhenAccepted(db: Mongoose, ss: seq<Session>, c: Crypto, distance: DistanceFn, req: MarkRequest, now: Text)
    requires CryptoOk(c) && FindTarget(ss, req).Some?
    requires var s := ss[FindTarget(ss, req).value];
             var d := distance(req.latitude, req.longitude, s.lecturerLat, s.lecturerLng);
             && d.Meters? && d.m <= MaxDistance
             && !AlreadyMarked(c.key, c.ks, s.students, req)
             && CoordinatesCast(db, req.latitude, req.longitude)
    ensures MarkAttendance(db, ss, c, distance, req, now).outcome == Marked
  {
  }

  /** Under the strict sub-schema no stored entry ever reads back a device id. */
  lemma StrictKeepsDeviceIdsDropped(
    db: Mongoose, ss: seq<Session>, c: Crypto, distance: DistanceFn, req: MarkRequest, now: Text)
    requires db.schema == Strict && CryptoOk(c) && DeviceIdsDropped(ss)
    ensures DeviceIdsDropped(MarkAttendance(db, ss, c, distance, req, now).sessions)
  {
    var r := MarkAttendance(db, ss, c, distance, req, now);
    if r.outcome == Marked {
      var i := FindTarget(ss, req).value;
      assert NewEntry(db.schema, c, req, now).deviceId == Undefined;
      forall j, k | 0 <= j < |r.sessions| && 0 <= k < |r.sessions[j].students|
        ensures r.sessions[j].students[k].deviceId == Undefined
      {
        if j == i && k == |ss[i].students| {
          assert r.sessions[j].students[k] == NewEntry(db.schema, c, req, now);
        } else {
          assert r.sessions[j].students[k] == ss[j].students[k];
        }
      }
    }
  }

  /** The device test compares optional values exactly: a request without a `deviceId`
      matches every stored entry that has none either (`undefined === undefined`). So
      under the strict sub-schema, a request that sends none is refused as soon as the
      session has one entry, whatever its index number. */
  lemma MissingDeviceIdMatchesEntryWithout(
    db: Mongoose, ss: seq<Session>, c: Crypto, distance: DistanceFn, req: MarkRequest, now: Text, k: nat)
    requires CryptoOk(c) && FindTarget(ss, req).Some?
    requires var s := ss[FindTarget(ss, req).value];
             && distance(req.latitude, req.longitude, s.lecturerLat, s.lecturerLng).Meters?
             && distance(req.latitude, req.longitude, s.lecturerLat, s.lecturerLng).m <= MaxDistance
             && k < |s.students| && s.students[k].deviceId == Undefined
    requires req.deviceId == Undefined
    ensures MarkAttendance(db, ss, c, distance, req, now).outcome == Duplicate
  {
    var s := ss[FindTarget(ss, req).value];
    assert s.students[k].deviceId == req.deviceId;
  }

  // ===========================================================================
  // Cancel

  datatype CancelOutcome = CancelDone | CancelNotFound

  datatype CancelResult = CancelResult(outcome: CancelOutcome, sessions: seq<Session>)

  /** The filter `{ _id: id, lecturerId: owner, status: 'Active' }`. */
  predicate IsCancellable(s: Session, owner: OwnerId, id: SessionId) {
    s.id == id && s.lecturerId == owner && s.status == Active
  }

  function FindCancellable(ss: seq<Session>, owner: OwnerId, id: SessionId): (r: Option<nat>)
    ensures r.Some? ==> r.value < |ss| && IsCancellable(ss[r.value], owner, id)
    ensures r.None? <==> forall j | 0 <= j < |ss| :: !IsCancellable(ss[j], owner, id)
    decreases |ss|
  {
    if |ss| == 0 then None
    else if IsCancellable(ss[0], owner, id) then Some(0)
    else match FindCancellable(ss[1..], owner, id)
      case None => None
      case Some(k) => Some(k + 1)
  }

  /** Cancelling succeeds only on an `Active` session of the caller with that id, and
      then only its status changes, to `Cancelled`; otherwise nothing changes. */
  function CancelSession(ss: seq<Session>, owner: OwnerId, id: SessionId): (r: CancelResult)
    ensures r.outcome == CancelDone <==> exists j | 0 <= j < |ss| :: IsCancellable(ss[j], owner, id)
    ensures r.outcome == CancelNotFound ==> r.sessions == ss
    ensures r.outcome == CancelDone ==>
              exists j | 0 <= j < |ss| ::
                IsCancellable(ss[j], owner, id) && r.sessions == ss[j := ss[j].(status := Cancelled)]
  {
    match FindCancellable(ss, owner, id)
    case None => CancelResult(CancelNotFound, ss)
    case Some(i) => CancelResult(CancelDone, ss[i := ss[i].(status := Cancelled)])
  }

  method Cancel(store: SessionStore.Store, owner: OwnerId, id: SessionId) returns (r: CancelOutcome)
    requires store.Valid()
    modifies store
    ensures store.Valid() && store.nextId == old(store.nextId)
    ensures CancelResult(r, store.sessions) == CancelSession(old(store.sessions), owner, id)
  {
    var found := FindCancellable(store.sessions, owner, id);
    if found.None? {
      return CancelNotFound;
    }
    var attendance := store.sessions[found.value];
    attendance := attendance.(status := Cancelled);
    store.Save(found.value, attendance);
    r := CancelDone;
  }

  /** A second cancellation of the same session fails: cancel is not repeatable. */
  lemma CancelTwice(ss: seq<Session>, owner: OwnerId, id: SessionId)
    requires IdsUnique(ss)
    requires CancelSession(ss, owner, id).outcome == CancelDone
    ensures var ss1 := CancelSession(ss, owner, id).sessions;
            CancelSession(ss1, owner, id) == CancelResult(CancelNotFound, ss1)
  {
    var i := FindCancellable(ss, owner, id).value;
    var ss1 := CancelSession(ss, owner, id).sessions;
    forall j | 0 <= j < |ss1| ensures !IsCancellable(ss1[j], owner, id) {
      if j != i {
        assert ss1[j] == ss[j];
        assert ss[j].id != ss[i].id;
      }
    }
  }

  /** Once a session is cancelled, no later check-in changes it: the lookup only
      considers `Active` sessions. */
  lemma NoCheckInAfterCancel(
    db: Mongoose, ss: seq<Session>, owner: OwnerId, id: SessionId,
    c: Crypto, distance: DistanceFn, req: MarkRequest, now: Text)
    requires IdsUnique(ss) && CryptoOk(c)
    requires CancelSession(ss, owner, id).outcome == CancelDone
    ensures var ss1 := CancelSession(ss, owner, id).sessions;
            var ss2 := MarkAttendance(db, ss1, c, distance, req, now).sessions;
            && |ss2| == |ss1|
            && forall j | 0 <= j < |ss1| && ss1[j].id == id ::
                 ss1[j].status == Cancelled && ss2[j] == ss1[j]
  {
    var i := FindCancellable(ss, owner, id).value;
    var ss1 := CancelSession(ss, owner, id).sessions;
    forall j | 0 <= j < |ss1| && ss1[j].id == id ensures j == i {
      assert ss[j].id == ss1[j].id;
    }
  }
}
