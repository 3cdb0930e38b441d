/** The student portal (`client/student-portal.js`): loading a session's QR data, the
    per-device list of sessions already attended, the stored device id, and the submit
    handler up to the check-in request it sends. The browser's storage is the state of
    a `Portal` object; the camera, the QR decoder, geolocation and `fetch` are
    parameters. */
module StudentPortal {
  import opened Bytes
  import opened JsValues
  import AttendanceRoutes
  import AttendanceModel

  // ===========================================================================
  // QR data and the session key

  /** The five query parameters of a session's link, as `URLSearchParams.get` returns
      them: the text, or `null` (`None`) when the parameter is absent. The source's
      `class` key is `className` here. */
  datatype QrData = QrData(
    className: Option<Text>, course: Option<Text>, date: Option<Text>,
    start: Option<Text>, end: Option<Text>)

  /** A parameter as a JavaScript value. */
  function Param(p: Option<Text>): (v: JsValue)
    ensures v.Null? <==> p.None?
    ensures Truthy(v) <==> p.Some? && p.value != []
  {
    match p
    case None => Null
    case Some(t) => Str(t)
  }

  /** The page-load path needs all five parameters non-empty. */
  predicate AutoLoads(q: QrData) {
    && Truthy(Param(q.className)) && Truthy(Param(q.course)) && Truthy(Param(q.date))
    && Truthy(Param(q.start)) && Truthy(Param(q.end))
  }

  /** The scanner path needs only `class`. */
  predicate ScanLoads(q: QrData) {
    Truthy(Param(q.className))
  }

  /** The template `${class}|${date}|${end}`; an absent parameter reads "null". */
  function SessionKey(q: QrData): Text {
    StringOf(Param(q.className)) + [Pipe] + StringOf(Param(q.date)) + [Pipe] + StringOf(Param(q.end))
  }

  /** The parts of a key: when neither the class nor the date holds a '|', splitting the
      key on '|' gives back the three texts it was built from. */
  lemma SessionKeySplit(q: QrData)
    requires Pipe !in StringOf(Param(q.className)) && Pipe !in StringOf(Param(q.date))
    requires Pipe !in StringOf(Param(q.end))
    ensures SplitOn(SessionKey(q), Pipe)
            == [StringOf(Param(q.className)), StringOf(Param(q.date)), StringOf(Param(q.end))]
  {
    var c := StringOf(Param(q.className));
    var d := StringOf(Param(q.date));
    var e := StringOf(Param(q.end));
    assert SessionKey(q) == c + [Pipe] + (d + [Pipe] + e);
    SplitOnFirst(c, Pipe, d + [Pipe] + e);
    SplitOnFirst(d, Pipe, e);
    SplitOnNone(e, Pipe);
  }

  /** Two QR codes with the same key name the same class, date and end time, provided
      the class and the date hold no '|'. */
  lemma SessionKeyInjective(q1: QrData, q2: QrData)
    requires Pipe !in StringOf(Param(q1.className)) && Pipe !in StringOf(Param(q1.date))
    requires Pipe !in StringOf(Param(q2.className)) && Pipe !in StringOf(Param(q2.date))
    requires SessionKey(q1) == SessionKey(q2)
    ensures StringOf(Param(q1.className)) == StringOf(Param(q2.className))
    ensures StringOf(Param(q1.date)) == StringOf(Param(q2.date))
    ensures StringOf(Param(q1.end)) == StringOf(Param(q2.end))
  {
    ThreePartsDetermine(
      StringOf(Param(q1.className)), StringOf(Param(q1.date)), StringOf(Param(q1.end)),
      StringOf(Param(q2.className)), StringOf(Param(q2.date)), StringOf(Param(q2.end)), Pipe);
  }

  /** Without that proviso the key is ambiguous: class "A|B" on date "C" and class "A"
      on date "B|C" share the key "A|B|C". */
  lemma SessionKeyCollision()
    ensures var q1 := QrData(Some([0x41, Pipe, 0x42]), None, Some([0x43]), None, Some([0x31]));
            var q2 := QrData(Some([0x41]), None, Some([0x42, Pipe, 0x43]), None, Some([0x31]));
            SessionKey(q1) == SessionKey(q2) && q1.className != q2.className
  {
    var q1 := QrData(Some([0x41, Pipe, 0x42]), None, Some([0x43]), None, Some([0x31]));
    var q2 := QrData(Some([0x41]), None, Some([0x42, Pipe, 0x43]), None, Some([0x31]));
    assert SessionKey(q1) == [0x41, Pipe, 0x42, Pipe, 0x43, Pipe, 0x31];
    assert SessionKey(q2) == [0x41, Pipe, 0x42, Pipe, 0x43, Pipe, 0x31];
  }

  // ===========================================================================
  // The list of sessions attended from this device

  predicate NoDuplicates(used: seq<Text>) {
    forall i, j | 0 <= i < j < |used| :: used[i] != used[j]
  }

  /** The list after a successful check-in: the key is pushed only when absent. */
  function Recorded(used: seq<Text>, key: Text): (r: seq<Text>)
    ensures key in r
    ensures used <= r && |r| <= |used| + 1
    ensures forall x | x in r :: x in used || x == key
    ensures NoDuplicates(used) ==> NoDuplicates(r)
  {
    if key in used then used else used + [key]
  }

  /** Recording the same key again changes nothing. */
  lemma RecordedIdempotent(used: seq<Text>, key: Text)
    ensures Recorded(Recorded(used, key), key) == Recorded(used, key)
  {
  }

  /** A key that is already listed stays at its place, and the list is left alone. */
  lemma RecordedKeepsListed(used: seq<Text>, key: Text, i: nat)
    requires i < |used| && used[i] == key
    ensures Recorded(used, key) == used
  {
  }

  // ===========================================================================
  // The device id

  /** `!deviceId`: there is no stored id, or it is empty. */
  predicate HasDeviceId(stored: Option<Text>) {
    stored.Some? && stored.value != []
  }

  /** What `getDeviceId()` returns: the stored id when there is one, otherwise the freshly
      generated one (a random UUID, or "dev-" followed by the clock and random digits). */
  function DeviceIdOf(stored: Option<Text>, generated: Text): (id: Text)
    requires generated != []
    ensures id != []
    ensures HasDeviceId(stored) ==> id == stored.value
    ensures !HasDeviceId(stored) ==> id == generated
  {
    if HasDeviceId(stored) then stored.value else generated
  }

  /** Once an id has been handed out, every later call hands out the same one, whatever
      it would have generated. */
  lemma DeviceIdStable(stored: Option<Text>, g1: Text, g2: Text)
    requires g1 != [] && g2 != []
    ensures var id := DeviceIdOf(stored, g1);
            DeviceIdOf(Some(id), g2) == id
  {
  }

  // ===========================================================================
  // Submitting

  /** The coordinates `getCurrentPosition` resolves to, as the numbers JSON carries. */
  datatype Position = Position(latitude: JsValue, longitude: JsValue)

  /** How far the submit handler gets before the server answers: an exception (no QR data
      stored on the form, or geolocation refused), the local field check, or the request. */
  datatype SubmitStep = SubmitError | FieldsMissing | Send(req: AttendanceRoutes.MarkRequest)

  /** The body posted to `/api/attendance/mark`. */
  function MarkRequestOf(q: QrData, name: Text, index: Text, p: Position, id: Text): AttendanceRoutes.MarkRequest {
    AttendanceRoutes.MarkRequest(
      Param(q.className), Param(q.date), Param(q.end),
      Str(Trim(name)), Str(Trim(index)), p.latitude, p.longitude, Str(id))
  }

  /** The submit handler's decision, given the stored QR data, the two inputs, the
      position, and the device id it obtained. */
  function SubmitDecision(qr: Option<QrData>, name: Text, index: Text, position: Option<Position>, id: Text)
    : (step: SubmitStep)
    ensures step == SubmitError <==> qr.None? || position.None?
    ensures step == FieldsMissing <==> qr.Some? && position.Some? && (Trim(name) == [] || Trim(index) == [])
    ensures step.Send? ==>
              && step.req.studentName == Str(Trim(name)) && Trim(name) != []
              && step.req.indexNumber == Str(Trim(index)) && Trim(index) != []
              && step.req.deviceId == Str(id)
              && step.req.className == Param(qr.value.className)
              && step.req.date == Param(qr.value.date)
              && step.req.endTime == Param(qr.value.end)
  {
    if qr.None? || position.None? then SubmitError
    else if Trim(name) == [] || Trim(index) == [] then FieldsMissing
    else Send(MarkRequestOf(qr.value, name, index, position.value, id))
  }

  /** A request the portal sends carries a non-empty, trimmed name and index number and a
      non-empty device id, so none of them is falsy on the server. */
  lemma SentFieldsTruthy(qr: Option<QrData>, name: Text, index: Text, position: Option<Position>, id: Text)
    requires id != []
    requires SubmitDecision(qr, name, index, position, id).Send?
    ensures var req := SubmitDecision(qr, name, index, position, id).req;
            && Truthy(req.studentName) && Truthy(req.indexNumber) && Truthy(req.deviceId)
            && IsTrimmed(req.studentName.text) && IsTrimmed(req.indexNumber.text)
  {
  }

  /** Two submits whose QR data share a key (all three parameters present, no '|' in class
      or date) look up the same sessions on the server: the portal's local list and the server's lookup agree
      on what "the same session" means. */
  lemma SameKeySameTarget(q1: QrData, q2: QrData, r1: AttendanceRoutes.MarkRequest,
                          r2: AttendanceRoutes.MarkRequest, s: AttendanceModel.Session)
    requires Pipe !in StringOf(Param(q1.className)) && Pipe !in StringOf(Param(q1.date))
    requires Pipe !in StringOf(Param(q2.className)) && Pipe !in StringOf(Param(q2.date))
    requires SessionKey(q1) == SessionKey(q2)
    requires r1.className == Param(q1.className) && r1.date == Param(q1.date) && r1.endTime == Param(q1.end)
    requires r2.className == Param(q2.className) && r2.date == Param(q2.date) && r2.endTime == Param(q2.end)
    requires q1.className.Some? && q1.date.Some? && q1.end.Some?
    requires q2.className.Some? && q2.date.Some? && q2.end.Some?
    ensures AttendanceRoutes.IsTarget(s, r1) <==> AttendanceRoutes.IsTarget(s, r2)
  {
    SessionKeyInjective(q1, q2);
  }

  /** The proviso that the parameters are present matters: an absent date reads "null" in
      the key, like a date that is the text "null", but the server looks the absent one
      up as `null`, which matches no session. */
  lemma AbsentDateKey(q: QrData)
    requires q.date.None?
    ensures SessionKey(q) == SessionKey(q.(date := Some(NullText)))
    ensures q.(date := Some(NullText)).date != q.date
  {
  }

  // ===========================================================================
  // The page

  /** The browser-side state of the portal: `localStorage` (`usedAttendances`, parsed,
      and `deviceId`), the QR data stored on the form, whether the form is shown, and
      whether its submit button is disabled. */
  class Portal {
    var used: seq<Text>
    var deviceId: Option<Text>
    var qrData: Option<QrData>
    var formShown: bool
    var submitDisabled: bool

    constructor (used: seq<Text>, deviceId: Option<Text>)
      ensures this.used == used && this.deviceId == deviceId
      ensures qrData.None? && !formShown && !submitDisabled
    {
      this.used := used;
      this.deviceId := deviceId;
      qrData := None;
      formShown := false;
      submitDisabled := false;
    }

    /** Shows the form for `q`; the submit button is disabled exactly when this device
        has already attended the session. */
    method ShowForm(q: QrData)
      modifies this`qrData, this`formShown, this`submitDisabled
      ensures qrData == Some(q) && formShown
      ensures submitDisabled <==> SessionKey(q) in used
    {
      qrData := Some(q);
      formShown := true;
      var sessionKey := SessionKey(q);
      if sessionKey in used {
        submitDisabled := true;
      } else {
        submitDisabled := false;
      }
    }

    /** The `load` handler: the link's parameters load the form only when all five are
        non-empty; otherwise nothing changes. */
    method Load(q: QrData)
      modifies this`qrData, this`formShown, this`submitDisabled
      ensures AutoLoads(q) ==> qrData == Some(q) && formShown && (submitDisabled <==> SessionKey(q) in used)
      ensures !AutoLoads(q) ==> qrData == old(qrData) && formShown == old(formShown)
                                && submitDisabled == old(submitDisabled)
    {
      if AutoLoads(q) {
        ShowForm(q);
      }
    }

    /** A decoded QR code: `None` when its text is not a URL ("Invalid QR code data.");
        otherwise the form loads as soon as `class` is non-empty. */
    method Scanned(q: Option<QrData>)
      modifies this`qrData, this`formShown, this`submitDisabled
      ensures q.Some? && ScanLoads(q.value) ==>
                qrData == q && formShown && (submitDisabled <==> SessionKey(q.value) in used)
      ensures !(q.Some? && ScanLoads(q.value)) ==>
                qrData == old(qrData) && formShown == old(formShown) && submitDisabled == old(submitDisabled)
    {
      if q.Some? && ScanLoads(q.value) {
        ShowForm(q.value);
      }
    }

    /** `getDeviceId()`: a missing or empty stored id is replaced by `generated`, which is
        stored; the id in storage is the one returned. */
    method GetDeviceId(generated: Text) returns (id: Text)
      requires generated != []
      modifies this`deviceId
      ensures id == DeviceIdOf(old(deviceId), generated)
      ensures deviceId == Some(id)
    {
      if !HasDeviceId(deviceId) {
        deviceId := Some(generated);
      }
      id := deviceId.value;
    }

    /** The submit handler up to the request: the stored QR data is read, the position
        obtained, the device id fetched (and stored) before the name and index number
        are checked. */
    method Submit(name: Text, index: Text, position: Option<Position>, generated: Text)
      returns (step: SubmitStep)
      requires generated != []
      modifies this`deviceId
      ensures qrData.None? || position.None? ==> step == SubmitError && deviceId == old(deviceId)
      ensures qrData.Some? && position.Some? ==>
                && deviceId == Some(DeviceIdOf(old(deviceId), generated))
                && step == SubmitDecision(qrData, name, index, position, DeviceIdOf(old(deviceId), generated))
    {
      if qrData.None? || position.None? {
        return SubmitError;
      }
      var id := GetDeviceId(generated);
      step := SubmitDecision(qrData, name, index, position, id);
    }

    /** The server's answer to a sent request: on success the session key is recorded
        and the submit button disabled, and the form is hidden; otherwise only the
        status message changes. */
    method Answered(ok: bool)
      requires qrData.Some?
      modifies this`used, this`formShown, this`submitDisabled
      ensures ok ==> used == Recorded(old(used), SessionKey(qrData.value)) && submitDisabled && !formShown
      ensures !ok ==> used == old(used) && submitDisabled == old(submitDisabled) && formShown == old(formShown)
    {
      if ok {
        var sessionKey := SessionKey(qrData.value);
        if sessionKey !in used {
          used := used + [sessionKey];
        }
        submitDisabled := true;
        formShown := false;
      }
    }
  }

  /** After a successful check-in, loading the same session again on this device keeps
      the submit button disabled. */
  lemma NoSecondSubmit(used: seq<Text>, q: QrData, q': QrData)
    requires SessionKey(q') == SessionKey(q)
    ensures SessionKey(q') in Recorded(used, SessionKey(q))
  {
  }
}
