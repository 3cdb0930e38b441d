/** The minute-by-minute sweep that completes sessions whose end has passed
    (`server/server.js`). The clock is a parameter: `now` is the text of
    `new Date().toISOString()`, e.g. "2025-03-04T10:30:07.123Z". */
module ExpirySweep {
  import opened Bytes
  import opened AttendanceModel
  import SessionStore

  const LetterT: byte := 0x54      // 'T'
  const LetterZ: byte := 0x5A      // 'Z'
  const Dot: byte := 0x2E          // '.'

  /** `date + "T" + endTime + ":00Z"`: the instant a session ends, as an ISO text in UTC.
      The sweep's query and the dashboard's countdown both build it. */
  function EndText(date: Text, endTime: Text): (k: Text)
    ensures |k| == |date| + |endTime| + 5
    ensures StartsWith(k, date) && k[|date|] == LetterT
  {
    date + [LetterT] + endTime + [Colon, Zero, Zero, LetterZ]
  }

  /** The text the query builds from a document. */
  function EndKey(s: Session): Text {
    EndText(s.date, s.endTime)
  }

  /** The query's filter: the session is `Active` and its end key sorts before `now`
      (MongoDB compares the two strings byte by byte). */
  predicate Due(s: Session, now: Text) {
    s.status == Active && LexLess(EndKey(s), now)
  }

  /** What the loop does to one found document. */
  function Expire(s: Session): Session {
    s.(status := Completed)
  }

  /** The collection after one sweep at `now`: exactly the due sessions become
      `Completed`, and nothing else changes. */
  function Swept(ss: seq<Session>, now: Text): (r: seq<Session>)
    ensures |r| == |ss|
    ensures forall j | 0 <= j < |ss| ::
              && r[j] == ss[j].(status := r[j].status)
              && (r[j].status == Completed <==> ss[j].status == Completed || Due(ss[j], now))
              && (!Due(ss[j], now) ==> r[j] == ss[j])
  {
    seq(|ss|, j requires 0 <= j < |ss| => if Due(ss[j], now) then Expire(ss[j]) else ss[j])
  }

  /** The positions, from `from` on, of the documents the query returns, in natural order. */
  function DueIndices(ss: seq<Session>, now: Text, from: nat): (r: seq<nat>)
    requires from <= |ss|
    ensures forall k | 0 <= k < |r| :: from <= r[k] < |ss| && Due(ss[r[k]], now)
    ensures forall j | from <= j < |ss| && Due(ss[j], now) :: j in r
    ensures forall k, l | 0 <= k < l < |r| :: r[k] < r[l]
    decreases |ss| - from
  {
    if from == |ss| then []
    else
      var rest := DueIndices(ss, now, from + 1);
      if Due(ss[from], now) then [from] + rest else rest
  }

  /** One run of the scheduled job: find the due documents, then set each one's status
      to `Completed` and save it. */
  method Sweep(store: SessionStore.Store, now: Text)
    requires store.Valid()
    modifies store
    ensures store.Valid() && store.nextId == old(store.nextId)
    ensures store.sessions == Swept(old(store.sessions), now)
  {
    var expired := DueIndices(store.sessions, now, 0);
    ghost var before := store.sessions;
    var k := 0;
    while k < |expired|
      invariant 0 <= k <= |expired|
      invariant store.Valid() && store.nextId == old(store.nextId)
      invariant |store.sessions| == |before|
      invariant forall j | 0 <= j < |before| ::
                  store.sessions[j] == if j in expired[..k] then Expire(before[j]) else before[j]
    {
      var i := expired[k];
      var session := store.sessions[i];
      session := session.(status := Completed);
      store.Save(i, session);
      k := k + 1;
    }
    assert expired[..k] == expired;
  }

  /** Sweeping twice at the same moment is sweeping once. */
  lemma SweepIdempotent(ss: seq<Session>, now: Text)
    ensures Swept(Swept(ss, now), now) == Swept(ss, now)
  {
    var once := Swept(ss, now);
    forall j | 0 <= j < |once| ensures !Due(once[j], now) {
      if Due(ss[j], now) {
        assert once[j].status == Completed;
      } else {
        assert once[j] == ss[j];
      }
    }
  }

  /** The sweep touches only `Active` sessions and never the check-in list. */
  lemma SweepKeepsOthers(ss: seq<Session>, now: Text)
    ensures forall j | 0 <= j < |ss| ::
              && Swept(ss, now)[j].students == ss[j].students
              && (ss[j].status != Active ==> Swept(ss, now)[j] == ss[j])
  {
  }

  /** Within the end minute itself the session is not due: the ISO clock text carries
      milliseconds, so at "HH:MM:00.xxx" the key's 'Z' still sorts after the clock's '.'. */
  lemma NotDueAtEndMinute(s: Session, millis: Text)
    ensures !Due(s, s.date + [LetterT] + s.endTime + [Colon, Zero, Zero, Dot] + millis)
  {
    var p := s.date + [LetterT] + s.endTime + [Colon, Zero, Zero];
    LexLessAtFirstDifference(p, LetterZ, [], Dot, millis);
    assert EndKey(s) == p + [LetterZ] + [];
    assert s.date + [LetterT] + s.endTime + [Colon, Zero, Zero, Dot] + millis == p + [Dot] + millis;
  }

  /** From second one of the end minute on, an `Active` session is due: at seconds
      "01" to "09" the clock's second seconds digit exceeds the key's '0', and at
      seconds "10" to "59" its first one does. */
  lemma DueFromSecondOne(s: Session, d1: byte, d2: byte, rest: Text)
    requires s.status == Active
    requires (d1 == Zero && 0x31 <= d2 <= 0x39) || (0x31 <= d1 <= 0x35 && IsDigit(d2))
    ensures Due(s, s.date + [LetterT] + s.endTime + [Colon, d1, d2] + rest)
  {
    var p := s.date + [LetterT] + s.endTime + [Colon];
    var now := s.date + [LetterT] + s.endTime + [Colon, d1, d2] + rest;
    if d1 == Zero {
      LexLessAtFirstDifference(p + [Zero], Zero, [LetterZ], d2, rest);
      assert EndKey(s) == p + [Zero] + [Zero] + [LetterZ];
      assert now == p + [Zero] + [d2] + rest;
    } else {
      LexLessAtFirstDifference(p, Zero, [Zero, LetterZ], d1, [d2] + rest);
      assert EndKey(s) == p + [Zero] + [Zero, LetterZ];
      assert now == p + [d1] + ([d2] + rest);
    }
  }
}
