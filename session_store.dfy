/** The attendance collection: the one shared, durable state of the engine. */
module SessionStore {
  import opened AttendanceModel

  class Store {
    /** The documents in natural (insertion) order, which is the order `find` and
        `findOne` return them in. */
    var sessions: seq<Session>
    /** The next fresh `_id`. */
    var nextId: nat

    ghost predicate Valid()
      reads this
    {
      && IdsUnique(sessions)
      && forall i | 0 <= i < |sessions| :: sessions[i].id < nextId && AttendanceModel.Valid(sessions[i])
    }

    constructor ()
      ensures Valid() && sessions == [] && nextId == 0
    {
      sessions := [];
      nextId := 0;
    }

    /** The `_id` a new document receives when it is constructed. */
    method NewId() returns (id: SessionId)
      requires Valid()
      modifies this`nextId
      ensures Valid()
      ensures id == old(nextId) && nextId == id + 1
    {
      id := nextId;
      nextId := nextId + 1;
    }

    /** `save()` of a new document. */
    method Insert(s: Session)
      requires Valid() && AttendanceModel.Valid(s) && s.id < nextId
      requires forall i | 0 <= i < |sessions| :: sessions[i].id != s.id
      modifies this`sessions
      ensures Valid()
      ensures sessions == old(sessions) + [s]
    {
      sessions := sessions + [s];
    }

    /** `save()` of a document that was loaded and changed in memory. */
    method Save(i: nat, s: Session)
      requires Valid() && i < |sessions|
      requires s.id == sessions[i].id && AttendanceModel.Valid(s)
      modifies this`sessions
      ensures Valid()
      ensures sessions == old(sessions)[i := s]
    {
      sessions := sessions[i := s];
    }
  }
}
