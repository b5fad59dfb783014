/** The meeting record: an identity assigned by the store, a half-open
    interval [begin, end) and an optional notification instant. */
module MeetingModel {

  datatype Option<T> = None | Some(value: T)

  /** Timestamps are whole seconds on a single clock. */
  type Time = int

  datatype Meeting = Meeting(id: int, begin: Time, end: Time, note: Option<Time>)

  /** The default of the integer id column: a meeting carrying it has not been stored yet. */
  const Unpersisted := 0

  predicate Persisted(m: Meeting) {
    m.id != Unpersisted
  }

  /** The three-argument constructor: keeps begin, end and note as given and
      leaves the id at its default, so the meeting is not yet persisted. */
  function Create(begin: Time, end: Time, note: Option<Time>): (m: Meeting)
    ensures !Persisted(m)
    ensures m.begin == begin && m.end == end && m.note == note
  {
    Meeting(Unpersisted, begin, end, note)
  }

  /** The four-argument constructor: the three-argument one followed by setting the id. */
  function CreateWithId(id: int, begin: Time, end: Time, note: Option<Time>): (m: Meeting)
    ensures m == Create(begin, end, note).(id := id)
    ensures Persisted(m) <==> id != Unpersisted
  {
    Meeting(id, begin, end, note)
  }
}
