/** The schedule engine: checks a candidate meeting against the stored ones
    and only then changes the store. The clock reading is the parameter `now`. */
module ScheduleEngine {
  import opened MeetingModel
  import opened MeetingStore
  import opened MeetingNotifier

  /** The failures an operation reports instead of changing the store. */
  datatype Error =
    | ValidationFailed  // the candidate or the new notification time is rejected
    | AlreadyNotified   // the meeting already has a notification time
    | NotFound          // no meeting with the id to remove
    | NullReference     // notification added to an id with no meeting

  datatype Outcome = Success | Failure(error: Error)

  /** The conflict test, as written: the candidate's begin lies in
      [m.begin, m.end) or its end lies in (m.begin, m.end]. A candidate that
      strictly encloses m is not caught. Every meeting it flags for a
      candidate of positive length overlaps the candidate. */
  predicate Intersects(c: Meeting, m: Meeting): (r: bool)
    ensures r && c.begin < c.end ==> Overlap(c, m)
  {
    (m.begin <= c.begin < m.end) || (m.begin < c.end <= m.end)
  }

  /** Overlap of the half-open intervals [begin, end). */
  predicate Overlap(a: Meeting, b: Meeting) {
    a.begin < b.end && b.begin < a.end
  }

  /** A meeting of positive length whose notification, if any, comes strictly before it begins. */
  predicate WellFormed(m: Meeting) {
    m.begin < m.end && (m.note.None? || m.note.value < m.begin)
  }

  predicate AllWellFormed(s: seq<Meeting>) {
    forall m :: m in s ==> WellFormed(m)
  }

  /** What validation accepts: no conflict with any meeting of the set, a
      begin not before `now`, and a well-formed meeting. The only stored
      meetings an accepted candidate may overlap are those it strictly
      encloses. */
  predicate Admissible(c: Meeting, others: seq<Meeting>, now: Time): (r: bool)
    ensures r ==> now <= c.begin < c.end
    ensures r ==> forall m :: m in others && Overlap(c, m) ==> c.begin < m.begin && m.end < c.end
  {
    (forall m :: m in others ==> !Intersects(c, m)) && now <= c.begin && WellFormed(c)
  }

  /** For a candidate of positive length, the test flags exactly the
      overlapping meetings that the candidate does not strictly enclose. */
  lemma IntersectsCharacterised(c: Meeting, m: Meeting)
    requires c.begin < c.end
    ensures Intersects(c, m) <==> Overlap(c, m) && !(c.begin < m.begin && m.end < c.end)
  {
  }

  /** Back-to-back meetings do not conflict, whichever of the two comes first. */
  lemma AdjacentNeverIntersects(c: Meeting, m: Meeting)
    requires c.begin < c.end
    requires c.begin == m.end || c.end == m.begin
    ensures !Intersects(c, m)
  {
  }

  /** A candidate that strictly encloses a meeting overlaps it but is not flagged. */
  lemma EnclosingNotFlagged(c: Meeting, m: Meeting)
    requires c.begin < m.begin && m.begin < m.end && m.end < c.end
    ensures Overlap(c, m) && !Intersects(c, m)
  {
  }

  /** A meeting with the same interval as a stored one always conflicts with
      it, so an edit must leave the edited meeting out of the comparison set. */
  lemma SameIntervalIntersects(c: Meeting, m: Meeting)
    requires m.begin < m.end
    requires c.begin == m.begin && c.end == m.end
    ensures Intersects(c, m)
  {
  }

  /** The set an edit validates against: with unique ids, exactly the stored
      meetings whose id differs from the edited one. The edited meeting
      itself is never part of it. */
  lemma EditComparisonSet(s: seq<Meeting>, id: int)
    requires UniqueIds(s)
    ensures forall m :: m in RemoveFirst(s, id) <==> m in s && m.id != id
  {
    RemoveFirstIsRemoveAll(s, id);
  }

  /** Editing a meeting to its own interval is judged only against the
      other meetings; the meeting itself never blocks it. */
  lemma {:induction false} SelfEditIgnoresItself(s: seq<Meeting>, m: Meeting, c: Meeting, now: Time)
    requires UniqueIds(s) && m in s
    requires c.begin == m.begin && c.end == m.end
    ensures Admissible(c, RemoveFirst(s, m.id), now) <==>
      (forall n :: n in s && n.id != m.id ==> !Intersects(c, n)) && now <= c.begin && WellFormed(c)
  {
    EditComparisonSet(s, m.id);
  }

  /** An edit with a well-formed item keeps every row well-formed. */
  lemma EditAllWellFormed(s: seq<Meeting>, id: int, item: Meeting)
    requires AllWellFormed(s) && WellFormed(item)
    ensures AllWellFormed(EditAll(s, id, item))
  {
    var r := EditAll(s, id, item);
    forall m | m in r ensures WellFormed(m) {
      var i :| 0 <= i < |r| && r[i] == m;
      assert s[i] in s;
    }
  }

  /** Adding a note before the begin to the one row with the id keeps every row well-formed. */
  lemma NotificationKeepsWellFormed(s: seq<Meeting>, m: Meeting, t: Time)
    requires AllWellFormed(s) && m in s && t < m.begin
    ensures AllWellFormed(EditAll(s, m.id, Create(m.begin, m.end, Some(t))))
  {
    var r := EditAll(s, m.id, Create(m.begin, m.end, Some(t)));
    forall n | n in r ensures WellFormed(n) {
      var i :| 0 <= i < |r| && r[i] == n;
      assert s[i] in s;
    }
  }

  /** After the notification edit, the meeting with the id is the old one
      with the new note and the same begin and end. */
  lemma NotificationFinds(s: seq<Meeting>, m: Meeting, t: Time)
    requires UniqueIds(s) && m in s
    ensures FindFirst(EditAll(s, m.id, Create(m.begin, m.end, Some(t))), m.id) == Some(m.(note := Some(t)))
  {
    var r := EditAll(s, m.id, Create(m.begin, m.end, Some(t)));
    var k :| 0 <= k < |s| && s[k] == m;
    assert r[k] == m.(note := Some(t));
    assert r[k] in r;
    var f := FindFirst(r, m.id).value;
    var j :| 0 <= j < |r| && r[j] == f;
    assert r[j].id == s[j].id;
    assert j == k;
  }

  /** The schedule: an engine over an injected meeting store. */
  class Schedule {
    const store: Repository

    ghost predicate Valid()
      reads this, store
    {
      store.Valid()
    }

    constructor (store: Repository)
      requires store.Valid()
      ensures this.store == store && Valid()
    {
      this.store := store;
    }

    /** The full list of stored meetings, in the order the store returns them. */
    function FindAll(): (r: seq<Meeting>)
      reads this, store
      ensures Valid() ==> UniqueIds(r) && forall m :: m in r ==> Persisted(m)
    {
      store.FindAll()
    }

    /** The meeting with the id, if any. */
    function Find(id: int): (r: Option<Meeting>)
      reads this, store
      ensures r.Some? ==> r.value in FindAll() && r.value.id == id
      ensures r.None? <==> forall m :: m in FindAll() ==> m.id != id
    {
      store.Find(id)
    }

    /** The number of meetings: the length of the full list. */
    function Count(): (n: nat)
      reads this, store
      ensures n == |FindAll()|
    {
      store.Count()
    }

    /** The validation pass: one loop raising the conflict flag, then the
        checks on the candidate alone. */
    method Validate(candidate: Meeting, meetings: seq<Meeting>, now: Time) returns (ok: bool)
      ensures ok <==> Admissible(candidate, meetings, now)
    {
      var isIntersect := false;
      for i := 0 to |meetings|
        invariant isIntersect <==> exists j :: 0 <= j < i && Intersects(candidate, meetings[j])
      {
        var m := meetings[i];
        if (candidate.begin >= m.begin && candidate.begin < m.end) || (candidate.end > m.begin && candidate.end <= m.end) {
          isIntersect := true;
        }
      }
      ok := !(isIntersect || candidate.begin < now || candidate.begin >= candidate.end
              || (candidate.note.Some? && candidate.note.value >= candidate.begin));
    }

    /** Creates a meeting when it passes validation against all stored
        meetings; it is stored under the next id. Otherwise nothing changes. */
    method Add(begin: Time, end: Time, note: Option<Time>, now: Time) returns (outcome: Outcome)
      requires Valid()
      modifies store
      ensures Valid()
      ensures outcome.Success? <==> Admissible(Create(begin, end, note), old(store.records), now)
      ensures outcome.Failure? ==>
        outcome.error == ValidationFailed && store.records == old(store.records) && store.identity == old(store.identity)
      ensures outcome.Success? ==>
        store.records == old(store.records) + [CreateWithId(old(store.identity), begin, end, note)] &&
        store.identity == old(store.identity) + 1 &&
        Count() == old(Count()) + 1 &&
        Find(old(store.identity)) == Some(CreateWithId(old(store.identity), begin, end, note))
      ensures AllWellFormed(old(store.records)) ==> AllWellFormed(store.records)
    {
      var meeting := Create(begin, end, note);
      var ok := Validate(meeting, FindAll(), now);
      if ok {
        store.Add(meeting);
        outcome := Success;
        var row := CreateWithId(old(store.identity), begin, end, note);
        assert store.records == old(store.records) + [row];
        assert FindLast(store.records, row.id) == Some(row);
        FindFirstIsFindLast(store.records, row.id);
      } else {
        outcome := Failure(ValidationFailed);
      }
    }

    /** Edits the meeting with the id when the new begin, end and note pass
        validation against the stored meetings without the first one that
        has the id. An id with no meeting is validated against all of them
        and the store then has no row to change. */
    method Edit(id: int, begin: Time, end: Time, note: Option<Time>, now: Time) returns (outcome: Outcome)
      requires Valid()
      modifies store
      ensures Valid() && store.identity == old(store.identity)
      ensures outcome.Success? <==> Admissible(Create(begin, end, note), RemoveFirst(old(store.records), id), now)
      ensures outcome.Failure? ==> outcome.error == ValidationFailed && store.records == old(store.records)
      ensures outcome.Success? ==> store.records == EditAll(old(store.records), id, Create(begin, end, note))
      ensures FindFirst(old(store.records), id).None? ==> store.records == old(store.records)
      ensures AllWellFormed(old(store.records)) ==> AllWellFormed(store.records)
    {
      var meetings := FindAll();
      meetings := RemoveFirst(meetings, id);
      var meeting := Create(begin, end, note);
      var ok := Validate(meeting, meetings, now);
      if ok {
        ghost var before := store.records;
        store.Edit(id, meeting);
        outcome := Success;
        if AllWellFormed(before) {
          EditAllWellFormed(before, id, meeting);
        }
        if FindFirst(before, id).None? {
          assert forall i :: 0 <= i < |before| ==> before[i].id != id by {
            forall i | 0 <= i < |before| ensures before[i].id != id {
              assert before[i] in before;
            }
          }
          assert store.records == before;
        }
      } else {
        outcome := Failure(ValidationFailed);
      }
    }

    /** Adds a notification time to the meeting with the id. It fails on an
        unknown id and on a meeting that already has one; otherwise it
        succeeds exactly when the time precedes the begin and the meeting has
        not begun. No conflict check is made. */
    method AddNotification(id: int, t: Time, now: Time) returns (outcome: Outcome)
      requires Valid()
      modifies store
      ensures Valid() && store.identity == old(store.identity)
      ensures outcome.Failure? ==> store.records == old(store.records)
      ensures old(Find(id)).None? ==> outcome == Failure(NullReference)
      ensures old(Find(id)).Some? && old(Find(id)).value.note.Some? ==> outcome == Failure(AlreadyNotified)
      ensures old(Find(id)).Some? && old(Find(id)).value.note.None? ==>
        var m := old(Find(id)).value;
        (outcome.Success? <==> t < m.begin && now < m.begin) &&
        (outcome.Failure? ==> outcome.error == ValidationFailed) &&
        (outcome.Success? ==>
          store.records == EditAll(old(store.records), id, Create(m.begin, m.end, Some(t))) &&
          Find(id) == Some(m.(note := Some(t))))
      ensures AllWellFormed(old(store.records)) ==> AllWellFormed(store.records)
    {
      var found := Find(id);
      if found.None? {
        outcome := Failure(NullReference);
        return;
      }
      var meeting := found.value;
      if meeting.note.Some? {
        outcome := Failure(AlreadyNotified);
        return;
      }
      if t < meeting.begin && meeting.begin > now {
        ghost var before := store.records;
        NotificationFinds(before, meeting, t);
        if AllWellFormed(before) {
          NotificationKeepsWellFormed(before, meeting, t);
        }
        store.Edit(id, Create(meeting.begin, meeting.end, Some(t)));
        outcome := Success;
      } else {
        outcome := Failure(ValidationFailed);
      }
    }

    /** Removes the meetings with the id; an id with no meeting is reported and nothing changes. */
    method Remove(id: int) returns (outcome: Outcome)
      requires Valid()
      modifies store
      ensures Valid() && store.identity == old(store.identity)
      ensures outcome == Failure(NotFound) <==> old(Find(id)).None?
      ensures outcome.Failure? ==> outcome == Failure(NotFound) && store.records == old(store.records)
      ensures outcome.Success? ==>
        store.records == RemoveAll(old(store.records), id) &&
        Find(id).None? && Count() == old(Count()) - 1
      ensures AllWellFormed(old(store.records)) ==> AllWellFormed(store.records)
    {
      if Find(id).None? {
        outcome := Failure(NotFound);
        return;
      }
      RemoveAllCount(store.records, id);
      store.Remove(id);
      outcome := Success;
    }

    /** One notifier pass over the full meeting list. */
    method Update<H>(updater: MeetingUpdater<H>, now: Time) returns (events: seq<Event>)
      ensures events == ScanEvents(FindAll(), now)
    {
      events := updater.Update(FindAll(), now);
    }
  }

  /** Against a single stored meeting, admission is the conflict test on
      that one meeting plus the checks on the candidate alone. */
  lemma AdmissibleBesideOne(c: Meeting, a: Meeting, now: Time)
    ensures Admissible(c, [a], now) <==> !Intersects(c, a) && now <= c.begin && WellFormed(c)
  {
    assert forall m :: m in [a] <==> m == a;
  }

  /** A client run on a fresh store (times in seconds from midnight, the
      clock at midnight): a meeting nested in a stored one is refused and a
      back-to-back one is accepted. */
  method PlacementScenario() {
    var repository := new Repository();
    var schedule := new Schedule(repository);
    var a := Meeting(1, 36000, 39600, None);
    var first := schedule.Add(36000, 39600, None, 0);       // 10:00-11:00
    assert first == Success && repository.records == [a];
    var nested := schedule.Add(37800, 38700, None, 0);      // 10:30-10:45, inside the first
    assert Intersects(Create(37800, 38700, None), a);
    assert nested == Failure(ValidationFailed);
    AdmissibleBesideOne(Create(39600, 43200, None), a, 0);
    var adjacent := schedule.Add(39600, 43200, None, 0);    // 11:00-12:00, right after the first
    assert adjacent == Success && schedule.Count() == 2;
  }

  /** A client run: a meeting enclosing a stored one is accepted, one that
      began in the past is refused. */
  method EnclosureScenario() {
    var repository := new Repository();
    var schedule := new Schedule(repository);
    var a := Meeting(1, 37800, 38700, None);
    var inner := schedule.Add(37800, 38700, None, 0);       // 10:30-10:45
    assert inner == Success && repository.records == [a];
    AdmissibleBesideOne(Create(36000, 39600, None), a, 0);
    var enclosing := schedule.Add(36000, 39600, None, 0);   // 10:00-11:00, around it
    assert enclosing == Success && schedule.Count() == 2;
    var past := schedule.Add(-3600, 3600, None, 0);         // began an hour ago
    assert past == Failure(ValidationFailed);
  }

  /** A client run: notification, self-edit and removal on one stored meeting. */
  method LifecycleScenario() {
    var repository := new Repository();
    var schedule := new Schedule(repository);
    var first := schedule.Add(36000, 39600, None, 0);       // 10:00-11:00, stored as id 1
    assert first == Success && schedule.Find(1) == Some(Meeting(1, 36000, 39600, None));
    var noted := schedule.AddNotification(1, 35100, 0);     // 09:45
    assert noted == Success;
    var again := schedule.AddNotification(1, 35400, 0);
    assert again == Failure(AlreadyNotified);
    var unknown := schedule.AddNotification(7, 35400, 0);
    assert unknown == Failure(NullReference);
    var same := schedule.Edit(1, 36000, 39600, None, 0);    // to its own interval
    assert same == Success;
    var removed := schedule.Remove(1);
    assert removed == Success && schedule.Count() == 0;
    var missing := schedule.Remove(1);
    assert missing == Failure(NotFound);
  }
}
