/** The lifecycle notifier: one pass over the meetings at the instant `now`,
    raising an event for every notification, start or end time that equals
    `now`. The comparison is plain equality of whole-second timestamps, as
    the original compares the seconds-precision text forms of the instants. */
module MeetingNotifier {
  import opened MeetingModel
  import opened MeetingStore

  datatype Kind = Notified | Started | Finished

  /** What a handler receives: the kind, the meeting's id and the time the message reports. */
  datatype Event = Event(kind: Kind, id: int, at: Time)

  /** The instant at which a meeting raises an event of the kind, if any. */
  function Trigger(m: Meeting, k: Kind): Option<Time> {
    match k
    case Notified => m.note
    case Started => Some(m.begin)
    case Finished => Some(m.end)
  }

  /** The time the event's message reports: the begin for Notified and
      Started, the end for Finished. */
  function Reported(m: Meeting, k: Kind): Time {
    if k == Finished then m.end else m.begin
  }

  /** The position of the kind in the fixed order of one meeting's events. */
  function Rank(k: Kind): nat {
    match k
    case Notified => 0
    case Started => 1
    case Finished => 2
  }

  /** The events one meeting raises at `now`: at most one per kind. */
  function TickEvents(m: Meeting, now: Time): (r: seq<Event>)
    ensures |r| <= 3
  {
    (if m.note.Some? && m.note.value == now then [Event(Notified, m.id, m.begin)] else [])
    + (if m.begin == now then [Event(Started, m.id, m.begin)] else [])
    + (if m.end == now then [Event(Finished, m.id, m.end)] else [])
  }

  /** A meeting raises the event of a kind exactly when that kind's trigger
      equals `now`; a meeting without a note never raises Notified. */
  lemma TickEventsExact(m: Meeting, now: Time, k: Kind)
    ensures Event(k, m.id, Reported(m, k)) in TickEvents(m, now) <==> Trigger(m, k) == Some(now)
  {
  }

  /** Each event carries the meeting's id and the time its kind reports, and
      its trigger equals `now`. */
  lemma TickEventsSound(m: Meeting, now: Time, e: Event)
    requires e in TickEvents(m, now)
    ensures e.id == m.id && e.at == Reported(m, e.kind) && Trigger(m, e.kind) == Some(now)
  {
  }

  /** One meeting's events come in the fixed order Notified, Started, Finished. */
  lemma TickEventsOrdered(m: Meeting, now: Time)
    ensures forall i, j :: 0 <= i < j < |TickEvents(m, now)| ==>
      Rank(TickEvents(m, now)[i].kind) < Rank(TickEvents(m, now)[j].kind)
  {
  }

  /** The events of one pass: each meeting's events, meetings in input order. */
  function ScanEvents(ms: seq<Meeting>, now: Time): (r: seq<Event>)
    ensures |r| <= 3 * |ms|
  {
    if ms == [] then []
    else ScanEvents(ms[..|ms| - 1], now) + TickEvents(ms[|ms| - 1], now)
  }

  /** The pass visits the meetings in order: scanning a + b is scanning a, then b. */
  lemma {:induction false} ScanEventsAppend(a: seq<Meeting>, b: seq<Meeting>, now: Time)
    ensures ScanEvents(a + b, now) == ScanEvents(a, now) + ScanEvents(b, now)
  {
    if b == [] {
      assert a + b == a;
    } else {
      var c, front := a + b, b[..|b| - 1];
      assert c[..|c| - 1] == a + front && c[|c| - 1] == b[|b| - 1];
      assert ScanEvents(c, now) == ScanEvents(a + front, now) + TickEvents(b[|b| - 1], now);
      assert ScanEvents(b, now) == ScanEvents(front, now) + TickEvents(b[|b| - 1], now);
      ScanEventsAppend(a, front, now);
    }
  }

  /** An event is in the pass exactly when some meeting of the list raises it. */
  lemma {:induction false} ScanEventsMembers(ms: seq<Meeting>, now: Time, e: Event)
    ensures e in ScanEvents(ms, now) <==> exists m :: m in ms && e in TickEvents(m, now)
  {
    if ms != [] {
      var front, last := ms[..|ms| - 1], ms[|ms| - 1];
      assert ms == front + [last];
      ScanEventsMembers(front, now, e);
      assert forall m :: m in ms <==> m in front || m == last;
    }
  }

  /** Every event of a pass names a meeting of the list whose trigger equals
      `now`, with that meeting's id and reported time. */
  lemma ScanEventsSound(ms: seq<Meeting>, now: Time, e: Event)
    requires e in ScanEvents(ms, now)
    ensures exists m :: m in ms && e.id == m.id && e.at == Reported(m, e.kind) && Trigger(m, e.kind) == Some(now)
  {
    ScanEventsMembers(ms, now, e);
    var m :| m in ms && e in TickEvents(m, now);
    TickEventsSound(m, now, e);
  }

  /** Every trigger equal to `now` raises its event in the pass. */
  lemma ScanEventsComplete(ms: seq<Meeting>, now: Time, m: Meeting, k: Kind)
    requires m in ms
    requires Trigger(m, k) == Some(now)
    ensures Event(k, m.id, Reported(m, k)) in ScanEvents(ms, now)
  {
    ScanEventsMembers(ms, now, Event(k, m.id, Reported(m, k)));
    TickEventsExact(m, now, k);
  }

  /** With unique ids, a meeting's event is in the pass if and only if its trigger equals `now`. */
  lemma ScanEventsExact(ms: seq<Meeting>, now: Time, m: Meeting, k: Kind)
    requires UniqueIds(ms)
    requires m in ms
    ensures Event(k, m.id, Reported(m, k)) in ScanEvents(ms, now) <==> Trigger(m, k) == Some(now)
  {
    var e := Event(k, m.id, Reported(m, k));
    ScanEventsMembers(ms, now, e);
    TickEventsExact(m, now, k);
    if e in ScanEvents(ms, now) {
      var n :| n in ms && e in TickEvents(n, now);
      TickEventsSound(n, now, e);
      var i :| 0 <= i < |ms| && ms[i] == m;
      var j :| 0 <= j < |ms| && ms[j] == n;
      assert i == j;
    }
  }

  /** At most one event of a kind per meeting and pass. */
  lemma TickEventsOnce(m: Meeting, now: Time, e: Event)
    ensures multiset(TickEvents(m, now))[e] == if e in TickEvents(m, now) then 1 else 0
  {
    var r := TickEvents(m, now);
    TickEventsOrdered(m, now);
    if e in r {
      var i :| 0 <= i < |r| && r[i] == e;
      assert r == r[..i] + [r[i]] + r[i + 1..];
      assert e !in r[..i] && e !in r[i + 1..];
    }
  }

  /** The events one meeting raises over a run of passes at the given instants. */
  function PollRun(m: Meeting, polls: seq<Time>): seq<Event> {
    if polls == [] then []
    else PollRun(m, polls[..|polls| - 1]) + TickEvents(m, polls[|polls| - 1])
  }

  predicate StrictlyIncreasing(polls: seq<Time>) {
    forall i, j :: 0 <= i < j < |polls| ==> polls[i] < polls[j]
  }

  /** Equality triggering over any run of passes: each event of a meeting is
      raised once for every pass that falls on its trigger instant, so two
      passes within one second raise it twice, and a run that skips the
      instant never raises it. */
  lemma {:induction false} PollRunCount(m: Meeting, polls: seq<Time>, k: Kind)
    ensures multiset(PollRun(m, polls))[Event(k, m.id, Reported(m, k))] ==
      if Trigger(m, k).Some? then multiset(polls)[Trigger(m, k).value] else 0
  {
    var e := Event(k, m.id, Reported(m, k));
    if polls != [] {
      var front, last := polls[..|polls| - 1], polls[|polls| - 1];
      assert polls == front + [last];
      assert multiset(polls) == multiset(front) + multiset{last};
      PollRunCount(m, front, k);
      TickEventsOnce(m, last, e);
      TickEventsExact(m, last, k);
      assert PollRun(m, polls) == PollRun(m, front) + TickEvents(m, last);
      assert multiset(PollRun(m, polls))[e] == multiset(PollRun(m, front))[e] + multiset(TickEvents(m, last))[e];
    }
  }

  /** In a strictly increasing run no instant occurs twice. */
  lemma {:induction false} StrictlyIncreasingOnce(polls: seq<Time>, t: Time)
    requires StrictlyIncreasing(polls)
    ensures multiset(polls)[t] == if t in polls then 1 else 0
  {
    if polls != [] {
      var front, last := polls[..|polls| - 1], polls[|polls| - 1];
      assert polls == front + [last];
      assert multiset(polls) == multiset(front) + multiset{last};
      assert StrictlyIncreasing(front);
      StrictlyIncreasingOnce(front, t);
      assert last !in front by {
        forall i | 0 <= i < |front| ensures front[i] != last {
          assert polls[i] < polls[|polls| - 1];
        }
      }
    }
  }

  /** Over passes at strictly increasing instants, each event of a meeting
      is raised exactly once if some pass falls on its trigger instant, and
      never otherwise. */
  lemma PollRunOnce(m: Meeting, polls: seq<Time>, k: Kind)
    requires StrictlyIncreasing(polls)
    ensures multiset(PollRun(m, polls))[Event(k, m.id, Reported(m, k))] ==
      if Trigger(m, k).Some? && Trigger(m, k).value in polls then 1 else 0
  {
    PollRunCount(m, polls, k);
    if Trigger(m, k).Some? {
      StrictlyIncreasingOnce(polls, Trigger(m, k).value);
    }
  }

  /** Two passes within the same second raise a meeting's start twice. */
  lemma SameSecondTwice()
    ensures multiset(PollRun(Meeting(1, 10, 20, None), [10, 10]))[Event(Started, 1, 10)] == 2
  {
    PollRunCount(Meeting(1, 10, 20, None), [10, 10], Started);
    assert multiset([10, 10])[10] == 2;
  }

  /** The updater: three event fields, each set to a handler, and the pass
      that fires them. */
  class MeetingUpdater<H> {
    const notified: H
    const started: H
    const finished: H

    /** The handler that receives events of the kind. */
    function HandlerFor(k: Kind): H {
      match k
      case Notified => notified
      case Started => started
      case Finished => finished
    }

    /** All three kinds are routed to the one given handler. */
    constructor (handler: H)
      ensures forall k :: HandlerFor(k) == handler
    {
      notified, started, finished := handler, handler, handler;
    }

    /** One pass: the events raised, in the order they are fired. The list
        is only read. */
    method Update(meetings: seq<Meeting>, now: Time) returns (events: seq<Event>)
      ensures events == ScanEvents(meetings, now)
    {
      events := [];
      for i := 0 to |meetings|
        invariant events == ScanEvents(meetings[..i], now)
      {
        var m := meetings[i];
        ghost var before := events;
        if m.note.Some? && m.note.value == now {
          events := events + [Event(Notified, m.id, m.begin)];
        }
        if m.begin == now {
          events := events + [Event(Started, m.id, m.begin)];
        }
        if m.end == now {
          events := events + [Event(Finished, m.id, m.end)];
        }
        assert events == before + TickEvents(m, now);
        assert meetings[..i + 1][..i] == meetings[..i];
        assert ScanEvents(meetings[..i + 1], now) == ScanEvents(meetings[..i], now) + TickEvents(m, now);
      }
      assert meetings[..|meetings|] == meetings;
    }
  }
}
