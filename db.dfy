/**
 * The backing store of `src/lib/db.ts`: the users, sessions, events and rsvps
 * tables, held in memory, with one method per query. Timestamps are integers
 * (milliseconds). A `fault` argument says that the database call throws; each
 * method then does what the source's `catch` block does.
 */
module Db {
  import opened Common

  const DayMs: int := 86_400_000

  /** `findById` pushes a session's expiry to now + 7 days. */
  const RenewalMs: int := 7 * DayMs

  /** A row of `users`; `verified` is SQLite's INTEGER flag (0 = not approved). */
  datatype User = User(id: nat, username: string, password: string, verified: int, createdAt: int)

  /** A row of `sessions`, keyed by its opaque id. */
  datatype Session = Session(id: string, userId: nat, createdAt: int, expiresAt: int)

  /** A row of `events`; `description` is nullable. */
  datatype Event = Event(
    id: nat, title: string, description: Option<string>, eventDate: string,
    eventTime: string, location: string, createdBy: nat, createdAt: int)

  datatype RsvpStatus = Yes | No | Maybe

  /** A row of `rsvps`, unique on (eventId, userId). */
  datatype Rsvp = Rsvp(
    id: nat, eventId: nat, userId: nat, status: RsvpStatus, comment: Option<string>, createdAt: int)

  datatype Counts = Counts(yes: nat, no: nat, maybe: nat)

  /** The fields an update may supply; `None` is a missing or null field. */
  datatype EventPatch = EventPatch(
    title: Option<string>, description: Option<string>, eventDate: Option<string>,
    eventTime: Option<string>, location: Option<string>)

  /** What `findByIdWithAttendees` returns for an existing event. */
  datatype EventDetail = EventDetail(event: Event, attendees: seq<Rsvp>, counts: Counts)

  /** The store calls a request handler can make; a handler's `failing` set names those that throw. */
  datatype Call =
    | FindUser | UserExists | InsertUser
    | InsertSession | FindSession | DeleteSession | SweepSessions
    | InsertEvent

  /** The row `findById` writes back: same session, expiry moved to now + 7 days. */
  function Renewed(s: Session, now: int): (r: Session)
    ensures r.id == s.id && r.userId == s.userId && r.createdAt == s.createdAt
    ensures r.expiresAt == now + RenewalMs
  {
    s.(expiresAt := now + RenewalMs)
  }

  /** The sessions `deleteExpired` keeps: those with `expires_at >= now`. */
  function Unexpired(sessions: map<string, Session>, now: int): (kept: map<string, Session>)
    ensures forall id :: id in kept <==> id in sessions && sessions[id].expiresAt >= now
    ensures forall id :: id in kept ==> kept[id] == sessions[id]
  {
    map id | id in sessions && !(sessions[id].expiresAt < now) :: sessions[id]
  }

  /** SQL COALESCE(given, current). */
  function Coalesce<T>(given: Option<T>, current: T): (r: T)
    ensures given.Some? ==> r == given.value
    ensures given.None? ==> r == current
  {
    if given.Some? then given.value else current
  }

  /** The row `eventQueries.update` writes: each supplied field replaces the old value. */
  function Patched(e: Event, p: EventPatch): (r: Event)
    ensures r.id == e.id && r.createdBy == e.createdBy && r.createdAt == e.createdAt
    ensures p.title.Some? ==> r.title == p.title.value
    ensures p.title.None? ==> r.title == e.title
    ensures p.description.Some? ==> r.description == p.description
    ensures p.description.None? ==> r.description == e.description
    ensures e.description.Some? ==> r.description.Some?
    ensures p.eventDate.Some? ==> r.eventDate == p.eventDate.value
    ensures p.eventDate.None? ==> r.eventDate == e.eventDate
    ensures p.eventTime.Some? ==> r.eventTime == p.eventTime.value
    ensures p.eventTime.None? ==> r.eventTime == e.eventTime
    ensures p.location.Some? ==> r.location == p.location.value
    ensures p.location.None? ==> r.location == e.location
  {
    e.(title := Coalesce(p.title, e.title),
       description := if p.description.Some? then p.description else e.description,
       eventDate := Coalesce(p.eventDate, e.eventDate),
       eventTime := Coalesce(p.eventTime, e.eventTime),
       location := Coalesce(p.location, e.location))
  }

  /** The rows of one event, in table order (`WHERE r.event_id = ?`). */
  function Attendees(rows: seq<Rsvp>, eventId: nat): (r: seq<Rsvp>)
    ensures |r| <= |rows|
    ensures forall x :: x in r <==> x in rows && x.eventId == eventId
    // No matching row is dropped or repeated.
    ensures forall x :: multiset(r)[x] == if x.eventId == eventId then multiset(rows)[x] else 0
  {
    if rows == [] then []
    else
      assert rows == [rows[0]] + rows[1..];
      if rows[0].eventId == eventId then [rows[0]] + Attendees(rows[1..], eventId)
      else Attendees(rows[1..], eventId)
  }

  /** `attendees.filter(a => a.status === s).length`. */
  function CountStatus(rows: seq<Rsvp>, s: RsvpStatus): (n: nat)
    ensures n <= |rows|
    ensures n == 0 <==> forall i :: 0 <= i < |rows| ==> rows[i].status != s
  {
    if rows == [] then 0
    else (if rows[0].status == s then 1 else 0) + CountStatus(rows[1..], s)
  }

  /** Every row has exactly one of the three statuses, so the counts add up. */
  lemma {:induction false} TallyPartition(rows: seq<Rsvp>)
    ensures CountStatus(rows, Yes) + CountStatus(rows, No) + CountStatus(rows, Maybe) == |rows|
  {
    if rows != [] {
      TallyPartition(rows[1..]);
    }
  }

  /** The per-status counts of `findByIdWithAttendees` and `countByEvent`. */
  function Tally(rows: seq<Rsvp>): (c: Counts)
    ensures c.yes + c.no + c.maybe == |rows|
    ensures c.yes == CountStatus(rows, Yes) && c.no == CountStatus(rows, No)
    ensures c.maybe == CountStatus(rows, Maybe)
  {
    TallyPartition(rows);
    Counts(CountStatus(rows, Yes), CountStatus(rows, No), CountStatus(rows, Maybe))
  }

  /** The position of the row for (eventId, userId), if there is one. */
  function PairIndex(rows: seq<Rsvp>, eventId: nat, userId: nat): (r: Option<nat>)
    ensures r.Some? ==> r.value < |rows| && rows[r.value].eventId == eventId && rows[r.value].userId == userId
    ensures r.None? ==> forall i :: 0 <= i < |rows| ==> !(rows[i].eventId == eventId && rows[i].userId == userId)
  {
    if rows == [] then None
    else if rows[0].eventId == eventId && rows[0].userId == userId then Some(0)
    else match PairIndex(rows[1..], eventId, userId)
      case None => None
      case Some(i) => Some(i + 1)
  }

  /** The UNIQUE (event_id, user_id) constraint of `rsvps`. */
  ghost predicate UniquePairs(rows: seq<Rsvp>) {
    forall i, j :: 0 <= i < j < |rows| ==>
      !(rows[i].eventId == rows[j].eventId && rows[i].userId == rows[j].userId)
  }

  class Store {
    var users: map<string, User>
    var nextUserId: nat
    var sessions: map<string, Session>
    var events: map<nat, Event>
    var nextEventId: nat
    var rsvps: seq<Rsvp>
    var nextRsvpId: nat

    /** Keys agree with rows, ids are fresh below the counters, and rsvps are unique per pair. */
    ghost predicate Valid()
      reads this
    {
      && 0 < nextUserId && 0 < nextEventId && 0 < nextRsvpId
      && (forall name :: name in users ==> users[name].username == name && 0 < users[name].id < nextUserId)
      && (forall a, b :: a in users && b in users && a != b ==> users[a].id != users[b].id)
      && (forall id :: id in sessions ==> sessions[id].id == id)
      && (forall id :: id in events ==> events[id].id == id && 0 < id < nextEventId)
      && UniquePairs(rsvps)
      && (forall i :: 0 <= i < |rsvps| ==> 0 < rsvps[i].id < nextRsvpId)
    }

    constructor ()
      ensures Valid()
      ensures users == map[] && sessions == map[] && events == map[] && rsvps == []
    {
      users, sessions, events, rsvps := map[], map[], map[], [];
      nextUserId, nextEventId, nextRsvpId := 1, 1, 1;
    }

    // ---- userQueries ----

    /** `SELECT * FROM users WHERE username = ?`; an error reads as "no such user". */
    method FindByUsername(username: string, fault: bool) returns (r: Option<User>)
      requires Valid()
      ensures r.Some? <==> !fault && username in users
      ensures r.Some? ==> r.value == users[username] && r.value.username == username
    {
      if !fault && username in users {
        r := Some(users[username]);
      } else {
        r := None;
      }
    }

    /**
     * `INSERT INTO users ... VALUES (?, ?, 0) RETURNING *`. A duplicate username
     * violates the UNIQUE constraint and throws, as does a database error.
     */
    method CreateUser(username: string, hashedPassword: string, now: int, fault: bool)
      returns (r: Try<Option<User>>)
      requires Valid()
      modifies this`users, this`nextUserId
      ensures Valid()
      ensures r.Throws? <==> fault || username in old(users)
      ensures r.Throws? ==> users == old(users) && nextUserId == old(nextUserId)
      ensures r.Returns? ==>
        && r.value == Some(User(old(nextUserId), username, hashedPassword, 0, now))
        && users == old(users)[username := r.value.value]
        && nextUserId == old(nextUserId) + 1
    {
      if fault || username in users {
        r := Throws;
      } else {
        var u := User(nextUserId, username, hashedPassword, 0, now);
        users := users[username := u];
        nextUserId := nextUserId + 1;
        r := Returns(Some(u));
      }
    }

    /** `SELECT 1 FROM users WHERE username = ?`; an error reads as `false`. */
    method ExistsByUsername(username: string, fault: bool) returns (b: bool)
      ensures b <==> !fault && username in users
    {
      b := !fault && username in users;
    }

    // ---- sessionQueries ----

    /** `INSERT INTO sessions (id, user_id, expires_at)`; a duplicate id or an error throws. */
    method CreateSession(id: string, userId: nat, expiresAt: int, now: int, fault: bool)
      returns (ok: bool)
      requires Valid()
      modifies this`sessions
      ensures Valid()
      ensures ok <==> !fault && id !in old(sessions)
      ensures sessions == if ok then old(sessions)[id := Session(id, userId, now, expiresAt)]
                          else old(sessions)
    {
      ok := !fault && id !in sessions;
      if ok {
        sessions := sessions[id := Session(id, userId, now, expiresAt)];
      }
    }

    /**
     * `findById`: reads the row, renews it to now + 7 days whatever its expiry,
     * and returns the row as it was read, before the renewal.
     */
    method FindSession(id: string, now: int, fault: bool) returns (r: Option<Session>)
      requires Valid()
      modifies this`sessions
      ensures Valid()
      ensures r.Some? <==> !fault && id in old(sessions)
      ensures r.Some? ==> r.value == old(sessions)[id]
      ensures r.Some? ==> sessions == old(sessions)[id := Renewed(old(sessions)[id], now)]
      ensures r.None? ==> sessions == old(sessions)
    {
      if !fault && id in sessions {
        var row := sessions[id];
        sessions := sessions[id := Renewed(row, now)];
        r := Some(row);
      } else {
        r := None;
      }
    }

    /** `DELETE FROM sessions WHERE id = ?`; never throws, removes at most that row. */
    method DeleteSession(id: string, fault: bool)
      requires Valid()
      modifies this`sessions
      ensures Valid()
      ensures id !in sessions || fault
      ensures sessions == if fault then old(sessions) else old(sessions) - {id}
    {
      if !fault {
        sessions := sessions - {id};
      }
    }

    /** `DELETE FROM sessions WHERE expires_at < now`; never throws. */
    method DeleteExpired(now: int, fault: bool)
      requires Valid()
      modifies this`sessions
      ensures Valid()
      ensures sessions == if fault then old(sessions) else Unexpired(old(sessions), now)
      ensures !fault ==> forall id :: id in sessions <==> id in old(sessions) && old(sessions)[id].expiresAt >= now
      ensures forall id :: id in sessions ==> id in old(sessions) && sessions[id] == old(sessions)[id]
    {
      if !fault {
        sessions := Unexpired(sessions, now);
      }
    }

    // ---- eventQueries ----

    /** `INSERT INTO events (...) RETURNING *`; an error throws. */
    method CreateEvent(
      title: string, description: Option<string>, eventDate: string, eventTime: string,
      location: string, createdBy: nat, now: int, fault: bool)
      returns (r: Try<Option<Event>>)
      requires Valid()
      modifies this`events, this`nextEventId
      ensures Valid()
      ensures r.Throws? <==> fault
      ensures r.Throws? ==> events == old(events) && nextEventId == old(nextEventId)
      ensures r.Returns? ==>
        && r.value == Some(Event(old(nextEventId), title, description, eventDate, eventTime, location, createdBy, now))
        && events == old(events)[old(nextEventId) := r.value.value]
        && nextEventId == old(nextEventId) + 1
    {
      if fault {
        r := Throws;
      } else {
        var e := Event(nextEventId, title, description, eventDate, eventTime, location, createdBy, now);
        events := events[nextEventId := e];
        nextEventId := nextEventId + 1;
        r := Returns(Some(e));
      }
    }

    /** `findByIdWithAttendees`: null for a missing event (or an error), else its rsvps and their counts. */
    method FindEventWithAttendees(id: nat, fault: bool) returns (r: Option<EventDetail>)
      requires Valid()
      ensures r.Some? <==> !fault && id in events
      ensures r.Some? ==> r.value.event == events[id] && r.value.attendees == Attendees(rsvps, id)
      ensures r.Some? ==> r.value.counts == Tally(r.value.attendees)
      ensures r.Some? ==> r.value.counts.yes + r.value.counts.no + r.value.counts.maybe == |r.value.attendees|
      ensures r.Some? ==> forall a :: a in r.value.attendees ==> a in rsvps && a.eventId == id
    {
      if fault || id !in events {
        return None;
      }
      var attendees := Attendees(rsvps, id);
      r := Some(EventDetail(events[id], attendees, Tally(attendees)));
    }

    /** `DELETE FROM events WHERE id = ? AND created_by = ?`: true iff that row existed. */
    method DeleteEvent(id: nat, userId: nat, fault: bool) returns (deleted: bool)
      requires Valid()
      modifies this`events
      ensures Valid()
      ensures deleted <==> !fault && id in old(events) && old(events)[id].createdBy == userId
      ensures events == if deleted then old(events) - {id} else old(events)
    {
      deleted := !fault && id in events && events[id].createdBy == userId;
      if deleted {
        events := events - {id};
      }
    }

    /** `UPDATE events SET f = COALESCE(?, f) ... WHERE id = ? AND created_by = ?`. */
    method UpdateEvent(id: nat, userId: nat, patch: EventPatch, fault: bool) returns (r: Option<Event>)
      requires Valid()
      modifies this`events
      ensures Valid()
      ensures r.Some? <==> !fault && id in old(events) && old(events)[id].createdBy == userId
      ensures r.Some? ==> r.value == Patched(old(events)[id], patch) && events == old(events)[id := r.value]
      ensures r.None? ==> events == old(events)
    {
      if !fault && id in events && events[id].createdBy == userId {
        var e := Patched(events[id], patch);
        events := events[id := e];
        r := Some(e);
      } else {
        r := None;
      }
    }

    // ---- rsvpQueries ----

    /**
     * `INSERT ... ON CONFLICT (event_id, user_id) DO UPDATE SET status, comment`:
     * a repeat overwrites status and comment and keeps the row's id and created_at.
     */
    method Upsert(eventId: nat, userId: nat, status: RsvpStatus, comment: Option<string>, now: int, fault: bool)
      returns (r: Try<Option<Rsvp>>)
      requires Valid()
      modifies this`rsvps, this`nextRsvpId
      ensures Valid()
      ensures r.Throws? <==> fault
      ensures r.Throws? ==> rsvps == old(rsvps) && nextRsvpId == old(nextRsvpId)
      ensures r.Returns? ==> r.value.Some? && PairIndex(rsvps, eventId, userId) != None
      ensures r.Returns? && PairIndex(old(rsvps), eventId, userId).Some? ==>
        var i := PairIndex(old(rsvps), eventId, userId).value;
        && rsvps == old(rsvps)[i := old(rsvps)[i].(status := status, comment := comment)]
        && r.value.value == rsvps[i]
        && r.value.value.id == old(rsvps)[i].id && r.value.value.createdAt == old(rsvps)[i].createdAt
      ensures r.Returns? && PairIndex(old(rsvps), eventId, userId).None? ==>
        && r.value.value == Rsvp(old(nextRsvpId), eventId, userId, status, comment, now)
        && rsvps == old(rsvps) + [r.value.value]
    {
      if fault {
        return Throws;
      }
      match PairIndex(rsvps, eventId, userId)
      case Some(i) =>
        var row := rsvps[i].(status := status, comment := comment);
        rsvps := rsvps[i := row];
        assert rsvps[i].eventId == eventId && rsvps[i].userId == userId;
        r := Returns(Some(row));
      case None =>
        var row := Rsvp(nextRsvpId, eventId, userId, status, comment, now);
        rsvps := rsvps + [row];
        assert rsvps[|rsvps| - 1] == row;
        nextRsvpId := nextRsvpId + 1;
        r := Returns(Some(row));
    }

    /** `rsvpQueries.countByEvent`: zeros on an error. */
    method CountByEvent(eventId: nat, fault: bool) returns (c: Counts)
      ensures fault ==> c == Counts(0, 0, 0)
      ensures !fault ==> c.yes + c.no + c.maybe == |Attendees(rsvps, eventId)|
      ensures !fault ==> c.yes == CountStatus(Attendees(rsvps, eventId), Yes)
      ensures !fault ==> c.no == CountStatus(Attendees(rsvps, eventId), No)
      ensures !fault ==> c.maybe == CountStatus(Attendees(rsvps, eventId), Maybe)
    {
      if fault {
        c := Counts(0, 0, 0);
      } else {
        c := Tally(Attendees(rsvps, eventId));
      }
    }
  }
}
