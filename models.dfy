/**
 * The relational store behind the service: the `events`, `guests` and
 * `participants` tables, the two membership tables that join them, the
 * derived status of an event, and the save/update/delete operations the
 * handlers commit through.
 *
 * Times (`start`, `end`, the current time) are whole numbers on one clock;
 * the current time is always a parameter.
 */
module Models {
  import opened Common

  /** A row of `events`: the id is system-assigned, the name is unique. */
  datatype Event = Event(id: int, name: string, start: int, end: int, description: Option<string>)

  /** A row of `guests`: the id is the identity service's user id, the name is unique. */
  datatype Guest = Guest(id: int, name: string)

  /** A row of `participants`: the id is the author service's author id. */
  datatype Participant = Participant(id: int, name: string)

  /**
   * One state of the whole store. A membership row is a pair
   * (member id, event id); the pair is the row's composite primary key, so
   * as a set each pair is present at most once.
   */
  datatype Store = Store(
    events: map<int, Event>,
    guests: map<int, Guest>,
    participants: map<int, Participant>,
    guestEvents: set<(int, int)>,
    participantEvents: set<(int, int)>)

  /**
   * What the schema guarantees of every committed state: each table is keyed
   * by its rows' primary key, every membership row refers to an existing
   * member and an existing event, and event names and guest names are unique.
   */
  predicate WellFormed(s: Store) {
    && (forall id | id in s.events :: s.events[id].id == id)
    && (forall id | id in s.guests :: s.guests[id].id == id)
    && (forall id | id in s.participants :: s.participants[id].id == id)
    && (forall row | row in s.guestEvents :: row.0 in s.guests && row.1 in s.events)
    && (forall row | row in s.participantEvents :: row.0 in s.participants && row.1 in s.events)
    && (forall a, b | a in s.events && b in s.events && s.events[a].name == s.events[b].name :: a == b)
    && (forall a, b | a in s.guests && b in s.guests && s.guests[a].name == s.guests[b].name :: a == b)
  }

  /** The ids of the guests registered for an event (`event.guests`). */
  function GuestsOf(s: Store, eventId: int): (r: set<int>)
    ensures forall g :: g in r <==> (g, eventId) in s.guestEvents
  {
    set row | row in s.guestEvents && row.1 == eventId :: row.0
  }

  /** The ids of the participants of an event (`event.participants`). */
  function ParticipantsOf(s: Store, eventId: int): (r: set<int>)
    ensures forall p :: p in r <==> (p, eventId) in s.participantEvents
  {
    set row | row in s.participantEvents && row.1 == eventId :: row.0
  }

  // ---------------------------------------------------------------------
  // Status
  // ---------------------------------------------------------------------

  datatype Status = Past | Upcoming | Ongoing

  /**
   * `EventModel.status`: past once the end has gone by, otherwise upcoming
   * while the start is still ahead, otherwise ongoing. The past test comes
   * first, so an event whose end lies before now is past even if its start
   * lies after now.
   */
  function EventStatus(e: Event, now: int): (st: Status)
    ensures st == Past <==> e.end < now
    ensures st == Upcoming <==> now <= e.end && now < e.start
    ensures st == Ongoing <==> e.start <= now <= e.end
  {
    if e.end < now then Past
    else if e.start > now then Upcoming
    else Ongoing
  }

  /** The text the API uses for a status, also accepted as a filter value. */
  function StatusName(st: Status): string {
    match st
    case Past => "past"
    case Upcoming => "upcoming"
    case Ongoing => "ongoing"
  }

  /** The status a filter value names, if it names one (`filters.get(status)`). */
  function ParseStatus(v: string): (r: Option<Status>)
    ensures r.Some? ==> StatusName(r.value) == v
    ensures forall st: Status :: v == StatusName(st) ==> r == Some(st)
  {
    if v == "past" then Some(Past)
    else if v == "upcoming" then Some(Upcoming)
    else if v == "ongoing" then Some(Ongoing)
    else None
  }

  // ---------------------------------------------------------------------
  // Table updates, as committed by save_to_db / update_in_db / delete_from_db
  // ---------------------------------------------------------------------

  /** No other event carries this event's name (the unique constraint on `events.name`). */
  predicate EventNameFree(s: Store, e: Event) {
    forall id | id in s.events && id != e.id :: s.events[id].name != e.name
  }

  /** No other guest carries this guest's name (the unique constraint on `guests.name`). */
  predicate GuestNameFree(s: Store, g: Guest) {
    forall id | id in s.guests && id != g.id :: s.guests[id].name != g.name
  }

  /** The id the store gives a newly inserted event: one above the largest id in use. */
  function NextEventId(s: Store): (r: int)
    ensures r !in s.events
    ensures forall id | id in s.events :: id < r
  {
    if s.events == map[] then 1 else MaxOf(s.events.Keys) + 1
  }

  function MaxOf(ids: set<int>): (m: int)
    requires ids != {}
    ensures m in ids && forall x | x in ids :: x <= m
  {
    HasMax(ids);
    var m :| m in ids && forall x | x in ids :: x <= m; m
  }

  /** A set that is not empty has an element. */
  lemma NonEmpty(ids: set<int>)
    ensures ids == {} || exists z: int :: z in ids
  {
    if forall z: int :: z !in ids {
      assert ids == {};
    }
  }

  /** Some element of a non-empty set. */
  lemma Element(ids: set<int>) returns (y: int)
    requires ids != {}
    ensures y in ids
  {
    NonEmpty(ids);
    y :| y in ids;
  }

  lemma {:induction false} HasMax(ids: set<int>)
    requires ids != {}
    ensures exists m :: m in ids && forall x | x in ids :: x <= m
    decreases |ids|
  {
    var y := Element(ids);
    if ids != {y} {
      var rest := ids - {y};
      HasMax(rest);
      var m :| m in rest && forall x | x in rest :: x <= m;
      var top := if y > m then y else m;
      forall x | x in ids
        ensures x <= top
      {
        if x != y {
          assert x in rest;
        }
      }
    } else {
      assert forall x | x in ids :: x <= y;
    }
  }

  /** Inserting or overwriting an event row. */
  function WithEvent(s: Store, e: Event): (r: Store)
    ensures WellFormed(s) && EventNameFree(s, e) ==> WellFormed(r)
    ensures r.events.Keys == s.events.Keys + {e.id} && r.events[e.id] == e
    ensures forall id | id in s.events && id != e.id :: r.events[id] == s.events[id]
    ensures r.guests == s.guests && r.participants == s.participants
    ensures r.guestEvents == s.guestEvents && r.participantEvents == s.participantEvents
  {
    s.(events := s.events[e.id := e])
  }

  /**
   * Deleting an event. The `guests` and `participants` relationships carry
   * cascade 'all, delete', so the event's guests and participants are
   * deleted with it; the membership tables' foreign keys cascade on delete,
   * so every row that refers to a deleted event, guest or participant goes.
   */
  function WithoutEvent(s: Store, eventId: int): (r: Store)
    ensures WellFormed(s) ==> WellFormed(r)
    ensures r.events.Keys == s.events.Keys - {eventId}
    ensures GuestsOf(r, eventId) == {} && ParticipantsOf(r, eventId) == {}
    ensures forall g | g in GuestsOf(s, eventId) :: g !in r.guests
    ensures forall p | p in ParticipantsOf(s, eventId) :: p !in r.participants
    // What stays: every other event, guest, participant and row.
    ensures r.events == s.events - {eventId}
    ensures r.guests == s.guests - GuestsOf(s, eventId)
    ensures r.participants == s.participants - ParticipantsOf(s, eventId)
    ensures forall row :: row in r.guestEvents <==>
      row in s.guestEvents && row.1 != eventId && row.0 !in GuestsOf(s, eventId)
    ensures forall row :: row in r.participantEvents <==>
      row in s.participantEvents && row.1 != eventId && row.0 !in ParticipantsOf(s, eventId)
  {
    var gs := GuestsOf(s, eventId);
    var ps := ParticipantsOf(s, eventId);
    Store(
      s.events - {eventId},
      s.guests - gs,
      s.participants - ps,
      set row | row in s.guestEvents && row.1 != eventId && row.0 !in gs,
      set row | row in s.participantEvents && row.1 != eventId && row.0 !in ps)
  }

  /** Inserting or overwriting a guest row. */
  function WithGuest(s: Store, g: Guest): (r: Store)
    ensures WellFormed(s) && GuestNameFree(s, g) ==> WellFormed(r)
    ensures r.guests.Keys == s.guests.Keys + {g.id} && r.guests[g.id] == g
    ensures forall id | id in s.guests && id != g.id :: r.guests[id] == s.guests[id]
    ensures r.events == s.events && r.participants == s.participants
    ensures r.guestEvents == s.guestEvents && r.participantEvents == s.participantEvents
  {
    s.(guests := s.guests[g.id := g])
  }

  /**
   * Deleting a guest; the session also deletes its membership rows, since
   * the guest is on the other side of every event's `guests` relationship.
   */
  function WithoutGuest(s: Store, guestId: int): (r: Store)
    ensures WellFormed(s) ==> WellFormed(r)
    ensures guestId !in r.guests
    ensures forall e :: guestId !in GuestsOf(r, e)
    ensures r.guests == s.guests - {guestId}
    ensures forall e :: GuestsOf(r, e) == GuestsOf(s, e) - {guestId}
    ensures r.events == s.events && r.participants == s.participants
    ensures r.participantEvents == s.participantEvents
  {
    s.(guests := s.guests - {guestId},
       guestEvents := set row | row in s.guestEvents && row.0 != guestId)
  }

  /** Inserting a participant row. */
  function WithParticipant(s: Store, p: Participant): (r: Store)
    ensures WellFormed(s) ==> WellFormed(r)
    ensures r.participants.Keys == s.participants.Keys + {p.id} && r.participants[p.id] == p
    ensures forall id | id in s.participants && id != p.id :: r.participants[id] == s.participants[id]
    ensures r.events == s.events && r.guests == s.guests
    ensures r.guestEvents == s.guestEvents && r.participantEvents == s.participantEvents
  {
    s.(participants := s.participants[p.id := p])
  }

  /** `event.guests.append(guest)` committed. */
  function WithGuestRow(s: Store, guestId: int, eventId: int): (r: Store)
    ensures WellFormed(s) && guestId in s.guests && eventId in s.events ==> WellFormed(r)
    ensures GuestsOf(r, eventId) == GuestsOf(s, eventId) + {guestId}
    ensures forall e | e != eventId :: GuestsOf(r, e) == GuestsOf(s, e)
    ensures r.events == s.events && r.guests == s.guests && r.participants == s.participants
    ensures r.participantEvents == s.participantEvents
  {
    s.(guestEvents := s.guestEvents + {(guestId, eventId)})
  }

  /** `event.guests.remove(guest)` committed. */
  function WithoutGuestRow(s: Store, guestId: int, eventId: int): (r: Store)
    ensures WellFormed(s) ==> WellFormed(r)
    ensures GuestsOf(r, eventId) == GuestsOf(s, eventId) - {guestId}
    ensures forall e | e != eventId :: GuestsOf(r, e) == GuestsOf(s, e)
    ensures r.events == s.events && r.guests == s.guests && r.participants == s.participants
    ensures r.participantEvents == s.participantEvents
  {
    s.(guestEvents := s.guestEvents - {(guestId, eventId)})
  }

  /** `event.participants.append(participant)` committed. */
  function WithParticipantRow(s: Store, participantId: int, eventId: int): (r: Store)
    ensures WellFormed(s) && participantId in s.participants && eventId in s.events ==> WellFormed(r)
    ensures ParticipantsOf(r, eventId) == ParticipantsOf(s, eventId) + {participantId}
    ensures forall e | e != eventId :: ParticipantsOf(r, e) == ParticipantsOf(s, e)
    ensures r.events == s.events && r.guests == s.guests && r.participants == s.participants
    ensures r.guestEvents == s.guestEvents
  {
    s.(participantEvents := s.participantEvents + {(participantId, eventId)})
  }

  /** `event.participants.remove(participant)` committed. */
  function WithoutParticipantRow(s: Store, participantId: int, eventId: int): (r: Store)
    ensures WellFormed(s) ==> WellFormed(r)
    ensures ParticipantsOf(r, eventId) == ParticipantsOf(s, eventId) - {participantId}
    ensures forall e | e != eventId :: ParticipantsOf(r, e) == ParticipantsOf(s, e)
    ensures r.events == s.events && r.guests == s.guests && r.participants == s.participants
    ensures r.guestEvents == s.guestEvents
  {
    s.(participantEvents := s.participantEvents - {(participantId, eventId)})
  }

  // ---------------------------------------------------------------------
  // The session: the store as mutable state
  // ---------------------------------------------------------------------

  /** The fields of an event that an update may set; `None` leaves a field as it is. */
  datatype EventPatch = EventPatch(
    name: Option<string>,
    start: Option<int>,
    end: Option<int>,
    description: Option<Option<string>>)

  /** The event with the patch's fields applied. */
  function Patched(e: Event, p: EventPatch): (r: Event)
    ensures r.id == e.id
    ensures r.name == (if p.name.Some? then p.name.value else e.name)
    ensures r.start == (if p.start.Some? then p.start.value else e.start)
    ensures r.end == (if p.end.Some? then p.end.value else e.end)
    ensures r.description == (if p.description.Some? then p.description.value else e.description)
  {
    Event(e.id,
          match p.name case Some(n) => n case None => e.name,
          match p.start case Some(t) => t case None => e.start,
          match p.end case Some(t) => t case None => e.end,
          match p.description case Some(d) => d case None => e.description)
  }

  /**
   * The database as the handlers see it. Every method commits at once, as
   * each `save_to_db`/`delete_from_db` call does; one that would break a
   * unique constraint commits nothing and reports it.
   */
  class Db {
    var events: map<int, Event>
    var guests: map<int, Guest>
    var participants: map<int, Participant>
    var guestEvents: set<(int, int)>
    var participantEvents: set<(int, int)>

    function Snapshot(): Store
      reads this
    {
      Store(events, guests, participants, guestEvents, participantEvents)
    }

    ghost predicate Valid()
      reads this
    {
      WellFormed(Snapshot())
    }

    constructor ()
      ensures Valid()
      ensures Snapshot() == Store(map[], map[], map[], {}, {})
    {
      events, guests, participants := map[], map[], map[];
      guestEvents, participantEvents := {}, {};
    }

    /** `EventModel.save_to_db` on a new event: fails on a name already in use. */
    method SaveEvent(e: Event) returns (ok: bool)
      requires Valid()
      modifies this
      ensures Valid()
      ensures ok == EventNameFree(old(Snapshot()), e)
      ensures Snapshot() == if ok then WithEvent(old(Snapshot()), e) else old(Snapshot())
    {
      ok := forall id | id in events && id != e.id :: events[id].name != e.name;
      if ok {
        events := events[e.id := e];
      }
    }

    /** `EventModel.update_in_db`: fails when the new name is another event's. */
    method UpdateEvent(id: int, p: EventPatch) returns (ok: bool)
      requires Valid() && id in events
      modifies this
      ensures Valid()
      ensures ok == EventNameFree(old(Snapshot()), Patched(old(events[id]), p))
      ensures Snapshot() == if ok then WithEvent(old(Snapshot()), Patched(old(events[id]), p)) else old(Snapshot())
    {
      var e := Patched(events[id], p);
      ok := forall other | other in events && other != e.id :: events[other].name != e.name;
      if ok {
        events := events[id := e];
      }
    }

    /** `EventModel.delete_from_db`, with the cascades described at `WithoutEvent`. */
    method DeleteEvent(id: int)
      requires Valid()
      modifies this
      ensures Valid()
      ensures Snapshot() == WithoutEvent(old(Snapshot()), id)
    {
      var gs := set row | row in guestEvents && row.1 == id :: row.0;
      var ps := set row | row in participantEvents && row.1 == id :: row.0;
      events := events - {id};
      guests := guests - gs;
      participants := participants - ps;
      guestEvents := set row | row in guestEvents && row.1 != id && row.0 !in gs;
      participantEvents := set row | row in participantEvents && row.1 != id && row.0 !in ps;
    }

    /** `GuestModel.save_to_db`: fails on a name another guest already has. */
    method SaveGuest(g: Guest) returns (ok: bool)
      requires Valid()
      modifies this
      ensures Valid()
      ensures ok == GuestNameFree(old(Snapshot()), g)
      ensures Snapshot() == if ok then WithGuest(old(Snapshot()), g) else old(Snapshot())
    {
      ok := forall id | id in guests && id != g.id :: guests[id].name != g.name;
      if ok {
        guests := guests[g.id := g];
      }
    }

    /** `GuestModel.delete_from_db`. */
    method DeleteGuest(id: int)
      requires Valid()
      modifies this
      ensures Valid()
      ensures Snapshot() == WithoutGuest(old(Snapshot()), id)
    {
      guests := guests - {id};
      guestEvents := set row | row in guestEvents && row.0 != id;
    }

    /** `ParticipantModel.save_to_db`. */
    method SaveParticipant(p: Participant)
      requires Valid()
      modifies this
      ensures Valid()
      ensures Snapshot() == WithParticipant(old(Snapshot()), p)
    {
      participants := participants[p.id := p];
    }

    /** `event.guests.append(guest)` followed by `event.save_to_db()`. */
    method AddGuestRow(guestId: int, eventId: int)
      requires Valid() && guestId in guests && eventId in events
      modifies this
      ensures Valid()
      ensures Snapshot() == WithGuestRow(old(Snapshot()), guestId, eventId)
    {
      guestEvents := guestEvents + {(guestId, eventId)};
    }

    /** `event.guests.remove(guest)` followed by `event.save_to_db()`. */
    method RemoveGuestRow(guestId: int, eventId: int)
      requires Valid()
      modifies this
      ensures Valid()
      ensures Snapshot() == WithoutGuestRow(old(Snapshot()), guestId, eventId)
    {
      guestEvents := guestEvents - {(guestId, eventId)};
    }

    /** `event.participants.append(participant)` followed by `event.save_to_db()`. */
    method AddParticipantRow(participantId: int, eventId: int)
      requires Valid() && participantId in participants && eventId in events
      modifies this
      ensures Valid()
      ensures Snapshot() == WithParticipantRow(old(Snapshot()), participantId, eventId)
    {
      participantEvents := participantEvents + {(participantId, eventId)};
    }

    /** `event.participants.remove(participant)` followed by `event.save_to_db()`. */
    method RemoveParticipantRow(participantId: int, eventId: int)
      requires Valid()
      modifies this
      ensures Valid()
      ensures Snapshot() == WithoutParticipantRow(old(Snapshot()), participantId, eventId)
    {
      participantEvents := participantEvents - {(participantId, eventId)};
    }
  }
}
