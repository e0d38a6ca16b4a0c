/**
 * The event endpoints: reading one event, creating one under a name not in
 * use, updating and deleting one (`RetrieveUpdateDestroyEvent`,
 * `ListCreateEvent.post`), and the query-string handling of the listing
 * endpoint (`ListCreateEvent.get`).
 */
module EventResource {
  import opened Common
  import opened Numerals
  import opened Models
  import opened Http

  // ---------------------------------------------------------------------
  // Reading, creating, updating, deleting
  // ---------------------------------------------------------------------

  /** `RetrieveUpdateDestroyEvent.get`: the event's dump, with its status as of now, or 404. */
  function Retrieve(s: Store, id: int, now: int): (r: Reply)
    ensures r.code == 200 <==> id in s.events
    ensures id in s.events ==> r.body == EventDump(s.events[id], EventStatus(s.events[id], now))
    ensures id !in s.events ==> r == Reply(404, Message(EventNotFound))
  {
    if id in s.events then Reply(200, EventDump(s.events[id], EventStatus(s.events[id], now)))
    else Reply(404, Message(EventNotFound))
  }

  /** Some event already carries the name (`EventModel.find_by_name`). */
  predicate NameTaken(s: Store, name: string) {
    exists id | id in s.events :: s.events[id].name == name
  }

  /** The fields of a request body that the event schema loaded without a validation error. */
  datatype EventFields = EventFields(name: string, start: int, end: int, description: Option<string>)

  /** The event the store would insert for the loaded fields. */
  function NewEvent(s: Store, f: EventFields): (e: Event)
    ensures e.id !in s.events && forall id | id in s.events :: id < e.id
    ensures e.name == f.name && e.start == f.start && e.end == f.end && e.description == f.description
  {
    Event(NextEventId(s), f.name, f.start, f.end, f.description)
  }

  /**
   * `ListCreateEvent.post`. `name` is what `event_json.get('name')` finds
   * (`find_by_name(None)` matches nothing) and `loaded` what the schema
   * loads, `None` on a validation error, which the application answers
   * with 400.
   */
  function Create(s: Store, name: Option<string>, loaded: Option<EventFields>, now: int): (t: Transition)
    ensures name.Some? && NameTaken(s, name.value) ==> t == Transition(s, Reply(400, Message(EventAlreadyExists)))
    ensures t.reply.code == 201 <==>
      && !(name.Some? && NameTaken(s, name.value))
      && loaded.Some? && EventNameFree(s, NewEvent(s, loaded.value))
    ensures t.reply.code == 201 ==>
      var e := NewEvent(s, loaded.value);
      && t.reply == Reply(201, EventDump(e, EventStatus(e, now)))
      && t.store == s.(events := s.events[e.id := e])
    ensures t.reply.code != 201 ==> t.store == s
    ensures WellFormed(s) ==> WellFormed(t.store)
  {
    if name.Some? && NameTaken(s, name.value) then
      Transition(s, Reply(400, Message(EventAlreadyExists)))
    else match loaded
      case None => Transition(s, Reply(400, Message(ValidationFailed)))
      case Some(f) =>
        var e := NewEvent(s, f);
        if !EventNameFree(s, e) then Transition(s, Crash)
        else Transition(WithEvent(s, e), Reply(201, EventDump(e, EventStatus(e, now))))
  }

  /**
   * `RetrieveUpdateDestroyEvent.put`: 404 for an unknown event; otherwise
   * the body's fields are written and the updated event is dumped. A new
   * name that another event has breaks the unique constraint.
   */
  function Update(s: Store, id: int, patch: EventPatch, now: int): (t: Transition)
    ensures id !in s.events ==> t == Transition(s, Reply(404, Message(EventNotFound)))
    ensures t.reply.code == 200 <==> id in s.events && EventNameFree(s, Patched(s.events[id], patch))
    ensures t.reply.code == 200 ==>
      var e := Patched(s.events[id], patch);
      && t.reply == Reply(200, EventDump(e, EventStatus(e, now)))
      && (WellFormed(s) ==> t.store == s.(events := s.events[id := e]))
    ensures t.reply.code != 200 ==> t.store == s
    ensures WellFormed(s) ==> WellFormed(t.store)
  {
    if id !in s.events then Transition(s, Reply(404, Message(EventNotFound)))
    else
      var e := Patched(s.events[id], patch);
      if !EventNameFree(s, e) then Transition(s, Crash)
      else Transition(WithEvent(s, e), Reply(200, EventDump(e, EventStatus(e, now))))
  }

  /**
   * `RetrieveUpdateDestroyEvent.delete`, as the code has it: the answer is
   * 404 on both branches, and the event-not-found message is the one sent
   * after a deletion while the event-deleted message is sent when there was
   * nothing to delete.
   */
  function Destroy(s: Store, id: int): (t: Transition)
    ensures t.reply.code == 404
    ensures id in s.events <==> t.reply.body == Message(EventNotFound)
    ensures id !in s.events ==> t == Transition(s, Reply(404, Message(EventDeleted)))
    ensures id in s.events ==>
      && t.store.events == s.events - {id}
      && GuestsOf(t.store, id) == {} && ParticipantsOf(t.store, id) == {}
      && (forall g | g in GuestsOf(s, id) :: g !in t.store.guests)
      && (forall p | p in ParticipantsOf(s, id) :: p !in t.store.participants)
      && t.store.guests == s.guests - GuestsOf(s, id)
      && t.store.participants == s.participants - ParticipantsOf(s, id)
      && (forall row :: row in t.store.guestEvents <==>
            row in s.guestEvents && row.1 != id && row.0 !in GuestsOf(s, id))
      && (forall row :: row in t.store.participantEvents <==>
            row in s.participantEvents && row.1 != id && row.0 !in ParticipantsOf(s, id))
    ensures WellFormed(s) ==> WellFormed(t.store)
  {
    if id in s.events then Transition(WithoutEvent(s, id), Reply(404, Message(EventNotFound)))
    else Transition(s, Reply(404, Message(EventDeleted)))
  }

  // ---------------------------------------------------------------------
  // Properties across requests
  // ---------------------------------------------------------------------

  /** A created event can be read back at once, and reads as the creation reply showed it. */
  lemma CreateThenRetrieve(s: Store, name: Option<string>, loaded: Option<EventFields>, now: int)
    requires Create(s, name, loaded, now).reply.code == 201
    ensures var t := Create(s, name, loaded, now);
      Retrieve(t.store, NewEvent(s, loaded.value).id, now) == Reply(200, t.reply.body)
  {
  }

  /** Creating the same event twice: the second request finds the name taken. */
  lemma CreateTwiceRefused(s: Store, loaded: EventFields, now: int)
    requires Create(s, Some(loaded.name), Some(loaded), now).reply.code == 201
    ensures var t := Create(s, Some(loaded.name), Some(loaded), now);
      Create(t.store, Some(loaded.name), Some(loaded), now) == Transition(t.store, Reply(400, Message(EventAlreadyExists)))
  {
    var t := Create(s, Some(loaded.name), Some(loaded), now);
    var e := NewEvent(s, loaded);
    assert t.store.events[e.id].name == loaded.name;
  }

  /** An updated event reads back as the update reply showed it. */
  lemma UpdateThenRetrieve(s: Store, id: int, patch: EventPatch, now: int)
    requires WellFormed(s) && Update(s, id, patch, now).reply.code == 200
    ensures var t := Update(s, id, patch, now);
      Retrieve(t.store, id, now) == t.reply
  {
  }

  /**
   * After a deletion the event is gone: reading it answers 404, and a
   * second deletion sends the message meant for a successful one.
   */
  lemma DestroyThenRetrieve(s: Store, id: int, now: int)
    requires id in s.events
    ensures var t := Destroy(s, id);
      && Retrieve(t.store, id, now) == Reply(404, Message(EventNotFound))
      && Destroy(t.store, id) == Transition(t.store, Reply(404, Message(EventDeleted)))
  {
  }

  // ---------------------------------------------------------------------
  // The query string of the listing endpoint
  // ---------------------------------------------------------------------

  /** The first value given for a key, if any. */
  function Lookup(args: seq<(string, string)>, key: string): (r: Option<string>)
    ensures r.Some? <==> exists i | 0 <= i < |args| :: args[i].0 == key
    ensures r.Some? ==> exists i | 0 <= i < |args| :: args[i] == (key, r.value) && forall j | 0 <= j < i :: args[j].0 != key
  {
    if args == [] then None
    else if args[0].0 == key then Some(args[0].1)
    else
      var r := Lookup(args[1..], key);
      assert forall i | 0 <= i < |args[1..]| :: args[1..][i] == args[i + 1];
      r
  }

  /** The entries whose key is not `key`, in order. */
  function Without(args: seq<(string, string)>, key: string): (r: seq<(string, string)>)
    ensures forall p | p in r :: p in args && p.0 != key
    ensures forall k | k != key :: Lookup(r, k) == Lookup(args, k)
    ensures Lookup(r, key).None?
  {
    if args == [] then []
    else if args[0].0 == key then Without(args[1..], key)
    else [args[0]] + Without(args[1..], key)
  }

  /** No key appears twice. */
  predicate KeysDistinct(args: seq<(string, string)>) {
    forall i, j | 0 <= i < j < |args| :: args[i].0 != args[j].0
  }

  /** The position where a key first occurs in the arguments, `|args|` when it does not occur. */
  function KeyIndex(args: seq<(string, string)>, key: string): (r: nat)
    ensures r <= |args|
    ensures r < |args| ==> args[r].0 == key
    ensures forall j | 0 <= j < r :: args[j].0 != key
  {
    if args == [] || args[0].0 == key then 0
    else
      var r := KeyIndex(args[1..], key);
      assert forall j | 0 < j < r + 1 :: args[j] == args[1..][j - 1];
      1 + r
  }

  /** The entries' keys come in the order in which the keys first occur in `args`. */
  predicate InFirstOccurrenceOrder(r: seq<(string, string)>, args: seq<(string, string)>) {
    forall i, j | 0 <= i < j < |r| :: KeyIndex(args, r[i].0) < KeyIndex(args, r[j].0)
  }

  /**
   * `dict(request.args)`: one entry per key, in the order the keys first
   * appear, each with the first value given for it.
   */
  function FirstValues(args: seq<(string, string)>): (r: seq<(string, string)>)
    ensures KeysDistinct(r)
    ensures InFirstOccurrenceOrder(r, args)
    ensures forall k :: Lookup(r, k) == Lookup(args, k)
    ensures forall p | p in r :: p in args
  {
    if args == [] then []
    else
      var tail := FirstValues(args[1..]);
      var rest := Without(tail, args[0].0);
      WithoutKeepsDistinct(tail, args[0].0);
      WithoutKeepsOrder(tail, args[0].0, args[1..]);
      ConsKeepsOrder(args, rest);
      assert forall p | p in rest :: p.0 != args[0].0;
      assert forall i | 0 < i < |rest| + 1 :: ([args[0]] + rest)[i] == rest[i - 1];
      [args[0]] + rest
  }

  /** What the listing endpoint reads from its query string. */
  datatype ListArgs = ListArgs(page: int, limit: int, filters: seq<(string, string)>)

  /** `int(filters.pop(key, default))`: `None` when the value given is not an integer (the request then fails with 500). */
  function PopInt(args: seq<(string, string)>, key: string, default: int): Option<int> {
    match Lookup(args, key)
    case None => Some(default)
    case Some(v) => ParseInt(v)
  }

  /**
   * `ListCreateEvent.get` up to the call into the model: `page` (default 1)
   * and `limit` (default 20) are taken out of the arguments, and everything
   * else is left as the filters, which the response also repeats in its
   * links.
   */
  function ExtractListArgs(args: seq<(string, string)>): (r: Option<ListArgs>)
    ensures r.None? <==> PopInt(args, "page", 1).None? || PopInt(args, "limit", 20).None?
    ensures r.Some? ==>
      && (Lookup(args, "page").None? ==> r.value.page == 1)
      && (Lookup(args, "page").Some? ==> Some(r.value.page) == ParseInt(Lookup(args, "page").value))
      && (Lookup(args, "limit").None? ==> r.value.limit == 20)
      && (Lookup(args, "limit").Some? ==> Some(r.value.limit) == ParseInt(Lookup(args, "limit").value))
      && KeysDistinct(r.value.filters)
      && InFirstOccurrenceOrder(r.value.filters, args)
      && (forall p | p in r.value.filters :: p in args && p.0 != "page" && p.0 != "limit")
      && (forall k | k != "page" && k != "limit" :: Lookup(r.value.filters, k) == Lookup(args, k))
  {
    var d := FirstValues(args);
    match (PopInt(d, "page", 1), PopInt(d, "limit", 20))
    case (Some(page), Some(limit)) =>
      var filters := Without(Without(d, "page"), "limit");
      WithoutKeepsDistinct(d, "page");
      WithoutKeepsDistinct(Without(d, "page"), "limit");
      WithoutKeepsOrder(d, "page", args);
      WithoutKeepsOrder(Without(d, "page"), "limit", args);
      Some(ListArgs(page, limit, filters))
    case _ => None
  }

  /** Dropping entries keeps the keys distinct. */
  lemma {:induction false} WithoutKeepsDistinct(args: seq<(string, string)>, key: string)
    requires KeysDistinct(args)
    ensures KeysDistinct(Without(args, key))
    decreases |args|
  {
    if args != [] {
      var rest := args[1..];
      assert KeysDistinct(rest) by {
        forall i, j | 0 <= i < j < |rest| ensures rest[i].0 != rest[j].0 {
          assert rest[i] == args[i + 1] && rest[j] == args[j + 1];
        }
      }
      WithoutKeepsDistinct(rest, key);
      if args[0].0 != key {
        var w := Without(rest, key);
        forall p | p in w ensures p.0 != args[0].0 {
          var i :| 0 <= i < |rest| && rest[i] == p;
          assert args[i + 1] == p;
        }
      }
    }
  }

  /** Dropping entries keeps the remaining ones in the order they were in. */
  lemma {:induction false} WithoutKeepsOrder(p: seq<(string, string)>, key: string, args: seq<(string, string)>)
    requires InFirstOccurrenceOrder(p, args)
    ensures InFirstOccurrenceOrder(Without(p, key), args)
    decreases |p|
  {
    if p != [] {
      var rest := p[1..];
      assert InFirstOccurrenceOrder(rest, args) by {
        forall i, j | 0 <= i < j < |rest| ensures KeyIndex(args, rest[i].0) < KeyIndex(args, rest[j].0) {
          assert rest[i] == p[i + 1] && rest[j] == p[j + 1];
        }
      }
      WithoutKeepsOrder(rest, key, args);
      if p[0].0 != key {
        var w := Without(rest, key);
        forall q | q in w ensures KeyIndex(args, p[0].0) < KeyIndex(args, q.0) {
          var i :| 0 <= i < |rest| && rest[i] == q;
          assert p[i + 1] == q;
        }
        PrependKeepsOrder(p[0], w, args);
      }
    }
  }

  /** An entry whose key occurs before all of theirs can be put in front of ordered entries. */
  lemma PrependKeepsOrder(h: (string, string), w: seq<(string, string)>, args: seq<(string, string)>)
    requires InFirstOccurrenceOrder(w, args)
    requires forall q | q in w :: KeyIndex(args, h.0) < KeyIndex(args, q.0)
    ensures InFirstOccurrenceOrder([h] + w, args)
  {
    var r := [h] + w;
    forall i, j | 0 <= i < j < |r| ensures KeyIndex(args, r[i].0) < KeyIndex(args, r[j].0) {
      assert r[j] == w[j - 1] && r[j] in w;
      if i > 0 {
        assert r[i] == w[i - 1];
      }
    }
  }

  /** The first entry of the arguments, put before entries ordered by the rest of them and with other keys, keeps the order. */
  lemma ConsKeepsOrder(args: seq<(string, string)>, rest: seq<(string, string)>)
    requires args != []
    requires InFirstOccurrenceOrder(rest, args[1..])
    requires forall p | p in rest :: p.0 != args[0].0
    ensures InFirstOccurrenceOrder([args[0]] + rest, args)
  {
    var r := [args[0]] + rest;
    forall i, j | 0 <= i < j < |r| ensures KeyIndex(args, r[i].0) < KeyIndex(args, r[j].0) {
      assert r[j] == rest[j - 1] && r[j] in rest;
      assert KeyIndex(args, r[j].0) == 1 + KeyIndex(args[1..], r[j].0);
      if i > 0 {
        assert r[i] == rest[i - 1] && r[i] in rest;
        assert KeyIndex(args, r[i].0) == 1 + KeyIndex(args[1..], r[i].0);
      }
    }
  }

  // ---------------------------------------------------------------------
  // The handlers on the session
  // ---------------------------------------------------------------------

  method PostEvent(db: Db, name: Option<string>, loaded: Option<EventFields>, now: int) returns (reply: Reply)
    requires db.Valid()
    modifies db
    ensures db.Valid()
    ensures Transition(db.Snapshot(), reply) == Create(old(db.Snapshot()), name, loaded, now)
  {
    if name.Some? && NameTaken(db.Snapshot(), name.value) {
      return Reply(400, Message(EventAlreadyExists));
    }
    if loaded.None? {
      return Reply(400, Message(ValidationFailed));
    }
    var e := NewEvent(db.Snapshot(), loaded.value);
    var saved := db.SaveEvent(e);
    if !saved {
      return Crash;
    }
    reply := Reply(201, EventDump(e, EventStatus(e, now)));
  }

  method PutEvent(db: Db, id: int, patch: EventPatch, now: int) returns (reply: Reply)
    requires db.Valid()
    modifies db
    ensures db.Valid()
    ensures Transition(db.Snapshot(), reply) == Update(old(db.Snapshot()), id, patch, now)
  {
    if id !in db.events {
      return Reply(404, Message(EventNotFound));
    }
    var saved := db.UpdateEvent(id, patch);
    if !saved {
      return Crash;
    }
    var e := db.events[id];
    reply := Reply(200, EventDump(e, EventStatus(e, now)));
  }

  method DeleteEvent(db: Db, id: int) returns (reply: Reply)
    requires db.Valid()
    modifies db
    ensures db.Valid()
    ensures Transition(db.Snapshot(), reply) == Destroy(old(db.Snapshot()), id)
  {
    if id in db.events {
      db.DeleteEvent(id);
      return Reply(404, Message(EventNotFound));
    }
    reply := Reply(404, Message(EventDeleted));
  }
}
