/**
 * The guest endpoints: a caller registering for an event and cancelling
 * that registration (`EventGuests.post`/`delete`), and the guest's own
 * profile being refreshed from the books service or deleted
 * (`GuestResource.put`/`delete`).
 *
 * Each handler is a function from the store before the request to the
 * store after it and the reply, and a method on `Db` that performs the
 * same steps in place.
 */
module GuestResource {
  import opened Common
  import opened Models
  import opened Http
  import Auth

  // ---------------------------------------------------------------------
  // What the handlers do
  // ---------------------------------------------------------------------

  /**
   * `EventGuests.post`: the event is looked up before the token is decoded;
   * a caller unknown locally is first saved as a guest under the name the
   * books service gives (the fetch's status is not looked at); then the
   * caller is added to the event's guests unless already there.
   */
  function Register(s: Store, eventId: int, decoded: Option<Auth.Claims>, now: int, profile: Profile): (t: Transition)
    ensures eventId !in s.events ==> t == Transition(s, Reply(404, Message(EventNotFound)))
    ensures eventId in s.events && Auth.DecodeToken(decoded, now).Err? ==>
      t == Transition(s, TokenReply(Auth.DecodeToken(decoded, now).error))
    // With a valid token carrying an id, the registration goes through
    // exactly when the caller is not yet a guest of the event and is either
    // known locally or can be saved under the name the books service gives;
    // the service's status code plays no part.
    ensures eventId in s.events && Auth.DecodeToken(decoded, now).Ok? && decoded.value.id.Some? ==>
      var g := decoded.value.id.value;
      (t.reply.code == 200 <==>
        && g !in GuestsOf(s, eventId)
        && (g in s.guests || (profile.name.Some? && GuestNameFree(s, Guest(g, profile.name.value)))))
    ensures t.reply.code == 200 ==>
      && decoded.Some? && decoded.value.id.Some?
      && var g := decoded.value.id.value;
      && g !in GuestsOf(s, eventId)
      && g in t.store.guests
      && GuestsOf(t.store, eventId) == GuestsOf(s, eventId) + {g}
      && t.store.guestEvents == s.guestEvents + {(g, eventId)}
    ensures t.reply.code == 400 && eventId in s.events && Auth.DecodeToken(decoded, now).Ok? ==>
      && t.reply == Reply(400, Message(UserAlreadyRegistered))
      && decoded.value.id.Some?
      && decoded.value.id.value in GuestsOf(s, eventId)
      && (WellFormed(s) ==> t.store == s)
    // Whatever happens, the only guest that can appear is the caller, the
    // only row that can appear is the caller's for this event, and nothing
    // else moves.
    ensures t.store.events == s.events && t.store.participants == s.participants
    ensures t.store.participantEvents == s.participantEvents
    ensures t.store.guestEvents >= s.guestEvents
    ensures t.reply.code != 200 ==> t.store.guestEvents == s.guestEvents
    ensures forall g | g in s.guests :: g in t.store.guests && t.store.guests[g] == s.guests[g]
    ensures t.store != s ==> decoded.Some? && decoded.value.id.Some? && eventId in s.events
    ensures t.store.guests.Keys <= s.guests.Keys + (if decoded.Some? && decoded.value.id.Some? then {decoded.value.id.value} else {})
    // A caller unknown locally is stored under the name the books service gave.
    ensures decoded.Some? && decoded.value.id.Some? && decoded.value.id.value !in s.guests && t.reply.code == 200 ==>
      var g := decoded.value.id.value;
      profile.name.Some? && t.store.guests == s.guests[g := Guest(g, profile.name.value)]
    // A request that fails with 500 (no id in the claims, no name upstream, a name taken) changes nothing.
    ensures t.reply.code == 500 ==> t.store == s
    ensures WellFormed(s) ==> WellFormed(t.store)
  {
    if eventId !in s.events then
      Transition(s, Reply(404, Message(EventNotFound)))
    else match Auth.DecodeToken(decoded, now)
      case Err(e) => Transition(s, TokenReply(e))
      case Ok(claims) =>
        match claims.id
        case None => Transition(s, Crash)
        case Some(g) =>
          if g !in s.guests && profile.name.None? then Transition(s, Crash)
          else if g !in s.guests && !GuestNameFree(s, Guest(g, profile.name.value)) then Transition(s, Crash)
          else
            var s1 := if g in s.guests then s else WithGuest(s, Guest(g, profile.name.value));
            if g in GuestsOf(s1, eventId) then
              Transition(s1, Reply(400, Message(UserAlreadyRegistered)))
            else
              Transition(WithGuestRow(s1, g, eventId), Reply(200, Message(RegisteredForEvent)))
  }

  /**
   * `EventGuests.delete`: 404 for an unknown event, then 400 when the caller
   * is not a guest of it (unknown or not registered), otherwise the caller's
   * registration is removed.
   */
  function Unregister(s: Store, eventId: int, decoded: Option<Auth.Claims>, now: int): (t: Transition)
    ensures eventId !in s.events ==> t == Transition(s, Reply(404, Message(EventNotFound)))
    ensures eventId in s.events && Auth.DecodeToken(decoded, now).Err? ==>
      t == Transition(s, TokenReply(Auth.DecodeToken(decoded, now).error))
    ensures eventId in s.events && Auth.DecodeToken(decoded, now).Ok? && decoded.value.id.Some? ==>
      var g := decoded.value.id.value;
      && (t.reply.code == 200 <==> g in s.guests && g in GuestsOf(s, eventId))
      && (g !in s.guests || g !in GuestsOf(s, eventId) ==> t == Transition(s, Reply(400, Message(UserNotRegistered))))
    ensures t.reply.code == 200 ==>
      && decoded.Some? && decoded.value.id.Some?
      && var g := decoded.value.id.value;
      && g !in GuestsOf(t.store, eventId)
      && GuestsOf(t.store, eventId) == GuestsOf(s, eventId) - {g}
      && t.store == s.(guestEvents := s.guestEvents - {(g, eventId)})
    ensures t.reply.code != 200 ==> t.store == s
    ensures WellFormed(s) ==> WellFormed(t.store)
  {
    if eventId !in s.events then
      Transition(s, Reply(404, Message(EventNotFound)))
    else match Auth.DecodeToken(decoded, now)
      case Err(e) => Transition(s, TokenReply(e))
      case Ok(claims) =>
        match claims.id
        case None => Transition(s, Crash)
        case Some(g) =>
          if g !in s.guests || g !in GuestsOf(s, eventId) then
            Transition(s, Reply(400, Message(UserNotRegistered)))
          else
            Transition(WithoutGuestRow(s, g, eventId), Reply(200, Message(UnregisteredFromEvent)))
  }

  /**
   * `GuestResource.put`: a guest is created or renamed with the name the
   * books service gives, but only when the service answers 200.
   */
  function UpsertProfile(s: Store, id: int, profile: Profile): (t: Transition)
    ensures profile.status != 200 ==> t == Transition(s, Reply(500, Message(ErrorLoadingUser)))
    ensures t.reply.code == 200 <==>
      profile.status == 200 && profile.name.Some? && GuestNameFree(s, Guest(id, profile.name.value))
    ensures t.reply.code == 200 ==>
      && t.reply == Reply(200, Message(ProfileUpdated))
      && t.store.guests == s.guests[id := Guest(id, profile.name.value)]
      && t.store == s.(guests := t.store.guests)
    ensures t.reply.code != 200 ==> t.store == s
    ensures WellFormed(s) ==> WellFormed(t.store)
  {
    if profile.status != 200 then
      Transition(s, Reply(500, Message(ErrorLoadingUser)))
    else match profile.name
      case None => Transition(s, Crash)
      case Some(name) =>
        if !GuestNameFree(s, Guest(id, name)) then Transition(s, Crash)
        else Transition(WithGuest(s, Guest(id, name)), Reply(200, Message(ProfileUpdated)))
  }

  /** `GuestResource.delete`: 404 for an unknown guest, otherwise the guest and its registrations go. */
  function DeleteProfile(s: Store, id: int): (t: Transition)
    ensures t.reply.code == 200 <==> id in s.guests
    ensures id !in s.guests ==> t == Transition(s, Reply(404, Message(UserNotFound)))
    ensures id in s.guests ==>
      && t.reply == Reply(200, Message(UserDeleted))
      && t.store.guests == s.guests - {id}
      && (forall e :: id !in GuestsOf(t.store, e))
      && (forall e | e in s.events :: GuestsOf(t.store, e) == GuestsOf(s, e) - {id})
      && t.store.events == s.events && t.store.participants == s.participants
      && t.store.participantEvents == s.participantEvents
    ensures WellFormed(s) ==> WellFormed(t.store)
  {
    if id !in s.guests then Transition(s, Reply(404, Message(UserNotFound)))
    else Transition(WithoutGuest(s, id), Reply(200, Message(UserDeleted)))
  }

  // ---------------------------------------------------------------------
  // Properties across requests
  // ---------------------------------------------------------------------

  /**
   * A registration followed by its cancellation leaves every event's guest
   * rows as they were; the guest record created on the way stays.
   */
  lemma RegisterThenUnregister(s: Store, eventId: int, decoded: Option<Auth.Claims>, now: int, profile: Profile)
    requires Register(s, eventId, decoded, now, profile).reply.code == 200
    ensures var t1 := Register(s, eventId, decoded, now, profile);
      var t2 := Unregister(t1.store, eventId, decoded, now);
      && t2.reply == Reply(200, Message(UnregisteredFromEvent))
      && t2.store.guestEvents == s.guestEvents
      && GuestsOf(t2.store, eventId) == GuestsOf(s, eventId)
  {
    var t1 := Register(s, eventId, decoded, now, profile);
    var g := decoded.value.id.value;
    assert (g, eventId) !in s.guestEvents;
    assert (s.guestEvents + {(g, eventId)}) - {(g, eventId)} == s.guestEvents;
  }

  /** Registering twice: the second request is refused with 400 and changes nothing. */
  lemma RegisterTwice(s: Store, eventId: int, decoded: Option<Auth.Claims>, now: int, p1: Profile, p2: Profile)
    requires Register(s, eventId, decoded, now, p1).reply.code == 200
    ensures var t1 := Register(s, eventId, decoded, now, p1);
      Register(t1.store, eventId, decoded, now, p2) == Transition(t1.store, Reply(400, Message(UserAlreadyRegistered)))
  {
    var t1 := Register(s, eventId, decoded, now, p1);
    var g := decoded.value.id.value;
    assert g in GuestsOf(t1.store, eventId);
  }

  /** Deleting a profile twice: the second request finds nothing and answers 404. */
  lemma DeleteProfileTwice(s: Store, id: int)
    requires id in s.guests
    ensures var t1 := DeleteProfile(s, id);
      DeleteProfile(t1.store, id) == Transition(t1.store, Reply(404, Message(UserNotFound)))
  {
  }

  // ---------------------------------------------------------------------
  // The handlers on the session
  // ---------------------------------------------------------------------

  method EventGuestsPost(db: Db, eventId: int, decoded: Option<Auth.Claims>, now: int, profile: Profile) returns (reply: Reply)
    requires db.Valid()
    modifies db
    ensures db.Valid()
    ensures Transition(db.Snapshot(), reply) == Register(old(db.Snapshot()), eventId, decoded, now, profile)
  {
    if eventId !in db.events {
      return Reply(404, Message(EventNotFound));
    }
    var claims := Auth.DecodeToken(decoded, now);
    if claims.Err? {
      return TokenReply(claims.error);
    }
    if claims.value.id.None? {
      return Crash;
    }
    var g := claims.value.id.value;
    if g !in db.guests {
      if profile.name.None? {
        return Crash;
      }
      var saved := db.SaveGuest(Guest(g, profile.name.value));
      if !saved {
        return Crash;
      }
    }
    if (g, eventId) in db.guestEvents {
      return Reply(400, Message(UserAlreadyRegistered));
    }
    db.AddGuestRow(g, eventId);
    reply := Reply(200, Message(RegisteredForEvent));
  }

  method EventGuestsDelete(db: Db, eventId: int, decoded: Option<Auth.Claims>, now: int) returns (reply: Reply)
    requires db.Valid()
    modifies db
    ensures db.Valid()
    ensures Transition(db.Snapshot(), reply) == Unregister(old(db.Snapshot()), eventId, decoded, now)
  {
    if eventId !in db.events {
      return Reply(404, Message(EventNotFound));
    }
    var claims := Auth.DecodeToken(decoded, now);
    if claims.Err? {
      return TokenReply(claims.error);
    }
    if claims.value.id.None? {
      return Crash;
    }
    var g := claims.value.id.value;
    if g !in db.guests || (g, eventId) !in db.guestEvents {
      return Reply(400, Message(UserNotRegistered));
    }
    db.RemoveGuestRow(g, eventId);
    reply := Reply(200, Message(UnregisteredFromEvent));
  }

  method GuestPut(db: Db, id: int, profile: Profile) returns (reply: Reply)
    requires db.Valid()
    modifies db
    ensures db.Valid()
    ensures Transition(db.Snapshot(), reply) == UpsertProfile(old(db.Snapshot()), id, profile)
  {
    if profile.status != 200 {
      return Reply(500, Message(ErrorLoadingUser));
    }
    if profile.name.None? {
      return Crash;
    }
    var saved := db.SaveGuest(Guest(id, profile.name.value));
    if !saved {
      return Crash;
    }
    reply := Reply(200, Message(ProfileUpdated));
  }

  method GuestDelete(db: Db, id: int) returns (reply: Reply)
    requires db.Valid()
    modifies db
    ensures db.Valid()
    ensures Transition(db.Snapshot(), reply) == DeleteProfile(old(db.Snapshot()), id)
  {
    if id !in db.guests {
      return Reply(404, Message(UserNotFound));
    }
    db.DeleteGuest(id);
    reply := Reply(200, Message(UserDeleted));
  }
}
