/**
 * The participant endpoints (`CreateDestroyParticipants.post`/`delete`): an
 * admin adds or removes a list of authors as participants of an event. The
 * ids are handled in list order and each step is committed on its own, so
 * a request that stops at a bad id keeps the steps before it.
 */
module ParticipantResource {
  import opened Common
  import opened Models
  import opened Http

  /** No id appears twice. */
  predicate Distinct(ids: seq<int>) {
    forall i, j | 0 <= i < j < |ids| :: ids[i] != ids[j]
  }

  /** The membership rows joining each of the ids to the event. */
  function RowsFor(ids: seq<int>, eventId: int): (r: set<(int, int)>)
    ensures forall p :: (p, eventId) in r <==> p in ids
  {
    set p | p in ids :: (p, eventId)
  }

  /** The rows of a prefix one id longer: that id's row and the rows of the shorter prefix. */
  lemma RowsForStep(ids: seq<int>, k: int, eventId: int)
    requires |ids| > 0 && 0 <= k < |ids|
    ensures RowsFor(ids[..k + 1], eventId) == {(ids[0], eventId)} + RowsFor(ids[1..][..k], eventId)
  {
    assert ids[..k + 1] == [ids[0]] + ids[1..][..k];
  }

  // ---------------------------------------------------------------------
  // Adding
  // ---------------------------------------------------------------------

  /** One turn of a batch loop: go on with the store so far, or stop with a reply. */
  datatype Step = Continue(store: Store) | Stop(result: Transition)

  /**
   * One turn of the loop of `post`. An author unknown locally is first
   * saved under the name the books service gives (`author`); a missing name
   * breaks the NOT NULL constraint on the name and the request fails with
   * what was committed so far. An author that already is a participant
   * stops the loop with 400; otherwise the author joins the event.
   */
  function AddOne(s: Store, eventId: int, p: int, author: int -> Option<string>): (r: Step)
    ensures r.Continue? <==> (p in s.participants || author(p).Some?) && p !in ParticipantsOf(s, eventId)
    ensures r.Continue? ==>
      && r.store.participantEvents == s.participantEvents + {(p, eventId)}
      && r.store.participants.Keys == s.participants.Keys + {p}
    ensures r.Stop? ==>
      && r.result.store.participantEvents == s.participantEvents
      && (r.result.reply == Crash || r.result.reply == Reply(400, Message(AuthorAlreadyRegistered(p))))
      && (r.result.reply == Crash <==> p !in s.participants && author(p).None?)
    ensures var s' := if r.Continue? then r.store else r.result.store;
      && s'.events == s.events && s'.guests == s.guests && s'.guestEvents == s.guestEvents
      && (forall q | q in s.participants :: q in s'.participants && s'.participants[q] == s.participants[q])
      && (WellFormed(s) && eventId in s.events ==> WellFormed(s'))
  {
    if p !in s.participants && author(p).None? then
      Stop(Transition(s, Crash))
    else
      var s1 := if p in s.participants then s else WithParticipant(s, Participant(p, author(p).value));
      if p in ParticipantsOf(s1, eventId) then
        Stop(Transition(s1, Reply(400, Message(AuthorAlreadyRegistered(p)))))
      else
        Continue(WithParticipantRow(s1, p, eventId))
  }

  /** The loop of `post` from the current id on. */
  function AddEach(s: Store, eventId: int, ids: seq<int>, author: int -> Option<string>): (t: Transition)
    ensures t.store.events == s.events && t.store.guests == s.guests && t.store.guestEvents == s.guestEvents
    ensures forall p | p in s.participants :: p in t.store.participants && t.store.participants[p] == s.participants[p]
    ensures WellFormed(s) && eventId in s.events ==> WellFormed(t.store)
    decreases |ids|
  {
    if ids == [] then
      Transition(s, Reply(200, Message(ParticipantsRegistered)))
    else match AddOne(s, eventId, ids[0], author)
      case Stop(t) => t
      case Continue(s2) => AddEach(s2, eventId, ids[1..], author)
  }

  /** `CreateDestroyParticipants.post`: 404 for an unknown event before any id is looked at. */
  function AddAll(s: Store, eventId: int, ids: seq<int>, author: int -> Option<string>): (t: Transition)
    ensures eventId !in s.events ==> t == Transition(s, Reply(404, Message(EventNotFound)))
    ensures eventId in s.events ==> t == AddEach(s, eventId, ids, author)
  {
    if eventId !in s.events then Transition(s, Reply(404, Message(EventNotFound)))
    else AddEach(s, eventId, ids, author)
  }

  /** Every id can be added: listed once, not a participant of the event yet, and known or named upstream. */
  predicate AddsCleanly(s: Store, eventId: int, ids: seq<int>, author: int -> Option<string>) {
    && Distinct(ids)
    && forall i | 0 <= i < |ids| ::
         ids[i] !in ParticipantsOf(s, eventId) && (ids[i] in s.participants || author(ids[i]).Some?)
  }

  /** A list without repeats: a first id not repeated later, then a list without repeats. */
  lemma DistinctCons(ids: seq<int>)
    requires ids != []
    ensures Distinct(ids) <==> ids[0] !in ids[1..] && Distinct(ids[1..])
  {
    var rest := ids[1..];
    if Distinct(ids) {
      forall i, j | 0 <= i < j < |rest| ensures rest[i] != rest[j] {
        assert rest[i] == ids[i + 1] && rest[j] == ids[j + 1];
      }
      forall i | 0 <= i < |rest| ensures rest[i] != ids[0] {
        assert rest[i] == ids[i + 1];
      }
    }
    if ids[0] !in rest && Distinct(rest) {
      forall i, j | 0 <= i < j < |ids| ensures ids[i] != ids[j] {
        assert ids[j] == rest[j - 1];
        if i > 0 {
          assert ids[i] == rest[i - 1];
        }
      }
    }
  }

  /** Whether a list can be added, told by its first id and, after that id has joined, by the rest. */
  lemma AddsCleanlyCons(s: Store, s2: Store, eventId: int, ids: seq<int>, author: int -> Option<string>)
    requires ids != []
    requires ParticipantsOf(s2, eventId) == ParticipantsOf(s, eventId) + {ids[0]}
    requires s2.participants.Keys == s.participants.Keys + {ids[0]}
    ensures AddsCleanly(s, eventId, ids, author) <==>
      && ids[0] !in ParticipantsOf(s, eventId) && (ids[0] in s.participants || author(ids[0]).Some?)
      && AddsCleanly(s2, eventId, ids[1..], author)
  {
    var rest := ids[1..];
    DistinctCons(ids);
    assert forall i | 0 <= i < |rest| :: rest[i] == ids[i + 1];
    if && AddsCleanly(s2, eventId, rest, author)
       && ids[0] !in ParticipantsOf(s, eventId) && (ids[0] in s.participants || author(ids[0]).Some?)
    {
      assert ids[0] !in rest by {
        forall i | 0 <= i < |rest| ensures rest[i] != ids[0] {
          assert rest[i] !in ParticipantsOf(s2, eventId);
        }
      }
      forall i | 0 <= i < |ids|
        ensures ids[i] !in ParticipantsOf(s, eventId) && (ids[i] in s.participants || author(ids[i]).Some?)
      {
        if i > 0 {
          assert ids[i] == rest[i - 1];
          assert ids[i] !in ParticipantsOf(s2, eventId);
        }
      }
    }
  }

  /** The batch succeeds exactly when every id can be added. */
  lemma {:induction false} AddEachSucceedsIff(s: Store, eventId: int, ids: seq<int>, author: int -> Option<string>)
    ensures AddEach(s, eventId, ids, author).reply.code == 200 <==> AddsCleanly(s, eventId, ids, author)
    decreases |ids|
  {
    if ids != [] {
      var step := AddOne(s, eventId, ids[0], author);
      if step.Continue? {
        AddEachSucceedsIff(step.store, eventId, ids[1..], author);
        AddsCleanlyCons(s, step.store, eventId, ids, author);
      } else {
        assert step.result.reply.code != 200;
      }
    }
  }

  /** A prefix of the ids can be added exactly when, after a clean first step, the rest of it can. */
  lemma AddsCleanlyPrefixCons(s: Store, s2: Store, eventId: int, ids: seq<int>, k: nat, author: int -> Option<string>)
    requires k < |ids|
    requires ParticipantsOf(s2, eventId) == ParticipantsOf(s, eventId) + {ids[0]}
    requires s2.participants.Keys == s.participants.Keys + {ids[0]}
    requires ids[0] !in ParticipantsOf(s, eventId) && (ids[0] in s.participants || author(ids[0]).Some?)
    ensures AddsCleanly(s, eventId, ids[..k + 1], author) <==> AddsCleanly(s2, eventId, ids[1..][..k], author)
  {
    var pre := ids[..k + 1];
    assert pre[0] == ids[0] && pre[1..] == ids[1..][..k];
    AddsCleanlyCons(s, s2, eventId, pre, author);
  }

  /**
   * The outcome `t` of the loop of `post` over `ids` committed the rows of
   * the first `k` ids: the longest prefix that can be added cleanly. It is
   * all of them exactly on success; otherwise the id after it is the one
   * that stopped the loop, which a 400 names.
   */
  predicate AddedPrefix(s: Store, eventId: int, ids: seq<int>, author: int -> Option<string>, t: Transition, k: int) {
    && 0 <= k <= |ids|
    && t.store.participantEvents == s.participantEvents + RowsFor(ids[..k], eventId)
    && AddsCleanly(s, eventId, ids[..k], author)
    && (k < |ids| ==> !AddsCleanly(s, eventId, ids[..k + 1], author))
    && (t.reply.code == 200 <==> k == |ids|)
    && (t.reply.code == 400 ==> k < |ids| && t.reply == Reply(400, Message(AuthorAlreadyRegistered(ids[k]))))
  }

  /** What the loop committed from the second id on, seen from before a clean first step. */
  lemma AddedPrefixCons(s: Store, s2: Store, eventId: int, ids: seq<int>, author: int -> Option<string>, t: Transition, k: int)
    requires ids != []
    requires s2.participantEvents == s.participantEvents + {(ids[0], eventId)}
    requires ParticipantsOf(s2, eventId) == ParticipantsOf(s, eventId) + {ids[0]}
    requires s2.participants.Keys == s.participants.Keys + {ids[0]}
    requires ids[0] !in ParticipantsOf(s, eventId) && (ids[0] in s.participants || author(ids[0]).Some?)
    requires AddedPrefix(s2, eventId, ids[1..], author, t, k)
    ensures AddedPrefix(s, eventId, ids, author, t, k + 1)
  {
    var rest := ids[1..];
    RowsForStep(ids, k, eventId);
    AddsCleanlyPrefixCons(s, s2, eventId, ids, k, author);
    if k < |rest| {
      AddsCleanlyPrefixCons(s, s2, eventId, ids, k + 1, author);
      assert ids[k + 1] == rest[k];
    }
  }

  /** Whatever the outcome, the loop of `post` committed the rows of the longest prefix that can be added cleanly. */
  lemma {:induction false} AddEachCommitsPrefix(s: Store, eventId: int, ids: seq<int>, author: int -> Option<string>)
    ensures exists k :: AddedPrefix(s, eventId, ids, author, AddEach(s, eventId, ids, author), k)
    decreases |ids|
  {
    var t := AddEach(s, eventId, ids, author);
    assert ids[..0] == [];
    if ids == [] {
      assert AddedPrefix(s, eventId, ids, author, t, 0);
    } else if AddOne(s, eventId, ids[0], author).Stop? {
      assert ids[..1][0] == ids[0];
      assert AddedPrefix(s, eventId, ids, author, t, 0);
    } else {
      var s2 := AddOne(s, eventId, ids[0], author).store;
      assert t == AddEach(s2, eventId, ids[1..], author);
      AddEachCommitsPrefix(s2, eventId, ids[1..], author);
      var k :| AddedPrefix(s2, eventId, ids[1..], author, t, k);
      AddedPrefixCons(s, s2, eventId, ids, author, t, k);
    }
  }

  /** On success every listed id is a participant of the event, and no one else became one. */
  lemma AddAllMakesMembers(s: Store, eventId: int, ids: seq<int>, author: int -> Option<string>)
    requires AddAll(s, eventId, ids, author).reply.code == 200
    ensures var t := AddAll(s, eventId, ids, author);
      && t.store.participantEvents == s.participantEvents + RowsFor(ids, eventId)
      && (forall i | 0 <= i < |ids| :: ids[i] in ParticipantsOf(t.store, eventId))
      && ParticipantsOf(t.store, eventId) == ParticipantsOf(s, eventId) + set p | p in ids
  {
    AddEachCommitsPrefix(s, eventId, ids, author);
    assert ids[..|ids|] == ids;
  }

  /**
   * The loop reaches an id that repeats an earlier one, or that already is
   * a participant, when every id before it goes in cleanly; it stops there
   * with the 400 that names it.
   */
  lemma {:induction false} AddEachStopsAtRepeat(s: Store, eventId: int, ids: seq<int>, j: nat, author: int -> Option<string>)
    requires j < |ids| && AddsCleanly(s, eventId, ids[..j], author)
    requires ids[j] in ids[..j] || (ids[j] in ParticipantsOf(s, eventId) && ids[j] in s.participants)
    ensures AddEach(s, eventId, ids, author).reply == Reply(400, Message(AuthorAlreadyRegistered(ids[j])))
    decreases j
  {
    if j == 0 {
      assert ids[..0] == [];
    } else {
      assert ids[..j][0] == ids[0];
      var s2 := AddOne(s, eventId, ids[0], author).store;
      var rest := ids[1..];
      AddsCleanlyPrefixCons(s, s2, eventId, ids, j - 1, author);
      assert ids[j] == rest[j - 1];
      assert ids[..j] == [ids[0]] + rest[..j - 1];
      AddEachStopsAtRepeat(s2, eventId, rest, j - 1, author);
    }
  }

  /**
   * The same id twice in one body: the request cannot succeed, and when
   * the ids before the second occurrence all go in, it stops there with the
   * 400 that names it.
   */
  lemma DuplicateRefused(s: Store, eventId: int, ids: seq<int>, author: int -> Option<string>, i: int, j: int)
    requires 0 <= i < j < |ids| && ids[i] == ids[j]
    ensures AddAll(s, eventId, ids, author).reply.code != 200
    ensures eventId in s.events && AddsCleanly(s, eventId, ids[..j], author) ==>
      AddAll(s, eventId, ids, author).reply == Reply(400, Message(AuthorAlreadyRegistered(ids[j])))
  {
    if eventId in s.events {
      AddEachSucceedsIff(s, eventId, ids, author);
      if AddsCleanly(s, eventId, ids[..j], author) {
        assert ids[..j][i] == ids[j];
        AddEachStopsAtRepeat(s, eventId, ids, j, author);
      }
    }
  }

  // ---------------------------------------------------------------------
  // Removing
  // ---------------------------------------------------------------------

  /**
   * One turn of the loop of `delete`: an id that is not a known participant
   * of the event stops the loop with 404; otherwise it leaves the event.
   */
  function RemoveOne(s: Store, eventId: int, p: int): (r: Step)
    ensures r.Continue? <==> p in s.participants && p in ParticipantsOf(s, eventId)
    ensures r.Continue? ==> r.store == s.(participantEvents := s.participantEvents - {(p, eventId)})
    ensures r.Stop? ==> r.result == Transition(s, Reply(404, Message(ParticipantNotFound(p))))
    ensures r.Continue? && WellFormed(s) ==> WellFormed(r.store)
  {
    if p !in s.participants || p !in ParticipantsOf(s, eventId) then
      Stop(Transition(s, Reply(404, Message(ParticipantNotFound(p)))))
    else
      Continue(WithoutParticipantRow(s, p, eventId))
  }

  /** The loop of `delete` from the current id on. */
  function RemoveEach(s: Store, eventId: int, ids: seq<int>): (t: Transition)
    ensures t.store == s.(participantEvents := t.store.participantEvents)
    ensures t.store.participantEvents <= s.participantEvents
    ensures WellFormed(s) ==> WellFormed(t.store)
    decreases |ids|
  {
    if ids == [] then
      Transition(s, Reply(200, Message(ParticipantsUnregistered)))
    else match RemoveOne(s, eventId, ids[0])
      case Stop(t) => t
      case Continue(s2) => RemoveEach(s2, eventId, ids[1..])
  }

  /** `CreateDestroyParticipants.delete`: 404 for an unknown event before any id is looked at. */
  function RemoveAll(s: Store, eventId: int, ids: seq<int>): (t: Transition)
    ensures eventId !in s.events ==> t == Transition(s, Reply(404, Message(EventNotFound)))
    ensures eventId in s.events ==> t == RemoveEach(s, eventId, ids)
  {
    if eventId !in s.events then Transition(s, Reply(404, Message(EventNotFound)))
    else RemoveEach(s, eventId, ids)
  }

  /** Every id can be removed: listed once and a known participant of the event. */
  predicate RemovesCleanly(s: Store, eventId: int, ids: seq<int>) {
    && Distinct(ids)
    && forall i | 0 <= i < |ids| :: ids[i] in s.participants && ids[i] in ParticipantsOf(s, eventId)
  }

  /** Whether a list can be removed, told by its first id and, after that id has left, by the rest. */
  lemma RemovesCleanlyCons(s: Store, s2: Store, eventId: int, ids: seq<int>)
    requires ids != []
    requires ParticipantsOf(s2, eventId) == ParticipantsOf(s, eventId) - {ids[0]}
    requires s2.participants == s.participants
    ensures RemovesCleanly(s, eventId, ids) <==>
      && ids[0] in s.participants && ids[0] in ParticipantsOf(s, eventId)
      && RemovesCleanly(s2, eventId, ids[1..])
  {
    var rest := ids[1..];
    DistinctCons(ids);
    assert forall i | 0 <= i < |rest| :: rest[i] == ids[i + 1];
    if RemovesCleanly(s2, eventId, rest) && ids[0] in s.participants && ids[0] in ParticipantsOf(s, eventId) {
      forall i | 0 <= i < |ids| ensures ids[i] in s.participants && ids[i] in ParticipantsOf(s, eventId) {
        if i > 0 {
          assert ids[i] == rest[i - 1];
        }
      }
    }
  }

  /** The batch removal succeeds exactly when every id can be removed. */
  lemma {:induction false} RemoveEachSucceedsIff(s: Store, eventId: int, ids: seq<int>)
    ensures RemoveEach(s, eventId, ids).reply.code == 200 <==> RemovesCleanly(s, eventId, ids)
    decreases |ids|
  {
    if ids != [] {
      var step := RemoveOne(s, eventId, ids[0]);
      if step.Continue? {
        RemoveEachSucceedsIff(step.store, eventId, ids[1..]);
        RemovesCleanlyCons(s, step.store, eventId, ids);
      }
    }
  }

  /** A prefix of the ids can be removed exactly when, after a clean first step, the rest of it can. */
  lemma RemovesCleanlyPrefixCons(s: Store, s2: Store, eventId: int, ids: seq<int>, k: nat)
    requires k < |ids|
    requires ParticipantsOf(s2, eventId) == ParticipantsOf(s, eventId) - {ids[0]}
    requires s2.participants == s.participants
    requires ids[0] in s.participants && ids[0] in ParticipantsOf(s, eventId)
    ensures RemovesCleanly(s, eventId, ids[..k + 1]) <==> RemovesCleanly(s2, eventId, ids[1..][..k])
  {
    var pre := ids[..k + 1];
    assert pre[0] == ids[0] && pre[1..] == ids[1..][..k];
    RemovesCleanlyCons(s, s2, eventId, pre);
  }

  /**
   * The outcome `t` of the loop of `delete` over `ids` removed the rows of
   * the first `k` ids: the longest prefix that can be removed cleanly. It is
   * all of them exactly on success; otherwise the id after it is the one
   * that stopped the loop, which the 404 names.
   */
  predicate RemovedPrefix(s: Store, eventId: int, ids: seq<int>, t: Transition, k: int) {
    && 0 <= k <= |ids|
    && t.store.participantEvents == s.participantEvents - RowsFor(ids[..k], eventId)
    && RemovesCleanly(s, eventId, ids[..k])
    && (k < |ids| ==> !RemovesCleanly(s, eventId, ids[..k + 1]))
    && (t.reply.code == 200 <==> k == |ids|)
    && (t.reply.code == 404 ==> k < |ids| && t.reply == Reply(404, Message(ParticipantNotFound(ids[k]))))
  }

  /** What the loop removed from the second id on, seen from before a clean first step. */
  lemma RemovedPrefixCons(s: Store, s2: Store, eventId: int, ids: seq<int>, t: Transition, k: int)
    requires ids != []
    requires s2.participantEvents == s.participantEvents - {(ids[0], eventId)}
    requires ParticipantsOf(s2, eventId) == ParticipantsOf(s, eventId) - {ids[0]}
    requires s2.participants == s.participants
    requires ids[0] in s.participants && ids[0] in ParticipantsOf(s, eventId)
    requires RemovedPrefix(s2, eventId, ids[1..], t, k)
    ensures RemovedPrefix(s, eventId, ids, t, k + 1)
  {
    var rest := ids[1..];
    RowsForStep(ids, k, eventId);
    RemovesCleanlyPrefixCons(s, s2, eventId, ids, k);
    if k < |rest| {
      RemovesCleanlyPrefixCons(s, s2, eventId, ids, k + 1);
      assert ids[k + 1] == rest[k];
    }
  }

  /** Whatever the outcome, the loop of `delete` removed the rows of the longest prefix that can be removed cleanly. */
  lemma {:induction false} RemoveEachCommitsPrefix(s: Store, eventId: int, ids: seq<int>)
    ensures exists k :: RemovedPrefix(s, eventId, ids, RemoveEach(s, eventId, ids), k)
    decreases |ids|
  {
    var t := RemoveEach(s, eventId, ids);
    assert ids[..0] == [];
    if ids == [] {
      assert RemovedPrefix(s, eventId, ids, t, 0);
    } else if RemoveOne(s, eventId, ids[0]).Stop? {
      assert ids[..1][0] == ids[0];
      assert RemovedPrefix(s, eventId, ids, t, 0);
    } else {
      var s2 := RemoveOne(s, eventId, ids[0]).store;
      RemoveEachCommitsPrefix(s2, eventId, ids[1..]);
      var k :| RemovedPrefix(s2, eventId, ids[1..], t, k);
      RemovedPrefixCons(s, s2, eventId, ids, t, k);
    }
  }

  /** On success none of the listed ids is a participant of the event any more, and nobody else left. */
  lemma RemoveAllDropsMembers(s: Store, eventId: int, ids: seq<int>)
    requires RemoveAll(s, eventId, ids).reply.code == 200
    ensures var t := RemoveAll(s, eventId, ids);
      && t.store.participantEvents == s.participantEvents - RowsFor(ids, eventId)
      && (forall i | 0 <= i < |ids| :: ids[i] !in ParticipantsOf(t.store, eventId))
      && ParticipantsOf(t.store, eventId) == ParticipantsOf(s, eventId) - set p | p in ids
  {
    RemoveEachCommitsPrefix(s, eventId, ids);
    assert ids[..|ids|] == ids;
  }

  /** Adding a batch and then removing the same batch restores the event's participants. */
  lemma AddThenRemove(s: Store, eventId: int, ids: seq<int>, author: int -> Option<string>)
    requires WellFormed(s)
    requires AddAll(s, eventId, ids, author).reply.code == 200
    ensures var t1 := AddAll(s, eventId, ids, author);
      var t2 := RemoveAll(t1.store, eventId, ids);
      && t2.reply.code == 200
      && t2.store.participantEvents == s.participantEvents
  {
    var t1 := AddAll(s, eventId, ids, author);
    var rows := RowsFor(ids, eventId);
    assert eventId in s.events;
    AddAllMakesMembers(s, eventId, ids, author);
    assert WellFormed(t1.store);
    assert RemovesCleanly(t1.store, eventId, ids) by {
      AddEachSucceedsIff(s, eventId, ids, author);
      forall i | 0 <= i < |ids| ensures ids[i] in t1.store.participants {
        assert (ids[i], eventId) in t1.store.participantEvents;
      }
    }
    RemoveEachSucceedsIff(t1.store, eventId, ids);
    RemoveAllDropsMembers(t1.store, eventId, ids);
    assert rows * s.participantEvents == {} by {
      AddEachSucceedsIff(s, eventId, ids, author);
      forall row | row in rows ensures row !in s.participantEvents {
        var i :| 0 <= i < |ids| && ids[i] == row.0;
        assert ids[i] !in ParticipantsOf(s, eventId);
      }
    }
    assert (s.participantEvents + rows) - rows == s.participantEvents;
  }

  // ---------------------------------------------------------------------
  // The handlers on the session
  // ---------------------------------------------------------------------

  /** One turn of the loop of `post`, in place: `None` when the loop goes on. */
  method AddParticipant(db: Db, eventId: int, p: int, author: int -> Option<string>) returns (stop: Option<Reply>)
    requires db.Valid() && eventId in db.events
    modifies db
    ensures db.Valid() && eventId in db.events
    ensures AddOne(old(db.Snapshot()), eventId, p, author) ==
      if stop.None? then Continue(db.Snapshot()) else Stop(Transition(db.Snapshot(), stop.value))
  {
    if p !in db.participants {
      var name := author(p);
      if name.None? {
        return Some(Crash);
      }
      db.SaveParticipant(Participant(p, name.value));
    }
    if (p, eventId) in db.participantEvents {
      return Some(Reply(400, Message(AuthorAlreadyRegistered(p))));
    }
    db.AddParticipantRow(p, eventId);
    stop := None;
  }

  method PostParticipants(db: Db, eventId: int, ids: seq<int>, author: int -> Option<string>) returns (reply: Reply)
    requires db.Valid()
    modifies db
    ensures db.Valid()
    ensures Transition(db.Snapshot(), reply) == AddAll(old(db.Snapshot()), eventId, ids, author)
  {
    if eventId !in db.events {
      return Reply(404, Message(EventNotFound));
    }
    var i := 0;
    while i < |ids|
      invariant 0 <= i <= |ids|
      invariant db.Valid() && eventId in db.events
      invariant AddEach(old(db.Snapshot()), eventId, ids, author) == AddEach(db.Snapshot(), eventId, ids[i..], author)
    {
      assert ids[i..][0] == ids[i] && ids[i..][1..] == ids[i + 1..];
      var stop := AddParticipant(db, eventId, ids[i], author);
      if stop.Some? {
        return stop.value;
      }
      i := i + 1;
    }
    reply := Reply(200, Message(ParticipantsRegistered));
  }

  method DeleteParticipants(db: Db, eventId: int, ids: seq<int>) returns (reply: Reply)
    requires db.Valid()
    modifies db
    ensures db.Valid()
    ensures Transition(db.Snapshot(), reply) == RemoveAll(old(db.Snapshot()), eventId, ids)
  {
    if eventId !in db.events {
      return Reply(404, Message(EventNotFound));
    }
    var i := 0;
    while i < |ids|
      invariant 0 <= i <= |ids|
      invariant db.Valid() && eventId in db.events
      invariant RemoveEach(old(db.Snapshot()), eventId, ids) == RemoveEach(db.Snapshot(), eventId, ids[i..])
    {
      var p := ids[i];
      assert ids[i..][0] == p && ids[i..][1..] == ids[i + 1..];
      if p !in db.participants || (p, eventId) !in db.participantEvents {
        return Reply(404, Message(ParticipantNotFound(p)));
      }
      db.RemoveParticipantRow(p, eventId);
      i := i + 1;
    }
    reply := Reply(200, Message(ParticipantsUnregistered));
  }
}
