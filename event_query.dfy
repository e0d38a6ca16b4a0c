/**
 * The event listing pipeline: the status, participant and guest filters,
 * `get_list` applying them one after another, ordering by id and cutting
 * out one page.
 */
module EventQuery {
  import opened Common
  import opened Numerals
  import opened Models

  /** A query-string filter: its key and its raw value. */
  type Filter = (string, string)

  /** Why `get_list` raised: `int()` refused a participant or guest id. */
  datatype ListError = NotAnInteger(value: string)

  // ---------------------------------------------------------------------
  // The three filters
  // ---------------------------------------------------------------------

  /**
   * `filter_by_status`: the SQL condition for each status. Past and
   * upcoming agree with `EventStatus` (upcoming for events that do not end
   * before they start); the ongoing condition is strict on both ends, so it
   * leaves out an event that starts or ends exactly now although its status
   * is ongoing.
   */
  function MatchesStatus(st: Status, e: Event, now: int): (b: bool)
    ensures st == Past ==> (b <==> EventStatus(e, now) == Past)
    ensures st == Upcoming ==> (b <==> now < e.start)
    ensures st == Upcoming && e.start <= e.end ==> (b <==> EventStatus(e, now) == Upcoming)
    ensures st == Ongoing && b ==> EventStatus(e, now) == Ongoing
    ensures st == Ongoing && e.start != now && e.end != now ==> (b <==> EventStatus(e, now) == Ongoing)
  {
    match st
    case Past => e.end < now
    case Upcoming => e.start > now
    case Ongoing => e.start < now && now < e.end
  }

  /** An event that starts (or ends) exactly now is ongoing, yet the ongoing filter drops it. */
  lemma OngoingFilterMissesBoundary(e: Event, now: int)
    requires e.start <= now <= e.end && (e.start == now || e.end == now)
    ensures EventStatus(e, now) == Ongoing && !MatchesStatus(Ongoing, e, now)
  {
  }

  /** An event that ends before now and starts after now is past, yet the upcoming filter keeps it. */
  lemma UpcomingFilterKeepsPastEvent(e: Event, now: int)
    requires e.end < now < e.start
    ensures EventStatus(e, now) == Past && MatchesStatus(Upcoming, e, now)
  {
  }

  /** The keys `get_list` has a filter for. */
  predicate Known(key: string) {
    key == "status" || key == "participant" || key == "guest"
  }

  /**
   * Whether an event passes one filter: the status condition, or a
   * membership row joining the event to the member id the value names.
   * An unknown key stands for the query that matches nothing.
   */
  predicate Holds(f: Filter, s: Store, e: Event, now: int) {
    if f.0 == "status" then
      ParseStatus(f.1).Some? && MatchesStatus(ParseStatus(f.1).value, e, now)
    else if f.0 == "participant" then
      ParseInt(f.1).Some? && (ParseInt(f.1).value, e.id) in s.participantEvents
    else if f.0 == "guest" then
      ParseInt(f.1).Some? && (ParseInt(f.1).value, e.id) in s.guestEvents
    else
      false
  }

  /** A participant or guest filter whose value `int()` cannot read. */
  predicate BadValue(f: Filter) {
    (f.0 == "participant" || f.0 == "guest") && ParseInt(f.1).None?
  }

  /** Every status filter names one of the three statuses. */
  predicate StatusValuesKnown(filters: seq<Filter>) {
    forall k | 0 <= k < |filters| && filters[k].0 == "status" :: ParseStatus(filters[k].1).Some?
  }

  /** The ids of the events that pass every filter. */
  function Matching(s: Store, filters: seq<Filter>, now: int): (r: set<int>)
    ensures r <= s.events.Keys
  {
    set id | id in s.events && forall k | 0 <= k < |filters| :: Holds(filters[k], s, s.events[id], now)
  }

  /** Filters apply together: matching a list of filters in two parts is matching both parts. */
  lemma MatchingAppend(s: Store, a: seq<Filter>, b: seq<Filter>, now: int)
    ensures Matching(s, a + b, now) == Matching(s, a, now) * Matching(s, b, now)
  {
    var ab := a + b;
    forall id | id in s.events
      ensures id in Matching(s, ab, now) <==> id in Matching(s, a, now) && id in Matching(s, b, now)
    {
      var e := s.events[id];
      if forall k | 0 <= k < |ab| :: Holds(ab[k], s, e, now) {
        forall k | 0 <= k < |a| ensures Holds(a[k], s, e, now) { assert ab[k] == a[k]; }
        forall k | 0 <= k < |b| ensures Holds(b[k], s, e, now) { assert ab[|a| + k] == b[k]; }
      }
      if (forall k | 0 <= k < |a| :: Holds(a[k], s, e, now)) && (forall k | 0 <= k < |b| :: Holds(b[k], s, e, now)) {
        forall k | 0 <= k < |ab| ensures Holds(ab[k], s, e, now) {
          if k < |a| { assert ab[k] == a[k]; } else { assert ab[k] == b[k - |a|]; }
        }
      }
    }
  }

  /** Any filter key `get_list` does not know empties the result, whatever the other filters are. */
  lemma UnknownKeyMatchesNothing(s: Store, filters: seq<Filter>, now: int, k: int)
    requires 0 <= k < |filters| && !Known(filters[k].0)
    ensures Matching(s, filters, now) == {}
  {
    forall id | id in s.events ensures !Holds(filters[k], s, s.events[id], now) {}
  }

  /** Filtering by one more filter narrows the ids matched so far by that filter alone. */
  lemma MatchingStep(s: Store, filters: seq<Filter>, i: int, now: int)
    requires 0 <= i < |filters|
    ensures Matching(s, filters[..i + 1], now) ==
            set id | id in Matching(s, filters[..i], now) && Holds(filters[i], s, s.events[id], now)
  {
    assert filters[..i + 1] == filters[..i] + [filters[i]];
    MatchingAppend(s, filters[..i], [filters[i]], now);
    MatchingSingle(s, filters[i], now);
  }

  /** One filter alone keeps the events that pass it. */
  lemma MatchingSingle(s: Store, f: Filter, now: int)
    ensures Matching(s, [f], now) == set id | id in s.events && Holds(f, s, s.events[id], now)
  {
    var fs := [f];
    assert forall id | id in s.events :: (forall k | 0 <= k < |fs| :: Holds(fs[k], s, s.events[id], now)) <==> Holds(fs[0], s, s.events[id], now);
  }

  /** `participant=<p>` keeps exactly the events with a membership row for participant p. */
  lemma ParticipantFilterExact(s: Store, p: int, now: int)
    requires WellFormed(s)
    ensures Matching(s, [("participant", Decimal(p))], now) ==
            set id | id in s.events && (p, id) in s.participantEvents
  {
    ParseDecimal(p);
    var f := ("participant", Decimal(p));
    MatchingSingle(s, f, now);
    forall id | id in s.events
      ensures Holds(f, s, s.events[id], now) <==> (p, id) in s.participantEvents
    {
      assert s.events[id].id == id;
    }
  }

  /** `guest=<g>` keeps exactly the events with a membership row for guest g. */
  lemma GuestFilterExact(s: Store, g: int, now: int)
    requires WellFormed(s)
    ensures Matching(s, [("guest", Decimal(g))], now) ==
            set id | id in s.events && (g, id) in s.guestEvents
  {
    ParseDecimal(g);
    var f := ("guest", Decimal(g));
    MatchingSingle(s, f, now);
    forall id | id in s.events
      ensures Holds(f, s, s.events[id], now) <==> (g, id) in s.guestEvents
    {
      assert s.events[id].id == id;
    }
  }

  /** `status=<name>` keeps exactly the events the status condition accepts. */
  lemma StatusFilterExact(s: Store, st: Status, now: int)
    ensures Matching(s, [("status", StatusName(st))], now) ==
            set id | id in s.events && MatchesStatus(st, s.events[id], now)
  {
    assert ParseStatus(StatusName(st)) == Some(st);
    MatchingSingle(s, ("status", StatusName(st)), now);
  }

  // ---------------------------------------------------------------------
  // Ordering and pages
  // ---------------------------------------------------------------------

  function MinOf(ids: set<int>): (m: int)
    requires ids != {}
    ensures m in ids && forall x | x in ids :: m <= x
  {
    var negated := set x | x in ids :: -x;
    assert negated != {} by {
      var y := Element(ids);
      assert -y in negated;
    }
    var top := MaxOf(negated);
    assert forall x | x in ids :: -x in negated;
    -top
  }

  /** `order_by(id)`: the ids in strictly increasing order, each exactly once. */
  function SortedIds(ids: set<int>): (r: seq<int>)
    ensures |r| == |ids|
    ensures forall x :: x in r <==> x in ids
    ensures forall i, j | 0 <= i < j < |r| :: r[i] < r[j]
    decreases |ids|
  {
    if ids == {} then []
    else
      var m := MinOf(ids);
      var rest := SortedIds(ids - {m});
      assert forall x | x in rest :: m < x;
      [m] + rest
  }

  /** The page size once the paginator has replaced a negative limit by its default of 20. */
  function PageLimit(limit: int): nat {
    if limit < 0 then 20 else limit
  }

  /** The page number once the paginator has replaced a number below 1 by 1. */
  function PageNumber(page: int): nat {
    if page < 1 then 1 else page
  }

  /** How many items come before a page. */
  function Offset(page: nat, limit: nat): nat
    requires page >= 1
  {
    (page - 1) * limit
  }

  /** `limit(limit).offset((page - 1) * limit)`: at most `limit` items, empty past the end. */
  function PageOf<T>(s: seq<T>, page: nat, limit: nat): (r: seq<T>)
    requires page >= 1
    ensures |r| <= limit
    ensures Offset(page, limit) >= |s| ==> r == []
    ensures Offset(page, limit) < |s| ==> |r| == if |s| - Offset(page, limit) < limit then |s| - Offset(page, limit) else limit
    ensures forall i | 0 <= i < |r| :: Offset(page, limit) + i < |s| && r[i] == s[Offset(page, limit) + i]
  {
    var offset := Offset(page, limit);
    if offset >= |s| then []
    else if |s| - offset < limit then s[offset..]
    else s[offset..offset + limit]
  }

  /** Every item lands on a page: item i is at place i % limit of page i / limit + 1. */
  lemma PagesCover<T>(s: seq<T>, limit: nat, i: nat)
    requires 0 < limit && i < |s|
    ensures var page := i / limit + 1;
      && i % limit < |PageOf(s, page, limit)|
      && PageOf(s, page, limit)[i % limit] == s[i]
  {
    var page := i / limit + 1;
    assert Offset(page, limit) == (i / limit) * limit;
    assert i == (i / limit) * limit + i % limit;
    assert Offset(page, limit) + i % limit == i;
  }

  /** The events a page of ids stands for. */
  function EventsAt(s: Store, ids: seq<int>): (r: seq<Event>)
    requires forall i | 0 <= i < |ids| :: ids[i] in s.events
    ensures |r| == |ids|
    ensures forall i | 0 <= i < |ids| :: r[i] == s.events[ids[i]]
  {
    seq(|ids|, i requires 0 <= i < |ids| => s.events[ids[i]])
  }

  // ---------------------------------------------------------------------
  // get_list
  // ---------------------------------------------------------------------

  /**
   * One step of `get_list`: the filter function the key selects, applied to
   * the query so far. The participant and guest filters call `int()` on the
   * value; the plug for an unknown key matches nothing.
   */
  function ApplyFilter(s: Store, query: set<int>, f: Filter, now: int): (r: Result<set<int>, ListError>)
    requires WellFormed(s) && query <= s.events.Keys
    requires f.0 == "status" ==> ParseStatus(f.1).Some?
    ensures r.Err? <==> BadValue(f)
    ensures r.Err? ==> r.error == NotAnInteger(f.1)
    ensures r.Ok? ==> r.value == set id | id in query && Holds(f, s, s.events[id], now)
  {
    if f.0 == "status" then
      var st := ParseStatus(f.1).value;
      Ok(set id | id in query && MatchesStatus(st, s.events[id], now))
    else if f.0 == "participant" || f.0 == "guest" then
      match ParseInt(f.1)
      case None => Err(NotAnInteger(f.1))
      case Some(v) =>
        var rows := if f.0 == "participant" then s.participantEvents else s.guestEvents;
        assert forall id | id in query :: s.events[id].id == id;
        Ok(set id | id in query && (v, id) in rows)
    else
      Ok({})
  }

  /**
   * `EventModel.get_list`: starts from every event, narrows the query once
   * per filter in the order given, orders by id and returns one page.
   */
  method GetList(s: Store, filters: seq<Filter>, page: int, limit: int, now: int) returns (r: Result<seq<Event>, ListError>)
    requires WellFormed(s)
    requires StatusValuesKnown(filters)
    ensures r.Err? <==> exists k | 0 <= k < |filters| :: BadValue(filters[k])
    ensures r.Err? ==> exists k | 0 <= k < |filters| ::
      && BadValue(filters[k]) && r.error == NotAnInteger(filters[k].1)
      && forall j | 0 <= j < k :: !BadValue(filters[j])
    ensures r.Ok? ==> r.value == EventsAt(s, PageOf(SortedIds(Matching(s, filters, now)), PageNumber(page), PageLimit(limit)))
    ensures r.Ok? ==> |r.value| <= PageLimit(limit)
    ensures r.Ok? ==> forall i, j | 0 <= i < j < |r.value| :: r.value[i].id < r.value[j].id
    ensures r.Ok? ==> forall i | 0 <= i < |r.value| ::
      && r.value[i].id in s.events && s.events[r.value[i].id] == r.value[i]
      && forall k | 0 <= k < |filters| :: Holds(filters[k], s, r.value[i], now)
    ensures r.Ok? && (exists k | 0 <= k < |filters| :: !Known(filters[k].0)) ==> r.value == []
  {
    var query := s.events.Keys;
    var i := 0;
    assert filters[..0] == [];
    while i < |filters|
      invariant 0 <= i <= |filters|
      invariant forall k | 0 <= k < i :: !BadValue(filters[k])
      invariant query == Matching(s, filters[..i], now)
    {
      var step := ApplyFilter(s, query, filters[i], now);
      if step.Err? {
        return Err(step.error);
      }
      MatchingStep(s, filters, i, now);
      query := step.value;
      i := i + 1;
    }
    assert filters[..i] == filters;
    var ids := PageOf(SortedIds(query), PageNumber(page), PageLimit(limit));
    r := Ok(EventsAt(s, ids));
    PageFacts(s, filters, PageNumber(page), PageLimit(limit), now);
  }

  /** What holds of every page of the matching events: ordered by id, each a stored event passing every filter. */
  lemma PageFacts(s: Store, filters: seq<Filter>, page: nat, limit: nat, now: int)
    requires WellFormed(s) && page >= 1
    ensures var events := EventsAt(s, PageOf(SortedIds(Matching(s, filters, now)), page, limit));
      && |events| <= limit
      && (forall i, j | 0 <= i < j < |events| :: events[i].id < events[j].id)
      && (forall i | 0 <= i < |events| ::
            && events[i].id in s.events && s.events[events[i].id] == events[i]
            && forall k | 0 <= k < |filters| :: Holds(filters[k], s, events[i], now))
      && ((exists k | 0 <= k < |filters| :: !Known(filters[k].0)) ==> events == [])
  {
    var query := Matching(s, filters, now);
    var ordered := SortedIds(query);
    var ids := PageOf(ordered, page, limit);
    var events := EventsAt(s, ids);
    forall i | 0 <= i < |ids| ensures ids[i] in query && events[i].id == ids[i] {
      assert ids[i] == ordered[Offset(page, limit) + i];
    }
    forall i, j | 0 <= i < j < |ids| ensures events[i].id < events[j].id {
      assert ids[i] == ordered[Offset(page, limit) + i];
      assert ids[j] == ordered[Offset(page, limit) + j];
    }
    if exists k | 0 <= k < |filters| :: !Known(filters[k].0) {
      var k :| 0 <= k < |filters| && !Known(filters[k].0);
      UnknownKeyMatchesNothing(s, filters, now, k);
    }
  }
}
