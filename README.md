# Book events backend — a Dafny model

The system is a small REST backend for book events. It stores:
- **events**, with a unique name, a start and end time and a description;
- **guests**, who are users of the companion books service;
- **participants**, who are its authors.

Membership is kept in two join tables: guests of an event and participants of an event.

The model covers:
- the event-status rule and the filtered, ordered, paginated event list (`get_list`);
- the JWT gate in front of the handlers (`jwt_required`, `decode_token`);
- the pagination envelope (`create_pagination`);
- the handlers of the event, guest and participant resources.

Each handler is modelled twice:
- a pure function from the store before the request to the store after it and the reply (`Http.Transition`). The properties across requests are proved on these functions;
- a method on the session class `Models.Db`, which performs the same table updates in place. Its contract ties the new state and the reply to that function.

Modules:
- `Common` holds `Option` and `Result`.
- `Numerals` holds the decimal rendering and parsing of integers.
- `Models` holds the records, the store, its invariant `WellFormed`, the status rule, the table updates and `Db`.
- `EventQuery`, `Auth`, `Pagination` and `Http` cover the list query, the gate, the envelope and the replies.
- `GuestResource`, `ParticipantResource` and `EventResource` hold the handlers.

Time is whole seconds, and "now" is a parameter. The books service's answer to a profile request is a parameter (`Http.Profile`). So is the outcome of the token signature check: the decoded claims, or `None` when the token is forged or malformed.

The code is followed where it departs from the documented design:
- **Event delete** answers 404 on both branches. The event-not-found message goes out after a successful deletion, and the event-deleted message when there was nothing to delete (`resources/event.py:58-63`).
- **Deleting an event** cascades. The event's guest and participant records are deleted as well, because the relationships carry `cascade='all, delete'`. The join rows go with them (`models/event.py:54-62`).
- **Deleting a guest** removes that guest's registrations. The ORM deletes the guest's `guest_event` rows through the `events` backref of the guests relationship (`models/event.py:59-62`). The `ondelete='CASCADE'` on the foreign key would do the same, but the default SQLite backend does not enforce foreign keys unless they are switched on.
- **The ongoing filter** is strict at both ends, while the status property is not. An event that starts or ends exactly now is ongoing but is dropped by the filter.
- **The upcoming filter** ignores the end time. An event whose end lies before now and whose start lies after now is past, yet the upcoming filter keeps it.
- **An unknown filter key** empties the result (`models/event.py:170-173`).

Library and environment behaviour the model relies on:
- A new event gets an id one above the largest id in use.
- `paginate(page, limit, error_out=False)` treats a page below 1 as page 1 and a negative limit as 20.
- An integrity error, such as a duplicate unique name or a missing NOT NULL value, is an uncaught exception, so the reply is 500 (`Http.Crash`). Steps committed before it stay committed.
- A JWT error raised inside a handler is answered with 400 (`app.py:84-91`).
- A schema validation error is answered with 400 (`app.py:73-81`).

## Model

| member | source | states |
|---|---|---|
| Models.GuestsOf | models/event.py:15-25 | an id is a guest of the event exactly when the guest–event pair is a row of the join table |
| Models.ParticipantsOf | models/event.py:28-40 | an id is a participant of the event exactly when the participant–event pair is a row of the join table |
| Models.EventStatus | models/event.py:71-81 | past exactly when the end is before now; upcoming exactly when the end is not before now and the start is after it; ongoing exactly when start <= now <= end |
| Models.ParseStatus | models/event.py:113-120 | a filter value names a status exactly when it is that status's text |
| Models.NextEventId | models/event.py:49 | the id of an inserted event is not in use and is above every id in use |
| Models.MaxOf | models/event.py:49 | a non-empty id set has a member that is at least every other one |
| Models.HasMax | models/event.py:49 | every non-empty finite set of ids has a largest element |
| Models.WithEvent | models/event.py:189-204 | inserting or overwriting an event under a free name keeps the store well formed; the event sits under its id, every other event keeps its record, and the other tables stay as they were |
| Models.WithoutEvent | models/event.py:54-62 | deleting an event removes it, its join rows, and the guest and participant records linked to it (with their rows); every other event, guest, participant and row stays; the store stays well formed |
| Models.WithGuest | models/guest.py:15-16 | saving a guest under a free name keeps the store well formed; the guest sits under its id, every other guest keeps its record, and the other tables stay as they were |
| Models.WithoutGuest | models/guest.py:43-49 | deleting a guest removes exactly that guest and, from every event's guests in the `guest_event` table, exactly that guest; events, participants and participant rows stay |
| Models.WithParticipant | models/participant.py:15-16 | saving a participant stores its record under its id and keeps the store well formed; every other participant keeps its record, and the other tables stay as they were |
| Models.WithGuestRow | models/event.py:15-25 | adding a row adds exactly that guest to the event's guests; every other event's guests and all other tables stay as they were |
| Models.WithoutGuestRow | models/event.py:15-25 | removing a row removes exactly that guest from the event's guests; every other event's guests and all other tables stay as they were |
| Models.WithParticipantRow | models/event.py:28-40 | adding a row adds exactly that participant to the event's participants; every other event's participants and all other tables stay as they were |
| Models.WithoutParticipantRow | models/event.py:28-40 | removing a row removes exactly that participant from the event's participants; every other event's participants and all other tables stay as they were |
| Models.Patched | models/event.py:197-204 | an update overwrites exactly the fields the body gives and keeps the id |
| Models.Db.constructor | models/event.py:43-62 | a new session holds an empty store |
| Models.Db.SaveEvent | models/event.py:189-195 | the commit succeeds exactly when the name is free; the store then holds the event, otherwise it is unchanged |
| Models.Db.UpdateEvent | models/event.py:197-204 | the commit succeeds exactly when the patched name is free; the store then holds the patched event, otherwise it is unchanged |
| Models.Db.DeleteEvent | models/event.py:206-212 | the new store is the cascading deletion of the event |
| Models.Db.SaveGuest | models/guest.py:15-16 | the commit succeeds exactly when the guest's name is free; the store then holds the guest |
| Models.Db.DeleteGuest | models/guest.py:43-49 | the new store is the store without the guest and its rows |
| Models.Db.SaveParticipant | models/participant.py:15-16 | the new store holds the participant |
| Models.Db.AddGuestRow | resources/guest.py:99-100 | the new store has the guest's row for the event |
| Models.Db.RemoveGuestRow | resources/guest.py:123-124 | the new store lacks the guest's row for the event |
| Models.Db.AddParticipantRow | resources/participant.py:36-37 | the new store has the participant's row for the event |
| Models.Db.RemoveParticipantRow | resources/participant.py:55-56 | the new store lacks the participant's row for the event |
| Numerals.Decimal | utils/pagination.py:37-44 | the text of an integer is non-empty and made of a sign and digits |
| Numerals.NatDigitsValue | resources/event.py:74-75 | the digits of a natural number read back as that number |
| Numerals.ParseDecimal | resources/event.py:74-75 | `int()` of an integer's text gives that integer back |
| Numerals.DecimalInjective | utils/pagination.py:37-44 | different integers have different texts |
| Auth.DecodeToken | utils/auth.py:74-86 | refused as invalid exactly when the signature check fails; refused as expired exactly when the expiry is before now, so a token expiring this second passes; otherwise the claims are returned |
| Auth.Guard | utils/auth.py:36-71 | no header or an empty one gives 400 login-required; with no flag set any token passes undecoded; the handler runs exactly when the token is present, decodes when a flag asks for it, matches the route's id when owner is set, and is admin when admin is set; each refusal is 400 with its reason; an allowed call returns the handler's own result |
| Auth.DeniedIgnoresHandler | utils/auth.py:36-71 | a refused request does not depend on the wrapped handler |
| Auth.ExpiredTokenRefused | utils/auth.py:41-53 | a gate with a flag set refuses an expired token whatever the claims are |
| Auth.OwnerWithoutAdminRefused | utils/auth.py:41-60 | with both flags set, the owner is refused unless they are also an admin |
| Auth.AdminNotOwnerRefused | utils/auth.py:41-49 | with both flags set, an admin is refused on another user's resource |
| Pagination.ParamSuffix | utils/pagination.py:30-32 | no parameters give an empty tail |
| Pagination.ParamSuffixAppend | utils/pagination.py:30-32 | the tail of two parameter lists is the two tails in a row |
| Pagination.LinkTail | utils/pagination.py:37-38 | what follows the page number in a link starts with `&` |
| Pagination.NumberBeforeAmpersand | utils/pagination.py:37-38 | a page number followed by `&` can be cut back out of the link |
| Pagination.LinkInjective | utils/pagination.py:35-44 | two links for the same URL, limit and parameters are equal only if their page numbers are |
| Pagination.CreatePagination | utils/pagination.py:10-48 | page and limit echoed; next and prev present exactly when the paginator's number is truthy, and then the link with that number, the limit and the parameters; results are the dumps of the items, in order |
| Pagination.NextPrevDifferOnlyInPage | utils/pagination.py:35-44 | when both links are present they share everything but the page number, and they are equal exactly when the numbers are |
| EventQuery.MatchesStatus | models/event.py:104-120 | the past filter agrees with the status; the upcoming filter holds exactly when the start is after now, which agrees with the status for events that do not end before they start; the ongoing filter implies ongoing status and agrees with it away from the boundaries |
| EventQuery.OngoingFilterMissesBoundary | models/event.py:117-118 | an event starting or ending exactly now is ongoing but the ongoing filter drops it |
| EventQuery.UpcomingFilterKeepsPastEvent | models/event.py:115-116 | an event that ends before now and starts after now is past but the upcoming filter keeps it |
| EventQuery.Matching | models/event.py:169-173 | the filtered ids are stored events |
| EventQuery.MatchingAppend | models/event.py:172-173 | applying two filter lists in a row keeps the events both keep |
| EventQuery.UnknownKeyMatchesNothing | models/event.py:170-173 | a key without a filter empties the result |
| EventQuery.MatchingStep | models/event.py:172-173 | one more filter narrows the result by that filter's condition |
| EventQuery.MatchingSingle | models/event.py:172-173 | a single filter keeps exactly the events its condition holds for |
| EventQuery.ParticipantFilterExact | models/event.py:123-135 | the participant filter keeps exactly the events that author takes part in |
| EventQuery.GuestFilterExact | models/event.py:138-149 | the guest filter keeps exactly the events that guest is registered for |
| EventQuery.StatusFilterExact | models/event.py:104-120 | the status filter keeps exactly the events that satisfy its condition |
| EventQuery.MinOf | models/event.py:174 | a non-empty id set has a member at most every other one |
| EventQuery.SortedIds | models/event.py:174 | `order_by(id)`: the same ids, each once, strictly ascending |
| EventQuery.PageOf | models/event.py:174 | the page holds at most `limit` items; it is empty past the end; otherwise it has the exact length, and item i is item offset+i of the ordered list |
| EventQuery.PagesCover | models/event.py:174 | every item of the ordered list is on page i/limit+1, at position i mod limit |
| EventQuery.EventsAt | models/event.py:174 | the records of the ids, in the ids' order |
| EventQuery.ApplyFilter | models/event.py:123-173 | a filter fails exactly when it is a participant or guest filter whose value is not an integer, naming that value; otherwise it keeps the events of the query its condition holds for |
| EventQuery.GetList | models/event.py:151-174 | fails exactly when some participant or guest value is not an integer, naming the first one; otherwise it returns the requested page of the events that pass every filter, ordered by id; the page is at most the limit long, and an unknown key gives an empty page |
| EventResource.Retrieve | resources/event.py:28-32 | 200 with the event dumped with its status as of now exactly when the event exists, otherwise 404 event-not-found |
| EventResource.NewEvent | resources/event.py:105-106 | a created event carries the loaded fields under an id above every id in use |
| EventResource.Create | resources/event.py:97-108 | 400 exists when the name is taken; 201 exactly when the name is not taken, the body validates and the name is free, and then the store gains exactly the new event and the reply dumps it; any other outcome leaves the store unchanged |
| EventResource.Update | resources/event.py:42-48 | 404 for an unknown event; 200 exactly when the patched name is free, dumping the patched event, which then replaces the old one; any other outcome leaves the store unchanged |
| EventResource.Destroy | resources/event.py:58-63 | always 404; event-not-found exactly when there was an event to delete, and then the event, its rows and its linked guest and participant records are gone while every other event, guest, participant and row stays; otherwise event-deleted and nothing changes |
| EventResource.CreateThenRetrieve | resources/event.py:22-32 | a created event reads back as the creation reply showed it |
| EventResource.CreateTwiceRefused | resources/event.py:99-103 | creating the same event again is refused with 400 and changes nothing |
| EventResource.UpdateThenRetrieve | resources/event.py:42-48 | an updated event reads back as the update reply showed it |
| EventResource.DestroyThenRetrieve | resources/event.py:58-63 | after a deletion the event reads as 404, and a second deletion sends the event-deleted message |
| EventResource.Lookup | resources/event.py:73 | a key has a value exactly when it occurs, and the value is the first one given for it |
| EventResource.Without | resources/event.py:74-75 | removing a key keeps the other keys' values and leaves none for that key |
| EventResource.KeyIndex | resources/event.py:73 | the position where a key first occurs in the arguments, or their length when it does not occur |
| EventResource.FirstValues | resources/event.py:73 | `dict(request.args)`: keys distinct, in the order in which they first occur, each key with its first value, entries drawn from the arguments |
| EventResource.WithoutKeepsDistinct | resources/event.py:74-75 | removing a key keeps the keys distinct |
| EventResource.WithoutKeepsOrder | resources/event.py:74-75 | removing a key keeps the other entries in first-occurrence order |
| EventResource.PrependKeepsOrder | resources/event.py:73 | an entry whose key occurs before the others' can go in front of them, in order |
| EventResource.ConsKeepsOrder | resources/event.py:73 | the first argument followed by the other keys, ordered by the rest of the arguments, is in first-occurrence order |
| EventResource.ExtractListArgs | resources/event.py:73-75 | fails exactly when page or limit is given but is not an integer; page defaults to 1, limit to 20, otherwise both are parsed; the filters are the other keys with their first values, each once, in the order the keys first occur, which is the order the links repeat them in |
| EventResource.PostEvent | resources/event.py:92-108 | the session's new store and the reply are those of Create |
| EventResource.PutEvent | resources/event.py:36-48 | the session's new store and the reply are those of Update |
| EventResource.DeleteEvent | resources/event.py:52-63 | the session's new store and the reply are those of Destroy |
| GuestResource.Register | resources/guest.py:82-102 | 404 for an unknown event, before the token is decoded; a token error gives 400; 200 exactly for a caller not yet a guest of the event who is known locally or has a name from the books service that no other guest carries (the service's status code plays no part), and the caller is then added exactly; and a caller new to the store is saved under the name the books service gave; 400 already-registered leaves a well-formed store unchanged; a 500 changes nothing; only the caller can appear as a new guest; nothing else changes |
| GuestResource.Unregister | resources/guest.py:113-126 | 404 for an unknown event; a token error gives 400; 200 exactly when the caller is a known guest of the event, and then exactly that row goes; otherwise 400 not-registered and nothing changes |
| GuestResource.UpsertProfile | resources/guest.py:155-168 | a non-200 answer from the books service gives 500 and nothing changes; 200 exactly when the service answers 200 with a name that is free, and then only that guest's record is written |
| GuestResource.DeleteProfile | resources/guest.py:178-183 | 200 exactly when the guest exists, and then the guest and all of its registrations go, nothing else; otherwise 404 |
| GuestResource.RegisterThenUnregister | resources/guest.py:75-126 | registering and then cancelling restores every event's guest rows |
| GuestResource.RegisterTwice | resources/guest.py:96-97 | a second registration is refused with 400 and changes nothing |
| GuestResource.DeleteProfileTwice | resources/guest.py:178-180 | a second deletion answers 404 |
| GuestResource.EventGuestsPost | resources/guest.py:73-102 | the session's new store and the reply are those of Register |
| GuestResource.EventGuestsDelete | resources/guest.py:104-126 | the session's new store and the reply are those of Unregister |
| GuestResource.GuestPut | resources/guest.py:145-168 | the session's new store and the reply are those of UpsertProfile |
| GuestResource.GuestDelete | resources/guest.py:170-183 | the session's new store and the reply are those of DeleteProfile |
| ParticipantResource.RowsFor | resources/participant.py:21-37 | the rows of a list of ids for an event are exactly those ids paired with it |
| ParticipantResource.RowsForStep | resources/participant.py:21-37 | the rows of a prefix are the first id's row plus the rows of the rest's prefix |
| ParticipantResource.AddOne | resources/participant.py:22-37 | one pass of the loop: it goes on exactly when the author can be found or fetched and is not yet a participant, adding exactly that row; otherwise it stops with 400 already-registered, or with 500 when an unknown author's name is missing, and adds no row |
| ParticipantResource.AddEach | resources/participant.py:21-39 | the loop leaves events, guests and guest rows untouched, keeps every existing participant record, and keeps the store well formed |
| ParticipantResource.AddAll | resources/participant.py:15-39 | 404 for an unknown event before anything else, otherwise the loop |
| ParticipantResource.DistinctCons | resources/participant.py:21 | a list without repeats stays without repeats once its head is dropped |
| ParticipantResource.AddsCleanlyCons | resources/participant.py:21-37 | a clean run over a list is a clean first step followed by a clean run over the rest |
| ParticipantResource.AddEachSucceedsIff | resources/participant.py:21-39 | the loop answers 200 exactly when the ids have no repeats, none is already a participant, and every unknown author has a name |
| ParticipantResource.AddsCleanlyPrefixCons | resources/participant.py:21-37 | a prefix of the ids can be added exactly when, after a clean first step, the rest of that prefix can |
| ParticipantResource.AddedPrefixCons | resources/participant.py:21-37 | what the loop commits from the second id on, seen from before a clean first step, is the same prefix one id longer |
| ParticipantResource.AddEachCommitsPrefix | resources/participant.py:21-39 | the rows added are those of the longest prefix of the ids that can be added cleanly; that prefix is the whole list exactly when the answer is 200, and otherwise the id right after it, the first that fails, is the one a 400 names |
| ParticipantResource.AddEachStopsAtRepeat | resources/participant.py:32-34 | when every id before position j goes in cleanly and the id at j repeats one of them or is already a participant, the loop answers 400 naming that id |
| ParticipantResource.AddAllMakesMembers | resources/participant.py:15-39 | on 200 every listed id is a participant of the event, and the event's participants are the old ones plus the listed ids |
| ParticipantResource.DuplicateRefused | resources/participant.py:32-34 | a list that names an author twice is never answered 200; when the ids before the second occurrence all go in cleanly, the answer is the 400 naming that author |
| ParticipantResource.RemoveOne | resources/participant.py:50-56 | one pass of the loop: it goes on exactly when the author is a participant of the event, removing exactly that row; otherwise it stops with 404 naming the id |
| ParticipantResource.RemoveEach | resources/participant.py:49-58 | the loop changes nothing but participant rows, only removes them, and keeps the store well formed |
| ParticipantResource.RemoveAll | resources/participant.py:43-58 | 404 for an unknown event before anything else, otherwise the loop |
| ParticipantResource.RemovesCleanlyCons | resources/participant.py:49-56 | a clean removal run is a clean first step followed by a clean run over the rest |
| ParticipantResource.RemoveEachSucceedsIff | resources/participant.py:49-58 | the loop answers 200 exactly when the ids have no repeats and each is a participant of the event |
| ParticipantResource.RemovesCleanlyPrefixCons | resources/participant.py:49-56 | a prefix of the ids can be removed exactly when, after a clean first step, the rest of that prefix can |
| ParticipantResource.RemovedPrefixCons | resources/participant.py:49-56 | what the loop removes from the second id on, seen from before a clean first step, is the same prefix one id longer |
| ParticipantResource.RemoveEachCommitsPrefix | resources/participant.py:49-58 | the rows removed are those of the longest prefix of the ids that can be removed cleanly; that prefix is the whole list exactly when the answer is 200, and otherwise the id right after it, the first that fails, is the one the 404 names |
| ParticipantResource.RemoveAllDropsMembers | resources/participant.py:43-58 | on 200 the event's rows are the old ones minus the listed ids' rows |
| ParticipantResource.AddThenRemove | resources/participant.py:15-58 | a successful registration followed by the removal of the same ids restores the participant rows |
| ParticipantResource.AddParticipant | resources/participant.py:22-37 | one pass of the loop on the session matches AddOne |
| ParticipantResource.PostParticipants | resources/participant.py:15-39 | the session's new store and the reply are those of AddAll; the loop keeps the rest of the work equal to AddEach over the remaining ids |
| ParticipantResource.DeleteParticipants | resources/participant.py:43-58 | the session's new store and the reply are those of RemoveAll; the loop keeps the rest of the work equal to RemoveEach over the remaining ids |

## Left out

- The login passthrough (`resources/guest.py:23-39`) only forwards the body to the books service and returns its answer. Nothing in it is local logic.
- `EventGuests.get`, `GuestResource.get` and `get_guests_list` are not modelled. `EventGuests.get` calls a parser attribute that does not exist (`resources/guest.py:59`), so it cannot answer, and it is the only caller of `get_guests_list`. `GuestResource.get` is a plain lookup. `get_guests_list` (`models/event.py:186-187`) filters the guests by `EventModel.id == event_id` without joining `guest_event`, so it would list every guest whenever the event exists, not the event's guests.
- `EventQuery.GetList` is not called from `ListCreateEvent.get`. That code passes a keyword argument `get_list` does not accept (`resources/event.py:77`), so the listing endpoint fails after the query string is read. The model covers the query-string handling (`EventResource.ExtractListArgs`), the query (`EventQuery.GetList`) and the envelope (`Pagination.CreatePagination`) as three separate pieces.
- `EventQuery.GetList` requires every status filter value to be `past`, `upcoming` or `ongoing`. The source passes `None` to `filter` for any other value. What the database query then returns is decided by the query library, which the model does not cover.
- The JWT signature check, the library's own expiry check and token parsing are not modelled. Their combined outcome is the `decoded` parameter. A token without an `exp` claim, which would make `int()` raise, is not modelled either.
- Calls to the books service are parameters (`Http.Profile`): the status code and the `name` field of its JSON. A body that is not JSON is not modelled.
- Localised message texts are message tags (`Http.Tag`). The translation tables are not part of this model.
- Schema loading and dumping (marshmallow) and date-time parsing are not modelled. A loaded body is `EventResource.EventFields`, or `None` on a validation error, and times are integers.
- A request without a JSON body, or a participants body without the `participants` key, would crash with 500 before any work. That case is not modelled.
- `EventResource.Update`: the body goes to the database as given, so a `start` or `end` in it is a string. SQLite's DateTime type refuses strings, so the source answers 500 there and changes nothing. The model treats the patch's times as already converted and answers 200.
- `EventResource.Create`: omitting `start` or `end` is allowed by the schema and by the nullable columns. The event is then committed with a missing time, and dumping its status fails with 500 after the commit. `EventResource.EventFields` always carries both times, so the model does not cover that case.
- `Models.Patched`: an update body with keys that are not event columns would make the update fail. The model only allows the four event fields.
- `Numerals.ParseInt` accepts only an optional sign followed by ASCII digits. Python's `int()` also accepts surrounding spaces, underscores between digits, and non-ASCII decimal digits: `participant=٣` selects author 3 there, while the model reports a value that is not an integer.
- `ParticipantResource.AddOne` stores a participant record before the 400 already-registered check, as the code does. Its contract bounds the participant keys rather than stating the full map.
- Concurrency and transaction isolation between requests are not modelled; each request runs alone against the store.
- The migrations, the admin views, the population script and the schemas' field lists are not part of this model.
