/** EventServiceImpl: creation, user and admin edits, the public read and both searches. */
module EventService {
  import opened Wrappers
  import opened Text
  import opened Paging
  import opened EventModel
  import opened EventMapper
  import opened EventSpecifications

  /** The tables the service touches: user ids and events by id. `nextId` is the identity
      column's next value. */
  datatype EventStore = EventStore(users: set<int>, events: map<int, Event>, nextId: int)

  /** Every event is filed under its own id, and ids are below the identity counter. */
  predicate Valid(s: EventStore) {
    forall id | id in s.events :: s.events[id].id == id && id < s.nextId
  }

  /** `checkDateTime`: a date strictly before `now` plus `hours` hours is refused. */
  function CheckDateTime(date: int, hours: int, now: int): (r: Outcome)
    ensures r.Pass? <==> date >= now + hours * SecondsPerHour
    ensures r.Fail? ==> r.error == ParameterNotValid
  {
    if date < now + hours * SecondsPerHour then Fail(ParameterNotValid) else Pass
  }

  // ---------------------------------------------------------------- lifecycle

  /** Who asks for a state change: the user edit endpoint or the admin edit endpoint. */
  datatype Role = ByUser | ByAdmin

  /** The lifecycle as one table: the state an action leads to, or `None` when the
      action is refused with a conflict. */
  function Transition(role: Role, from: State, action: Option<StateAction>): Option<State> {
    match (role, action)
    case (ByUser, _) =>
      if from == PUBLISHED then None
      else if action == Some(CANCEL_REVIEW) then Some(CANCELED)
      else if action == Some(SEND_TO_REVIEW) then Some(PENDING)
      else Some(from)
    case (ByAdmin, Some(PUBLISH_EVENT)) => if from == PENDING then Some(PUBLISHED) else None
    case (ByAdmin, Some(CANCEL_REVIEW)) => if from != PUBLISHED then Some(CANCELED) else None
    case (ByAdmin, Some(REJECT_EVENT)) => if from != PUBLISHED then Some(CANCELED) else None
    case (ByAdmin, _) => Some(from)
  }

  /** No edit ever moves an event out of PUBLISHED, and only an admin publish moves into it. */
  lemma PublishedIsFinal(role: Role, from: State, action: Option<StateAction>)
    ensures from == PUBLISHED && Transition(role, from, action).Some? ==> Transition(role, from, action) == Some(PUBLISHED)
    ensures Transition(role, from, action) == Some(PUBLISHED) && from != PUBLISHED
            ==> role == ByAdmin && action == Some(PUBLISH_EVENT) && from == PENDING
  {
  }

  // ---------------------------------------------------------------- creation

  /** `addEvent`: date guard of two hours first, then the initiator lookup; the new event is
      PENDING, moderated unless the body says otherwise, and carries no confirmations. A body
      with a null `paid` passes every check and is saved, but building the response unboxes
      that null into a primitive: the call fails and the save is rolled back. */
  function AddEvent(s: EventStore, userId: int, d: NewEventDto, now: int): (r: Result<(EventStore, Event)>)
    ensures r.Ok? <==> d.eventDate.Some? && d.eventDate.value >= now + 2 * SecondsPerHour && userId in s.users && d.paid.Some?
    ensures d.eventDate.None? ==> r == Err(InternalError)
    ensures d.eventDate.Some? && d.eventDate.value < now + 2 * SecondsPerHour ==> r == Err(ParameterNotValid)
    ensures d.eventDate.Some? && d.eventDate.value >= now + 2 * SecondsPerHour && userId !in s.users ==> r == Err(NotFound)
    ensures d.eventDate.Some? && d.eventDate.value >= now + 2 * SecondsPerHour && userId in s.users && d.paid.None?
            ==> r == Err(InternalError)
    ensures r.Ok? ==>
      var (s', e) := r.value;
      && e.state == PENDING && e.initiator == userId && e.createdOn == now
      && e.requestModeration == d.requestModeration.GetOr(true)
      && e.confirmedRequests == 0 && e.publishedOn.None?
      && e.eventDate == d.eventDate.value && e.participantLimit == d.participantLimit
      && e.paid == d.paid.value
      && e.id == s.nextId && s'.events == s.events[e.id := e] && s'.users == s.users
  {
    if d.eventDate.None? then Err(InternalError)  // `isBefore` on a null date
    else
      :- CheckDateTime(d.eventDate.value, 2, now);
      var e := FromNewEventDto(d);
      if userId !in s.users then Err(NotFound)
      else if d.paid.None? then Err(InternalError)  // `toEventFullDto` unboxes the null `paid`
      else
        var e := e.(initiator := userId, createdOn := now,
                    requestModeration := if d.requestModeration.Some? then d.requestModeration.value else true,
                    state := PENDING, id := s.nextId);
        Ok((s.(events := s.events[s.nextId := e], nextId := s.nextId + 1), e))
  }

  lemma AddEventKeepsValid(s: EventStore, userId: int, d: NewEventDto, now: int)
    requires Valid(s)
    requires AddEvent(s, userId, d, now).Ok?
    ensures Valid(AddEvent(s, userId, d, now).value.0)
    ensures s.nextId !in s.events
  {
  }

  // ---------------------------------------------------------------- the initiator's reads

  /** `findByInitiator_Id`: the user's events, in table order. */
  function InitiatedBy(rows: seq<Event>, userId: int): (r: seq<Event>)
    ensures |r| <= |rows|
    ensures forall k | 0 <= k < |r| :: r[k].initiator == userId
  {
    if rows == [] then []
    else (if rows[0].initiator == userId then [rows[0]] else []) + InitiatedBy(rows[1..], userId)
  }

  /** The initiator filter keeps exactly the user's rows. */
  lemma {:induction false} InitiatedByExact(rows: seq<Event>, userId: int)
    ensures forall e | e in InitiatedBy(rows, userId) :: e in rows && e.initiator == userId
    ensures forall e | e in rows && e.initiator == userId :: e in InitiatedBy(rows, userId)
  {
    if rows != [] {
      InitiatedByExact(rows[1..], userId);
      assert rows == [rows[0]] + rows[1..];
    }
  }

  /** Page `from` of `mine`, as short views. */
  function PageViews(mine: seq<Event>, from: int, size: int): (r: Result<seq<EventShortDto>>)
    ensures r.Err? <==> from < 0 || size < 1
    ensures r.Ok? ==> |r.value| <= size
    ensures r.Ok? ==>
      forall k | 0 <= k < |r.value| :: from * size + k < |mine| && r.value[k] == ToEventShortDto(mine[from * size + k])
    ensures r.Ok? && from * size + size <= |mine| ==> |r.value| == size
  {
    var page :- PageOf(mine, from, size);
    Ok(ShortDtos(page))
  }

  /** `rows` lists the stored events, each once, in ascending id order: what the repository
      reads for a query sorted by id. */
  predicate InIdOrder(s: EventStore, rows: seq<Event>) {
    && (forall k | 0 <= k < |rows| :: rows[k].id in s.events && s.events[rows[k].id] == rows[k])
    && (forall i, j | 0 <= i < j < |rows| :: rows[i].id < rows[j].id)
    && (forall id | id in s.events :: exists k | 0 <= k < |rows| :: rows[k].id == id)
  }

  /** `getEventByUser`: the user must exist; `rows` is the event table in id order (see
      `InIdOrder`), and `from` is the page index. The result is page `from` of the user's
      events, as short views. */
  function GetEventsByUser(s: EventStore, rows: seq<Event>, userId: int, from: int, size: int): (r: Result<seq<EventShortDto>>)
    ensures userId !in s.users ==> r == Err(NotFound)
    ensures userId in s.users ==> (r.Err? <==> from < 0 || size < 1)
    ensures r.Ok? ==> |r.value| <= size
    ensures r.Ok? ==>
      forall k | 0 <= k < |r.value| ::
        from * size + k < |InitiatedBy(rows, userId)|
        && r.value[k] == ToEventShortDto(InitiatedBy(rows, userId)[from * size + k])
    ensures r.Ok? && from * size + size <= |InitiatedBy(rows, userId)| ==> |r.value| == size
    ensures r.Ok? ==> forall k | 0 <= k < |r.value| :: r.value[k].initiator == userId
  {
    if userId !in s.users then Err(NotFound)
    else
      var mine := InitiatedBy(rows, userId);
      PageViewsKeepInitiator(mine, userId, from, size);
      PageViews(mine, from, size)
  }

  /** A page cut from one user's events shows only that user as initiator. */
  lemma PageViewsKeepInitiator(mine: seq<Event>, userId: int, from: int, size: int)
    requires forall k | 0 <= k < |mine| :: mine[k].initiator == userId
    ensures PageViews(mine, from, size).Ok? ==>
              forall k | 0 <= k < |PageViews(mine, from, size).value| :: PageViews(mine, from, size).value[k].initiator == userId
  {
    var r := PageViews(mine, from, size);
    if r.Ok? {
      forall k | 0 <= k < |r.value| ensures r.value[k].initiator == userId {
        assert r.value[k] == ToEventShortDto(mine[from * size + k]);
      }
    }
  }

  /** Read over the event table, every listed view is that of a stored event the user
      initiated. */
  lemma GetEventsByUserListsStored(s: EventStore, rows: seq<Event>, userId: int, from: int, size: int, k: int)
    requires InIdOrder(s, rows)
    requires GetEventsByUser(s, rows, userId, from, size).Ok?
    requires 0 <= k < |GetEventsByUser(s, rows, userId, from, size).value|
    ensures var id := InitiatedBy(rows, userId)[from * size + k].id;
            && id in s.events && s.events[id].initiator == userId
            && GetEventsByUser(s, rows, userId, from, size).value[k] == ToEventShortDto(s.events[id])
  {
    var mine := InitiatedBy(rows, userId);
    var e := mine[from * size + k];
    InitiatedByExact(rows, userId);
    assert e in mine;
    var j :| 0 <= j < |rows| && rows[j] == e;
  }

  /** The short view of each event, in order. */
  function ShortDtos(es: seq<Event>): (r: seq<EventShortDto>)
    ensures |r| == |es| && forall k | 0 <= k < |r| :: r[k] == ToEventShortDto(es[k])
  {
    seq(|es|, i requires 0 <= i < |es| => ToEventShortDto(es[i]))
  }

  /** `getEventByUserAndById`: an event is visible here only to its initiator. */
  function GetEventByUserAndById(s: EventStore, userId: int, eventId: int): (r: Result<EventFullDto>)
    ensures r.Ok? <==> userId in s.users && eventId in s.events && s.events[eventId].initiator == userId
    ensures r.Err? ==> r.error == NotFound
    ensures r.Ok? ==> r.value.id == s.events[eventId].id && r.value.initiator == userId
  {
    if userId !in s.users then Err(NotFound)
    else if eventId !in s.events || s.events[eventId].initiator != userId then Err(NotFound)
    else Ok(ToEventFullDto(s.events[eventId]))
  }

  /** An event just added can be read back by its initiator, and by nobody else. */
  lemma AddedEventVisibleToInitiator(s: EventStore, userId: int, d: NewEventDto, now: int, other: int)
    requires AddEvent(s, userId, d, now).Ok?
    ensures var (s', e) := AddEvent(s, userId, d, now).value;
            GetEventByUserAndById(s', userId, e.id) == Ok(ToEventFullDto(e))
    ensures var (s', e) := AddEvent(s, userId, d, now).value;
            other != userId ==> GetEventByUserAndById(s', other, e.id) == Err(NotFound)
  {
  }

  // ---------------------------------------------------------------- edits

  /** `updateEventByUser`. Any existing user may edit any event: the ownership test compares
      the caller's id with the id of the user just loaded by that same id. */
  function UpdateEventByUser(s: EventStore, userId: int, eventId: int, u: UpdateEventUserRequest, now: int)
    : (r: Result<(EventStore, Event)>)
    ensures userId !in s.users ==> r == Err(NotFound)
    ensures userId in s.users && eventId !in s.events ==> r == Err(NotFound)
    ensures userId in s.users && eventId in s.events && s.events[eventId].state == PUBLISHED ==> r == Err(DataConflict)
    ensures r.Ok? ==>
      var (s', e) := r.value;
      && eventId in s.events && s.events[eventId].state != PUBLISHED
      && e.eventDate >= now + 2 * SecondsPerHour
      && s' == s.(events := s.events[eventId := e])
      && e.(state := s.events[eventId].state, publishedOn := s.events[eventId].publishedOn)
         == MergeUpdate(u, s.events[eventId])
      && (u.stateAction == Some(CANCEL_REVIEW) ==> e.state == CANCELED && e.publishedOn == Some(now))
      && (u.stateAction == Some(SEND_TO_REVIEW) ==> e.state == PENDING && e.publishedOn == Some(now))
      && (u.stateAction != Some(CANCEL_REVIEW) && u.stateAction != Some(SEND_TO_REVIEW)
          ==> e.state == s.events[eventId].state && e.publishedOn == s.events[eventId].publishedOn)
  {
    if userId !in s.users then Err(NotFound)
    else if eventId !in s.events then Err(NotFound)
    else if s.events[eventId].state == PUBLISHED then Err(DataConflict)
    else
      var event := MergeUpdate(u, s.events[eventId]);
      :- CheckDateTime(event.eventDate, 2, now);
      var event :=
        if u.stateAction == Some(CANCEL_REVIEW) then event.(publishedOn := Some(now), state := CANCELED)
        else if u.stateAction == Some(SEND_TO_REVIEW) then event.(publishedOn := Some(now), state := PENDING)
        else event;
      Ok((s.(events := s.events[eventId := event]), event))
  }

  /** `updateEventByAdmin`. The mapper returns the stored object itself, so the one-hour
      guard reads the merged date and the state tests read the stored state. */
  function UpdateEventByAdmin(s: EventStore, eventId: int, u: UpdateEventUserRequest, now: int)
    : (r: Result<(EventStore, Event)>)
    ensures eventId !in s.events ==> r == Err(NotFound)
    ensures eventId in s.events && MergeUpdate(u, s.events[eventId]).eventDate < now + SecondsPerHour
            ==> r == Err(ParameterNotValid)
    ensures r.Ok? ==>
      var (s', e) := r.value;
      && eventId in s.events
      && s' == s.(events := s.events[eventId := e])
      && e.(state := s.events[eventId].state) == MergeUpdate(u, s.events[eventId])
      && e.publishedOn == s.events[eventId].publishedOn
  {
    if eventId !in s.events then Err(NotFound)
    else
      var event := MergeUpdate(u, s.events[eventId]);  // oldEvent and newevent alike
      :- CheckDateTime(event.eventDate, 1, now);
      var result :=
        match u.stateAction
        case Some(PUBLISH_EVENT) =>
          if event.state == PENDING then Ok(event.(state := PUBLISHED)) else Err(DataConflict)
        case Some(CANCEL_REVIEW) =>
          if event.state != PUBLISHED then Ok(event.(state := CANCELED)) else Err(DataConflict)
        case Some(REJECT_EVENT) =>
          if event.state != PUBLISHED then Ok(event.(state := CANCELED)) else Err(DataConflict)
        case _ => Ok(event);
      var event :- result;
      Ok((s.(events := s.events[eventId := event]), event))
  }

  /** The user endpoint follows the lifecycle table once its date guard has passed. */
  lemma UserUpdateFollowsLifecycle(s: EventStore, userId: int, eventId: int, u: UpdateEventUserRequest, now: int)
    requires userId in s.users && eventId in s.events
    requires MergeUpdate(u, s.events[eventId]).eventDate >= now + 2 * SecondsPerHour
    ensures var r := UpdateEventByUser(s, userId, eventId, u, now);
            var t := Transition(ByUser, s.events[eventId].state, u.stateAction);
            && (r.Ok? <==> t.Some?)
            && (r.Err? ==> r.error == DataConflict)
            && (r.Ok? ==> r.value.1.state == t.value)
  {
  }

  /** The admin endpoint follows the lifecycle table once its date guard has passed. */
  lemma AdminUpdateFollowsLifecycle(s: EventStore, eventId: int, u: UpdateEventUserRequest, now: int)
    requires eventId in s.events
    requires MergeUpdate(u, s.events[eventId]).eventDate >= now + SecondsPerHour
    ensures var r := UpdateEventByAdmin(s, eventId, u, now);
            var t := Transition(ByAdmin, s.events[eventId].state, u.stateAction);
            && (r.Ok? <==> t.Some?)
            && (r.Err? ==> r.error == DataConflict)
            && (r.Ok? ==> r.value.1.state == t.value)
  {
  }

  /** The admin guard reads the date after the merge: a stored date in the past passes when
      the request brings a date an hour ahead, and a good stored date fails when the request
      brings one that is too soon. */
  lemma AdminGuardSeesMergedDate(s: EventStore, eventId: int, u: UpdateEventUserRequest, now: int)
    requires eventId in s.events && u.eventDate.Some? && u.stateAction.None?
    ensures u.eventDate.value >= now + SecondsPerHour ==> UpdateEventByAdmin(s, eventId, u, now).Ok?
    ensures u.eventDate.value < now + SecondsPerHour ==> UpdateEventByAdmin(s, eventId, u, now) == Err(ParameterNotValid)
  {
    MergeUpdateFields(u, s.events[eventId]);
  }

  /** Publishing by an admin does not stamp `publishedOn`; both user actions do. */
  lemma PublishLeavesPublishedOn(s: EventStore, eventId: int, u: UpdateEventUserRequest, now: int)
    requires u.stateAction == Some(PUBLISH_EVENT)
    requires UpdateEventByAdmin(s, eventId, u, now).Ok?
    ensures UpdateEventByAdmin(s, eventId, u, now).value.1.publishedOn == s.events[eventId].publishedOn
    ensures UpdateEventByAdmin(s, eventId, u, now).value.1.state == PUBLISHED
    ensures s.events[eventId].state == PENDING
  {
  }

  // ---------------------------------------------------------------- public read

  /** `getEventById`: only a published event is visible. `hits` is the statistics service's
      answer for the event's URI: the number of rows, or `None` for an empty body. */
  function GetEventById(s: EventStore, eventId: int, hits: Option<nat>): (r: Result<(EventStore, EventFullDto)>)
    ensures r.Ok? <==> eventId in s.events && s.events[eventId].state == PUBLISHED
    ensures r.Err? ==> r.error == NotFound
    ensures r.Ok? ==>
      && r.value.0 == s.(events := s.events[eventId := s.events[eventId].(views := hits.GetOr(0))])
      && r.value.1 == ToEventFullDto(s.events[eventId].(views := hits.GetOr(0)))
  {
    if eventId !in s.events then Err(NotFound)
    else if s.events[eventId].state != PUBLISHED then Err(NotFound)
    else
      var e := s.events[eventId].(views := if hits.Some? then hits.value else 0);
      Ok((s.(events := s.events[eventId := e]), ToEventFullDto(e)))
  }

  // ---------------------------------------------------------------- searches

  /** Query parameters of both searches. `users` and `states` are read by the admin search only
      and hold their evident meaning. */
  datatype EventSearchParameters = EventSearchParameters(
    text: Option<string>,
    categories: Option<seq<int>>,
    paid: Option<bool>,
    rangeStart: Option<int>,
    rangeEnd: Option<int>,
    onlyAvailable: Option<bool>,
    sort: Option<string>,
    from: int,
    size: int,
    users: Option<seq<int>>,
    states: Option<seq<State>>)

  predicate HasRange(p: EventSearchParameters) {
    p.rangeStart.Some? && p.rangeEnd.Some?
  }

  /** The predicates of the public search, in the order they are added. */
  function PublicFilters(p: EventSearchParameters, now: int): (r: Result<seq<Spec>>)
    ensures r.Err? <==> HasRange(p) && p.rangeStart.value > p.rangeEnd.value
    ensures r.Err? ==> r.error == ParameterNotValid
    ensures r.Ok? ==> OnlyPublishedEvent(PUBLISHED) in r.value
    ensures r.Ok? && !HasRange(p) ==> LaterCurrentDateTime(now) in r.value
    ensures r.Ok? && HasRange(p) ==> BetweenPeriod(p.rangeStart.value, p.rangeEnd.value) in r.value
  {
    if HasRange(p) && p.rangeStart.value > p.rangeEnd.value then Err(ParameterNotValid)
    else
      var text := if HasText(p.text) then [WithText(p.text.value)] else [];
      // the list is added only when it is EMPTY
      var cats := if p.categories.Some? && |p.categories.value| == 0 then [InCategories(p.categories.value)] else [];
      var paid := if p.paid.Some? then [IsPaid(p.paid.value)] else [];
      var period := if HasRange(p) then [BetweenPeriod(p.rangeStart.value, p.rangeEnd.value)]
                    else [LaterCurrentDateTime(now)];
      var available := if p.onlyAvailable == Some(true) then [OnlyAvailableEvent] else [];
      Ok(text + cats + paid + period + available + [OnlyPublishedEvent(PUBLISHED)])
  }

  /** The events of the public search: filter, then the page `from / size`. The sort mode is
      read but its result is discarded, so rows keep storage order. The per-event view refresh
      through the statistics service is not part of this model. */
  function PublicSearchEvents(rows: seq<Event>, p: EventSearchParameters, now: int): (r: Result<seq<Event>>)
  {
    var specs :- PublicFilters(p, now);
    OffsetPage(Select(rows, specs), p.from, p.size)
  }

  /** `getEventsByFilterSearch`: the short views of the public search's events. */
  function PublicSearch(rows: seq<Event>, p: EventSearchParameters, now: int): (r: Result<seq<EventShortDto>>)
    ensures r.Ok? <==> PublicSearchEvents(rows, p, now).Ok?
    ensures r.Ok? ==> |r.value| == |PublicSearchEvents(rows, p, now).value|
    ensures r.Ok? ==> forall i | 0 <= i < |r.value| :: r.value[i] == ToEventShortDto(PublicSearchEvents(rows, p, now).value[i])
  {
    var events :- PublicSearchEvents(rows, p, now);
    Ok(ShortDtos(events))
  }

  /** Everything the public search returns is published, matches the date window (the given
      closed range, or strictly after `now`) and every present filter. */
  lemma PublicSearchSound(rows: seq<Event>, p: EventSearchParameters, now: int, e: Event)
    requires PublicSearchEvents(rows, p, now).Ok?
    requires e in PublicSearchEvents(rows, p, now).value
    ensures e in rows && e.state == PUBLISHED
    ensures !HasRange(p) ==> e.eventDate > now
    ensures HasRange(p) ==> p.rangeStart.value <= e.eventDate <= p.rangeEnd.value
    ensures p.paid.Some? ==> e.paid == p.paid.value
    ensures p.onlyAvailable == Some(true) ==> e.confirmedRequests <= e.participantLimit || e.participantLimit <= 0
    ensures HasText(p.text) ==>
              Contains(Lower(e.annotation), Lower(p.text.value)) || Contains(Lower(e.description), Lower(p.text.value))
  {
    var specs := PublicFilters(p, now).value;
    OffsetPageSubset(Select(rows, specs), p.from, p.size, e);
    assert Combine(specs, e);
    CombineMember(specs, OnlyPublishedEvent(PUBLISHED), e);
    if HasRange(p) {
      CombineMember(specs, BetweenPeriod(p.rangeStart.value, p.rangeEnd.value), e);
    } else {
      CombineMember(specs, LaterCurrentDateTime(now), e);
    }
    if p.paid.Some? {
      PublicFiltersHasPaid(p, now);
      CombineMember(specs, IsPaid(p.paid.value), e);
    }
    if p.onlyAvailable == Some(true) {
      PublicFiltersHasAvailable(p, now);
      CombineMember(specs, OnlyAvailableEvent, e);
    }
    if HasText(p.text) {
      assert specs[0] == WithText(p.text.value);
      CombineMember(specs, WithText(p.text.value), e);
    }
  }

  lemma PublicFiltersHasPaid(p: EventSearchParameters, now: int)
    requires PublicFilters(p, now).Ok? && p.paid.Some?
    ensures IsPaid(p.paid.value) in PublicFilters(p, now).value
  {
  }

  lemma PublicFiltersHasAvailable(p: EventSearchParameters, now: int)
    requires PublicFilters(p, now).Ok? && p.onlyAvailable == Some(true)
    ensures OnlyAvailableEvent in PublicFilters(p, now).value
  {
  }

  /** A range whose start is after its end is refused, whatever else is asked. */
  lemma PublicSearchRejectsInvertedRange(rows: seq<Event>, p: EventSearchParameters, now: int)
    requires HasRange(p) && p.rangeStart.value > p.rangeEnd.value
    ensures PublicSearch(rows, p, now) == Err(ParameterNotValid)
  {
  }

  /** The sort mode has no effect on the result. */
  lemma PublicSearchIgnoresSort(rows: seq<Event>, p: EventSearchParameters, now: int, sort: Option<string>)
    ensures PublicSearch(rows, p, now) == PublicSearch(rows, p.(sort := sort), now)
  {
  }

  /** The category test as written: an empty list matches nothing, so the search is empty;
      a non-empty list is ignored, so the search is the same as without one. */
  lemma PublicSearchCategoryInversion(rows: seq<Event>, p: EventSearchParameters, now: int)
    ensures p.categories == Some([]) && PublicSearchEvents(rows, p, now).Ok? ==> PublicSearchEvents(rows, p, now).value == []
    ensures p.categories.Some? && p.categories.value != [] ==>
              PublicSearchEvents(rows, p, now) == PublicSearchEvents(rows, p.(categories := None), now)
  {
    if p.categories == Some([]) {
      EmptyCategoryListFindsNothing(rows, p, now);
    }
    if p.categories.Some? && p.categories.value != [] {
      CategoryListIgnored(p, now);
    }
  }

  /** An empty category list puts a predicate into the search that no row satisfies. */
  lemma EmptyCategoryListFindsNothing(rows: seq<Event>, p: EventSearchParameters, now: int)
    requires p.categories == Some([])
    ensures PublicSearchEvents(rows, p, now).Ok? ==> PublicSearchEvents(rows, p, now).value == []
  {
    var f := PublicFilters(p, now);
    if f.Ok? {
      var specs := f.value;
      assert InCategories([]) in specs;
      SelectNoneMatch(rows, specs, InCategories([]));
    }
  }

  /** A non-empty category list adds no predicate to the public search. */
  lemma CategoryListIgnored(p: EventSearchParameters, now: int)
    requires p.categories.Some? && p.categories.value != []
    ensures PublicFilters(p, now) == PublicFilters(p.(categories := None), now)
  {
  }

  /** The evidently intended public predicates: the category predicate enters when the list is
      non-empty. */
  function PublicFiltersIntended(p: EventSearchParameters, now: int): (r: Result<seq<Spec>>)
    ensures r.Err? <==> PublicFilters(p, now).Err?
    ensures r.Ok? && p.categories.Some? && p.categories.value != [] ==> InCategories(p.categories.value) in r.value
    ensures r.Ok? && (p.categories.None? || p.categories == Some([])) ==> r.value == PublicFilters(p.(categories := None), now).value
  {
    var specs :- PublicFilters(p.(categories := None), now);
    if p.categories.Some? && p.categories.value != [] then Ok([InCategories(p.categories.value)] + specs) else Ok(specs)
  }

  /** With the intended predicates, every row found lies in one of the requested categories. */
  lemma IntendedCategoryFilterSound(rows: seq<Event>, p: EventSearchParameters, now: int, e: Event)
    requires p.categories.Some? && p.categories.value != []
    requires PublicFiltersIntended(p, now).Ok?
    requires e in Select(rows, PublicFiltersIntended(p, now).value)
    ensures e.category.Some? && e.category.value in p.categories.value
  {
    var specs := PublicFiltersIntended(p, now).value;
    assert Combine(specs, e);
    assert specs[0] == InCategories(p.categories.value);
  }

  /** The predicates of the admin search: no range check and no state restriction. */
  function AdminFilters(p: EventSearchParameters, now: int): (r: seq<Spec>)
    ensures forall s | s in r :: !s.OnlyPublishedEvent?
    ensures !HasRange(p) ==> LaterCurrentDateTime(now) in r
    ensures p.categories.Some? && p.categories.value != [] ==> InCategories(p.categories.value) in r
    ensures p.states.None? || p.states == Some([]) ==> forall s | s in r :: !s.InStates?
    ensures p.users.Some? && p.users.value != [] ==> InUsers(p.users.value) in r
    ensures p.states.Some? && p.states.value != [] ==> InStates(p.states.value) in r
    ensures HasRange(p) ==> BetweenPeriod(p.rangeStart.value, p.rangeEnd.value) in r
  {
    var users := if p.users.Some? && p.users.value != [] then [InUsers(p.users.value)] else [];
    var states := if p.states.Some? && p.states.value != [] then [InStates(p.states.value)] else [];
    var cats := if p.categories.Some? && p.categories.value != [] then [InCategories(p.categories.value)] else [];
    var period := if HasRange(p) then [BetweenPeriod(p.rangeStart.value, p.rangeEnd.value)]
                  else [LaterCurrentDateTime(now)];
    users + states + cats + period
  }

  function AdminSearchEvents(rows: seq<Event>, p: EventSearchParameters, now: int): Result<seq<Event>> {
    OffsetPage(Select(rows, AdminFilters(p, now)), p.from, p.size)
  }

  /** `getEventsByFilterSearchForAdmin`: the full views of the admin search's events. */
  function AdminSearch(rows: seq<Event>, p: EventSearchParameters, now: int): (r: Result<seq<EventFullDto>>)
    ensures r.Ok? <==> AdminSearchEvents(rows, p, now).Ok?
    ensures r.Ok? ==> |r.value| == |AdminSearchEvents(rows, p, now).value|
    ensures r.Ok? ==> forall i | 0 <= i < |r.value| :: r.value[i] == ToEventFullDto(AdminSearchEvents(rows, p, now).value[i])
  {
    var events :- AdminSearchEvents(rows, p, now);
    Ok(seq(|events|, i requires 0 <= i < |events| => ToEventFullDto(events[i])))
  }

  /** Everything the admin search returns is a row that matches every present filter: one of
      the listed initiators, states and categories, and the date window (the given closed
      range, or strictly after `now`). */
  lemma AdminSearchSound(rows: seq<Event>, p: EventSearchParameters, now: int, e: Event)
    requires AdminSearchEvents(rows, p, now).Ok?
    requires e in AdminSearchEvents(rows, p, now).value
    ensures e in rows
    ensures p.users.Some? && p.users.value != [] ==> e.initiator in p.users.value
    ensures p.states.Some? && p.states.value != [] ==> e.state in p.states.value
    ensures p.categories.Some? && p.categories.value != [] ==> e.category.Some? && e.category.value in p.categories.value
    ensures !HasRange(p) ==> e.eventDate > now
    ensures HasRange(p) ==> p.rangeStart.value <= e.eventDate <= p.rangeEnd.value
  {
    var specs := AdminFilters(p, now);
    OffsetPageSubset(Select(rows, specs), p.from, p.size, e);
    assert Combine(specs, e);
    if p.users.Some? && p.users.value != [] {
      CombineMember(specs, InUsers(p.users.value), e);
    }
    if p.states.Some? && p.states.value != [] {
      CombineMember(specs, InStates(p.states.value), e);
    }
    if p.categories.Some? && p.categories.value != [] {
      CombineMember(specs, InCategories(p.categories.value), e);
    }
    if HasRange(p) {
      CombineMember(specs, BetweenPeriod(p.rangeStart.value, p.rangeEnd.value), e);
    } else {
      CombineMember(specs, LaterCurrentDateTime(now), e);
    }
  }

  /** An admin search without filters on the first page lists every future event, whatever
      its state; the public search would drop the unpublished ones. */
  lemma AdminSearchSeesEveryState(rows: seq<Event>, p: EventSearchParameters, now: int, e: Event)
    requires p.users.None? && p.states.None? && p.categories.None? && !HasRange(p)
    requires p.from == 0 && p.size >= |rows| && p.size >= 1
    requires e in rows && e.eventDate > now
    ensures AdminSearchEvents(rows, p, now).Ok? && e in AdminSearchEvents(rows, p, now).value
  {
    var specs := AdminFilters(p, now);
    assert specs == [LaterCurrentDateTime(now)];
    var all := Select(rows, specs);
    assert e in all;
    var page := AdminSearchEvents(rows, p, now).value;
    assert |page| == |all|;
    var k :| 0 <= k < |all| && all[k] == e;
    assert page[k] == all[k];
  }
}
