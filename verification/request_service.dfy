/** RequestServiceImpl: admission, cancellation, the initiator's listing and the batch
    resolution of participation requests. */
module RequestService {
  import opened Wrappers
  import EventModel
  import opened RequestModel
  import opened RequestMapper

  /** The tables the service touches. The request table's identity column hands out 1, 2, …,
      so the request with id `k` sits at position `k - 1`. */
  datatype RequestStore = RequestStore(users: set<int>, events: map<int, EventModel.Event>, requests: seq<Request>)

  function Min(a: int, b: int): int {
    if a < b then a else b
  }

  predicate IsFor(r: Request, eventId: int) {
    r.event == Some(eventId)
  }

  /** `findByEvent_Id`: the requests of one event, in table order. */
  function EventRequests(rs: seq<Request>, eventId: int): (r: seq<Request>)
    ensures |r| <= |rs|
    ensures forall x | x in r :: x in rs && IsFor(x, eventId)
    ensures forall x | x in rs && IsFor(x, eventId) :: x in r
  {
    if rs == [] then []
    else (if IsFor(rs[0], eventId) then [rs[0]] else []) + EventRequests(rs[1..], eventId)
  }

  /** `countByEvent_IdAndStatus(eventId, CONFIRMED)`. */
  function CountConfirmed(rs: seq<Request>, eventId: int): (n: nat)
    ensures n <= |EventRequests(rs, eventId)|
    ensures n == 0 <== forall x | x in rs :: x.status != CONFIRMED
  {
    if rs == [] then 0
    else (if IsFor(rs[0], eventId) && rs[0].status == CONFIRMED then 1 else 0) + CountConfirmed(rs[1..], eventId)
  }

  /** `findByRequester_IdAndEvent_Id(...) != null`: a request of any status exists for the pair. */
  predicate HasRequestFor(rs: seq<Request>, userId: int, eventId: int) {
    exists i | 0 <= i < |rs| :: rs[i].requester == Some(userId) && rs[i].event == Some(eventId)
  }

  // ---------------------------------------------------------------- invariants

  /** Ids follow positions and every stored request references an event and a requester. */
  predicate WellFormed(rs: seq<Request>) {
    forall i | 0 <= i < |rs| :: rs[i].id == i + 1 && rs[i].event.Some? && rs[i].requester.Some?
  }

  /** At most one request per (requester, event) pair. */
  predicate UniquePairs(rs: seq<Request>) {
    forall i, j | 0 <= i < j < |rs| :: !(rs[i].event == rs[j].event && rs[i].requester == rs[j].requester)
  }

  /** The event counters are non-negative, and no event with a positive limit has more
      CONFIRMED requests than its limit. */
  predicate CapacityOk(s: RequestStore) {
    forall eventId | eventId in s.events ::
      && s.events[eventId].confirmedRequests >= 0
      && (s.events[eventId].participantLimit > 0 ==> CountConfirmed(s.requests, eventId) <= s.events[eventId].participantLimit)
  }

  predicate Valid(s: RequestStore) {
    WellFormed(s.requests) && UniquePairs(s.requests) && CapacityOk(s)
  }

  lemma {:induction false} CountConfirmedAppend(rs: seq<Request>, r: Request, eventId: int)
    ensures CountConfirmed(rs + [r], eventId)
         == CountConfirmed(rs, eventId) + (if IsFor(r, eventId) && r.status == CONFIRMED then 1 else 0)
  {
    if rs == [] {
      assert rs + [r] == [r];
    } else {
      assert (rs + [r])[1..] == rs[1..] + [r];
      CountConfirmedAppend(rs[1..], r, eventId);
    }
  }

  /** Overwriting one request with one that is not CONFIRMED never raises a count. */
  lemma {:induction false} CountConfirmedDrop(rs: seq<Request>, i: int, r: Request, eventId: int)
    requires 0 <= i < |rs| && r.status != CONFIRMED
    ensures CountConfirmed(rs[i := r], eventId) <= CountConfirmed(rs, eventId)
  {
    if i > 0 {
      assert rs[i := r][1..] == rs[1..][i - 1 := r];
      CountConfirmedDrop(rs[1..], i - 1, r, eventId);
    } else {
      assert rs[i := r][1..] == rs[1..];
    }
  }

  // ---------------------------------------------------------------- admission

  /** `addUserRequest`: six guards in a fixed order, then the initial status. The event's
      confirmed-request counter is not touched. */
  function AddUserRequest(s: RequestStore, userId: int, eventId: int, now: int): (r: Result<(RequestStore, RequestDto)>)
    ensures userId !in s.users ==> r == Err(NotFound)
    ensures userId in s.users && eventId !in s.events ==> r == Err(NotFound)
    ensures userId in s.users && eventId in s.events && HasRequestFor(s.requests, userId, eventId) ==> r == Err(DataConflict)
    ensures r.Err? && userId in s.users && eventId in s.events ==> r.error == DataConflict
    ensures r.Ok? <==>
      && userId in s.users && eventId in s.events
      && !HasRequestFor(s.requests, userId, eventId)
      && userId != s.events[eventId].initiator
      && s.events[eventId].state == EventModel.PUBLISHED
      && !(s.events[eventId].participantLimit > 0 && CountConfirmed(s.requests, eventId) >= s.events[eventId].participantLimit)
    ensures r.Ok? ==>
      var (s', d) := r.value;
      var e := s.events[eventId];
      && s'.events == s.events && s'.users == s.users
      && |s'.requests| == |s.requests| + 1 && s'.requests[..|s.requests|] == s.requests
      && d.id == |s.requests| + 1 && d.event == Some(eventId) && d.requester == Some(userId) && d.created == now
      && (d.status == CONFIRMED <==> !e.requestModeration || e.participantLimit == 0)
      && (d.status != CONFIRMED ==> d.status == PENDING)
      && ToRequestDto(s'.requests[|s.requests|]) == Ok(d)
  {
    if userId !in s.users then Err(NotFound)
    else if eventId !in s.events then Err(NotFound)
    else if HasRequestFor(s.requests, userId, eventId) then Err(DataConflict)
    else
      var event := s.events[eventId];
      if userId == event.initiator then Err(DataConflict)
      else if event.state != EventModel.PUBLISHED then Err(DataConflict)
      else if event.participantLimit > 0 && CountConfirmed(s.requests, eventId) >= event.participantLimit then Err(DataConflict)
      else
        var status := if !event.requestModeration then CONFIRMED else PENDING;
        var status := if event.participantLimit == 0 then CONFIRMED else status;
        var request := Request(|s.requests| + 1, now, Some(eventId), Some(userId), status);
        Ok((s.(requests := s.requests + [request]), ToRequestDto(request).value))
  }

  lemma AddUserRequestKeepsValid(s: RequestStore, userId: int, eventId: int, now: int)
    requires Valid(s)
    requires AddUserRequest(s, userId, eventId, now).Ok?
    ensures Valid(AddUserRequest(s, userId, eventId, now).value.0)
  {
    var s' := AddUserRequest(s, userId, eventId, now).value.0;
    var r := s'.requests[|s.requests|];
    assert s'.requests == s.requests + [r];
    forall eid | eid in s'.events
      ensures s'.events[eid].participantLimit > 0 ==> CountConfirmed(s'.requests, eid) <= s'.events[eid].participantLimit
    {
      CountConfirmedAppend(s.requests, r, eid);
    }
    forall i, j | 0 <= i < j < |s'.requests|
      ensures !(s'.requests[i].event == s'.requests[j].event && s'.requests[i].requester == s'.requests[j].requester)
    {
      if j == |s.requests| {
        assert s'.requests[i] == s.requests[i];
      }
    }
  }

  // ---------------------------------------------------------------- cancellation

  /** `cancelUserRequest` as written: besides the user and the request it looks up an EVENT
      under the request's id, and an absent event ends the call. */
  function CancelUserRequest(s: RequestStore, userId: int, requestId: int): (r: Result<(RequestStore, RequestDto)>)
    ensures userId !in s.users ==> r == Err(NotFound)
    ensures userId in s.users && requestId !in s.events ==> r == Err(NotFound)
    ensures r.Ok? <==>
      && userId in s.users && requestId in s.events && 1 <= requestId <= |s.requests|
      && s.requests[requestId - 1].requester == Some(userId) && s.requests[requestId - 1].event.Some?
    ensures (&& WellFormed(s.requests) && userId in s.users && requestId in s.events
             && 1 <= requestId <= |s.requests| && s.requests[requestId - 1].requester == Some(userId)) ==> r.Ok?
    ensures r.Ok? ==>
      var (s', d) := r.value;
      && requestId in s.events
      && 1 <= requestId <= |s.requests|
      && s.requests[requestId - 1].requester == Some(userId)
      && s' == s.(requests := s.requests[requestId - 1 := s.requests[requestId - 1].(status := CANCELED)])
      && d.status == CANCELED && d.id == s.requests[requestId - 1].id
  {
    if userId !in s.users then Err(NotFound)
    else if requestId !in s.events then Err(NotFound)
    else CancelOwned(s, userId, requestId)
  }

  /** The part of the cancellation after the lookups of user and event: the request must exist
      and belong to the caller, and it becomes CANCELED whatever its status was. */
  function CancelOwned(s: RequestStore, userId: int, requestId: int): (r: Result<(RequestStore, RequestDto)>)
    ensures !(1 <= requestId <= |s.requests|) ==> r == Err(NotFound)
    ensures (&& 1 <= requestId <= |s.requests| && s.requests[requestId - 1].requester.Some?
             && s.requests[requestId - 1].requester != Some(userId)) ==> r == Err(NotFound)
    ensures r.Ok? <==>
      && 1 <= requestId <= |s.requests|
      && s.requests[requestId - 1].requester == Some(userId) && s.requests[requestId - 1].event.Some?
    ensures (&& WellFormed(s.requests) && 1 <= requestId <= |s.requests|
             && s.requests[requestId - 1].requester == Some(userId)) ==> r.Ok?
    ensures r.Err? ==> r.error == NotFound || r.error == InternalError
    ensures r.Ok? ==>
      var (s', d) := r.value;
      && 1 <= requestId <= |s.requests|
      && s.requests[requestId - 1].requester == Some(userId)
      && s' == s.(requests := s.requests[requestId - 1 := s.requests[requestId - 1].(status := CANCELED)])
      && d.status == CANCELED && d.id == s.requests[requestId - 1].id
  {
    if !(1 <= requestId <= |s.requests|) then Err(NotFound)
    else
      var request := s.requests[requestId - 1];
      if request.requester.None? then Err(InternalError)
      else if request.requester.value != userId then Err(NotFound)
      else
        var request := request.(status := CANCELED);
        var d :- ToRequestDto(request);
        Ok((s.(requests := s.requests[requestId - 1 := request]), d))
  }

  /** The evidently intended cancellation: no event lookup. On a well-formed store it succeeds
      exactly when the user exists and owns the request. */
  function CancelUserRequestIntended(s: RequestStore, userId: int, requestId: int): (r: Result<(RequestStore, RequestDto)>)
    requires WellFormed(s.requests)
    ensures r.Ok? <==> userId in s.users && 1 <= requestId <= |s.requests| && s.requests[requestId - 1].requester == Some(userId)
    ensures r.Err? ==> r.error == NotFound
    ensures r.Ok? ==> |r.value.0.requests| == |s.requests| && r.value.0.events == s.events
    ensures r.Ok? ==> r.value.0.requests[requestId - 1].status == CANCELED
  {
    if userId !in s.users then Err(NotFound) else CancelOwned(s, userId, requestId)
  }

  /** The owner of request 1 cannot cancel it when no event happens to have id 1, while the
      intended cancellation succeeds. */
  lemma CancelNeedsEventWithRequestId()
    ensures var r := Request(1, 0, Some(7), Some(5), PENDING);
            var s := RequestStore({5}, map[], [r]);
            && CancelUserRequest(s, 5, 1) == Err(NotFound)
            && CancelUserRequestIntended(s, 5, 1).Ok?
  {
  }

  lemma CancelKeepsValid(s: RequestStore, userId: int, requestId: int)
    requires Valid(s)
    requires CancelOwned(s, userId, requestId).Ok?
    ensures Valid(CancelOwned(s, userId, requestId).value.0)
    ensures CancelOwned(s, userId, requestId).value.0.events == s.events
  {
    var s' := CancelOwned(s, userId, requestId).value.0;
    var i := requestId - 1;
    forall eid | eid in s'.events
      ensures s'.events[eid].participantLimit > 0 ==> CountConfirmed(s'.requests, eid) <= s'.events[eid].participantLimit
    {
      CountConfirmedDrop(s.requests, i, s.requests[i].(status := CANCELED), eid);
    }
  }

  // ---------------------------------------------------------------- listing

  /** `getUserRequestsByEvent`: only the event's initiator may list its requests. */
  function GetUserRequestsByEvent(s: RequestStore, userId: int, eventId: int): (r: Result<seq<RequestDto>>)
    ensures userId !in s.users || eventId !in s.events ==> r == Err(NotFound)
    ensures userId in s.users && eventId in s.events && s.events[eventId].initiator != userId ==> r == Err(DataConflict)
    ensures r.Ok? ==> eventId in s.events && s.events[eventId].initiator == userId
    ensures r.Ok? ==> r == ToDtos(EventRequests(s.requests, eventId))
    ensures WellFormed(s.requests) && userId in s.users && eventId in s.events && s.events[eventId].initiator == userId ==> r.Ok?
  {
    if userId !in s.users then Err(NotFound)
    else if eventId !in s.events then Err(NotFound)
    else if s.events[eventId].initiator != userId then Err(DataConflict)
    else
      var mine := EventRequests(s.requests, eventId);
      assert WellFormed(s.requests) ==> forall i | 0 <= i < |mine| :: mine[i] in s.requests;
      ToDtos(mine)
  }

  // ---------------------------------------------------------------- batch resolution

  /** How many of the event's requests a batch may confirm: what is left under the limit in
      CONFIRMED mode, nothing in any other mode. */
  function Room(e: EventModel.Event, desired: Status): int {
    if desired == CONFIRMED then e.participantLimit - e.confirmedRequests else 0
  }

  /** Reference definition of the fill-then-spill rule: in list order, the first `room`
      requests become CONFIRMED and the rest REJECTED, whatever their earlier status. */
  function FillSpill(rs: seq<Request>, room: int): (r: seq<Request>)
    ensures |r| == |rs|
  {
    seq(|rs|, i requires 0 <= i < |rs| => rs[i].(status := if i < room then CONFIRMED else REJECTED))
  }

  lemma FillSpillCons(x: Request, xs: seq<Request>, room: int)
    ensures FillSpill([x] + xs, room)
         == [x.(status := if 0 < room then CONFIRMED else REJECTED)] + FillSpill(xs, room - 1)
  {
    var l := FillSpill([x] + xs, room);
    var r := [x.(status := if 0 < room then CONFIRMED else REJECTED)] + FillSpill(xs, room - 1);
    assert forall i | 1 <= i < |l| :: ([x] + xs)[i] == xs[i - 1];
    assert forall i | 0 <= i < |l| :: l[i] == r[i];
  }

  /** The Java loop over `findByEvent_Id(eventId)`: confirm while the running count is below
      the limit, reject after. `confirmed ++ rejected` is the reference resolution, and the
      running count never passes the limit. */
  method ResolveBatch(mine: seq<Request>, e: EventModel.Event, desired: Status)
    returns (confirmed: seq<Request>, rejected: seq<Request>, quantity: int)
    requires e.confirmedRequests < e.participantLimit
    ensures confirmed + rejected == FillSpill(mine, Room(e, desired))
    ensures |confirmed| == Min(Room(e, desired), |mine|)
    ensures forall x | x in confirmed :: x.status == CONFIRMED
    ensures forall x | x in rejected :: x.status == REJECTED
    ensures quantity == e.confirmedRequests + |confirmed| <= e.participantLimit
    ensures desired == CONFIRMED ==> quantity == Min(e.participantLimit, e.confirmedRequests + |mine|)
    ensures desired != CONFIRMED ==> confirmed == [] && quantity == e.confirmedRequests
  {
    var limit := e.participantLimit;
    var room := Room(e, desired);
    quantity := e.confirmedRequests;
    confirmed, rejected := [], [];
    var i := 0;
    while i < |mine|
      invariant 0 <= i <= |mine|
      invariant confirmed + rejected == FillSpill(mine, room)[..i]
      invariant |confirmed| == Min(room, i)
      invariant forall x | x in confirmed :: x.status == CONFIRMED
      invariant forall x | x in rejected :: x.status == REJECTED
      invariant quantity == e.confirmedRequests + |confirmed| <= limit
      invariant rejected != [] ==> |confirmed| == room
    {
      var request := mine[i];
      if desired == CONFIRMED && quantity < limit {
        assert rejected == [];
        confirmed := confirmed + [request.(status := CONFIRMED)];
        quantity := quantity + 1;
      } else {
        rejected := rejected + [request.(status := REJECTED)];
      }
      assert FillSpill(mine, room)[..i + 1] == FillSpill(mine, room)[..i] + [FillSpill(mine, room)[i]];
      i := i + 1;
    }
    assert FillSpill(mine, room)[..|mine|] == FillSpill(mine, room);
  }

  /** The batch applied to the whole table: the event's requests are resolved in table order,
      every other request is left alone. */
  function ApplyBatch(rs: seq<Request>, eventId: int, room: int): (r: seq<Request>)
    ensures |r| == |rs|
    ensures forall i | 0 <= i < |rs| :: r[i].(status := rs[i].status) == rs[i]
    ensures forall i | 0 <= i < |rs| && !IsFor(rs[i], eventId) :: r[i] == rs[i]
  {
    if rs == [] then []
    else if IsFor(rs[0], eventId) then
      [rs[0].(status := if room > 0 then CONFIRMED else REJECTED)] + ApplyBatch(rs[1..], eventId, room - 1)
    else [rs[0]] + ApplyBatch(rs[1..], eventId, room)
  }

  /** Read back per event, the table after the batch holds exactly the reference resolution. */
  lemma {:induction false} ApplyBatchResolves(rs: seq<Request>, eventId: int, room: int)
    ensures EventRequests(ApplyBatch(rs, eventId, room), eventId) == FillSpill(EventRequests(rs, eventId), room)
  {
    if rs != [] {
      var a := ApplyBatch(rs, eventId, room);
      ApplyBatchResolves(rs[1..], eventId, if IsFor(rs[0], eventId) then room - 1 else room);
      assert a[1..] == ApplyBatch(rs[1..], eventId, if IsFor(rs[0], eventId) then room - 1 else room);
      if IsFor(rs[0], eventId) {
        FillSpillCons(rs[0], EventRequests(rs[1..], eventId), room);
      }
    }
  }

  function Max0(a: int): nat {
    if a < 0 then 0 else a
  }

  /** After the batch the event has `min(room, n)` CONFIRMED requests, `n` being its number of
      requests. */
  lemma {:induction false} ApplyBatchCountsOwn(rs: seq<Request>, eventId: int, room: int)
    ensures CountConfirmed(ApplyBatch(rs, eventId, room), eventId) == Min(Max0(room), |EventRequests(rs, eventId)|)
  {
    if rs != [] {
      var room' := if IsFor(rs[0], eventId) then room - 1 else room;
      var a := ApplyBatch(rs, eventId, room);
      assert a[1..] == ApplyBatch(rs[1..], eventId, room');
      assert |EventRequests(rs, eventId)| == (if IsFor(rs[0], eventId) then 1 else 0) + |EventRequests(rs[1..], eventId)|;
      ApplyBatchCountsOwn(rs[1..], eventId, room');
    }
  }

  /** Every other event keeps its CONFIRMED count through the batch. */
  lemma {:induction false} ApplyBatchCountsOther(rs: seq<Request>, eventId: int, room: int, other: int)
    requires other != eventId
    ensures CountConfirmed(ApplyBatch(rs, eventId, room), other) == CountConfirmed(rs, other)
  {
    if rs != [] {
      var room' := if IsFor(rs[0], eventId) then room - 1 else room;
      var a := ApplyBatch(rs, eventId, room);
      assert a[1..] == ApplyBatch(rs[1..], eventId, room');
      ApplyBatchCountsOther(rs[1..], eventId, room', other);
    }
  }

  /** `EventRequestStatusUpdateResult`. */
  datatype BatchResult = BatchResult(confirmedRequests: seq<RequestDto>, rejectedRequests: seq<RequestDto>)

  /** `changeStatusRequest`. The limit guard compares the event's own counter with its limit
      before the desired status is read, so it also stops reject batches and always fires
      for limit 0. Nobody checks that the caller is the initiator, the ids named in the body
      are never read, and every request of the event, of any status, is resolved. The counter
      is written once, at the end. A null desired status is a null dereference. */
  function ChangeStatusRequest(s: RequestStore, userId: int, eventId: int, desired: Option<Status>)
    : (r: Result<(RequestStore, BatchResult)>)
    ensures userId !in s.users || eventId !in s.events ==> r == Err(NotFound)
    ensures (&& userId in s.users && eventId in s.events
             && s.events[eventId].confirmedRequests >= s.events[eventId].participantLimit) ==> r == Err(DataConflict)
    ensures (&& userId in s.users && eventId in s.events && desired.None?
             && s.events[eventId].confirmedRequests < s.events[eventId].participantLimit) ==> r == Err(InternalError)
    ensures r.Ok? ==>
      var s' := r.value.0; var b := r.value.1;
      var e := s.events[eventId];
      var mine := EventRequests(s.requests, eventId);
      var k := Min(Room(e, desired.value), |mine|);
      && e.confirmedRequests < e.participantLimit
      && s'.users == s.users
      && s'.events == s.events[eventId := e.(confirmedRequests := e.confirmedRequests + k)]
      && s'.requests == ApplyBatch(s.requests, eventId, Room(e, desired.value))
      && e.confirmedRequests + k <= e.participantLimit
      && Reports(b, mine, k)
  {
    if userId !in s.users then Err(NotFound)
    else if eventId !in s.events then Err(NotFound)
    else
      var event := s.events[eventId];
      if event.confirmedRequests >= event.participantLimit then Err(DataConflict)
      else if desired.None? then Err(InternalError)
      else
        var room := Room(event, desired.value);
        var mine := EventRequests(s.requests, eventId);
        var b :- BatchLists(mine, room);
        var event := event.(confirmedRequests := event.confirmedRequests + Min(room, |mine|));
        Ok((s.(events := s.events[eventId := event], requests := ApplyBatch(s.requests, eventId, room)), b))
  }

  /** `b` lists the views of the first `k` requests of `mine` as CONFIRMED and of the rest as
      REJECTED, in list order. */
  predicate Reports(b: BatchResult, mine: seq<Request>, k: int)
    requires 0 <= k <= |mine|
  {
    && |b.confirmedRequests| == k && |b.rejectedRequests| == |mine| - k
    && (forall i | 0 <= i < k :: ToRequestDto(mine[i].(status := CONFIRMED)) == Ok(b.confirmedRequests[i]))
    && (forall i | 0 <= i < |mine| - k :: ToRequestDto(mine[k + i].(status := REJECTED)) == Ok(b.rejectedRequests[i]))
  }

  /** The two response lists of a batch: the views of the requests the resolution confirms and
      of those it rejects, each in list order. Mapping fails iff some request cannot be
      viewed. */
  function BatchLists(mine: seq<Request>, room: nat): (r: Result<BatchResult>)
    ensures r.Ok? <==> forall i | 0 <= i < |mine| :: ToRequestDto(mine[i]).Ok?
    ensures r.Ok? ==> Reports(r.value, mine, Min(room, |mine|))
  {
    var resolved := FillSpill(mine, room);
    var k := Min(room, |mine|);
    assert forall i | 0 <= i < |mine| :: ToRequestDto(resolved[i]).Ok? == ToRequestDto(mine[i]).Ok?;
    var confirmed :- ToDtos(resolved[..k]);
    var rejected :- ToDtos(resolved[k..]);
    Ok(BatchResult(confirmed, rejected))
  }

  /** On a well-formed table only the guards can fail. */
  lemma ChangeStatusOnlyGuardsFail(s: RequestStore, userId: int, eventId: int, desired: Status)
    requires WellFormed(s.requests)
    requires userId in s.users && eventId in s.events
    requires s.events[eventId].confirmedRequests < s.events[eventId].participantLimit
    ensures ChangeStatusRequest(s, userId, eventId, Some(desired)).Ok?
  {
    var mine := EventRequests(s.requests, eventId);
    assert forall i | 0 <= i < |mine| :: mine[i] in s.requests;
  }

  /** Any existing user may resolve the requests of any event: the caller's identity does not
      enter the result. */
  lemma ChangeStatusIgnoresCaller(s: RequestStore, u1: int, u2: int, eventId: int, desired: Option<Status>)
    requires u1 in s.users && u2 in s.users
    ensures ChangeStatusRequest(s, u1, eventId, desired) == ChangeStatusRequest(s, u2, eventId, desired)
  {
  }

  /** On a valid store every batch that passes the guards succeeds and preserves the store
      invariants; the table keeps every request's id, event and requester, and the event's
      CONFIRMED count stays within its limit. */
  lemma ChangeStatusKeepsValid(s: RequestStore, userId: int, eventId: int, desired: Status)
    requires Valid(s)
    requires userId in s.users && eventId in s.events
    requires s.events[eventId].confirmedRequests < s.events[eventId].participantLimit
    ensures ChangeStatusRequest(s, userId, eventId, Some(desired)).Ok?
    ensures Valid(ChangeStatusRequest(s, userId, eventId, Some(desired)).value.0)
  {
    ChangeStatusOnlyGuardsFail(s, userId, eventId, desired);
    var s' := ChangeStatusRequest(s, userId, eventId, Some(desired)).value.0;
    var e := s.events[eventId];
    var room := Room(e, desired);
    assert room >= 0;
    forall eid | eid in s'.events
      ensures s'.events[eid].confirmedRequests >= 0
      ensures s'.events[eid].participantLimit > 0 ==> CountConfirmed(s'.requests, eid) <= s'.events[eid].participantLimit
    {
      if eid == eventId {
        ApplyBatchCountsOwn(s.requests, eventId, room);
      } else {
        ApplyBatchCountsOther(s.requests, eventId, room, eid);
      }
    }
  }

  /** After a batch the counter exceeds the number of CONFIRMED requests by exactly the
      counter's old value: the requests confirmed earlier are resolved again, yet the counter
      keeps them. */
  lemma BatchCounterDrift(s: RequestStore, userId: int, eventId: int, desired: Option<Status>)
    requires ChangeStatusRequest(s, userId, eventId, desired).Ok?
    ensures var s' := ChangeStatusRequest(s, userId, eventId, desired).value.0;
            s'.events[eventId].confirmedRequests
            == s.events[eventId].confirmedRequests + CountConfirmed(s'.requests, eventId)
  {
    var e := s.events[eventId];
    ApplyBatchCountsOwn(s.requests, eventId, Room(e, desired.value));
  }

  /** A reject batch rejects every request of the event, the confirmed ones included. */
  lemma RejectBatchRejectsAll(s: RequestStore, userId: int, eventId: int, desired: Status)
    requires desired != CONFIRMED
    requires ChangeStatusRequest(s, userId, eventId, Some(desired)).Ok?
    ensures var s' := ChangeStatusRequest(s, userId, eventId, Some(desired)).value.0;
            && CountConfirmed(s'.requests, eventId) == 0
            && s'.events[eventId].confirmedRequests == s.events[eventId].confirmedRequests
            && forall x | x in EventRequests(s'.requests, eventId) :: x.status == REJECTED
  {
    var s' := ChangeStatusRequest(s, userId, eventId, Some(desired)).value.0;
    var e := s.events[eventId];
    assert Room(e, desired) == 0;
    assert s'.requests == ApplyBatch(s.requests, eventId, 0);
    assert s'.events[eventId] == e.(confirmedRequests := e.confirmedRequests + 0);
    ApplyBatchCountsOwn(s.requests, eventId, 0);
    ApplyBatchResolves(s.requests, eventId, 0);
    var f := FillSpill(EventRequests(s.requests, eventId), 0);
    assert forall x | x in f :: x.status == REJECTED;
  }
}
