# explore-with-me: a Dafny model of the main service's core

explore-with-me is an event-sharing service. Users publish events. Other users ask to take part
in them, comment on them and react to the comments. Administrators moderate events, keep
categories and users, and group events into compilations. A separate statistics server counts
page hits.

This project models the core of the main service as pure functions over immutable stores. One
module covers each service, and the mappers each service relies on get their own modules.
The model includes:

- the event lifecycle: creation, user edits, admin edits, the two-hour and one-hour date
  guards, and the partial-update merge;
- search-filter composition for the public search and the admin search;
- participation requests: admission, cancellation, the initiator's listing, and batch
  resolution by the "fill-then-spill" rule;
- comments and their like/dislike records;
- category-name and e-mail uniqueness;
- compilations;
- the request mapper's round trip;
- the statistics endpoint's parameter normalisation.

Conventions:

- Timestamps are whole seconds, and `now` is a parameter.
- Java `null` is `None`.
- Every error a service raises is a `Result` error: `NotFound`, `DataConflict`,
  `ParameterNotValid` or `ConstraintViolation`. The statistics endpoint's 400 is `BadRequest`.
  An unchecked runtime failure is `InternalError`. That covers a null dereference, a division
  by zero and an invalid `PageRequest`.

The services follow the code as written, defects included. Each defect also has a corrected
counterpart with its intended property proved; see "Findings".

Files:

- `common.dfy`: `Option`/`Result`, Java string tests, and paging.
- `event_model.dfy`: the Event entity, its bodies, and `EventMapper`.
- `event_specifications.dfy`: the search predicates.
- `event_service.dfy`: the event service.
- `request_model.dfy`: requests and `RequestMapper`.
- `request_service.dfy`: the request service.
- `comments.dfy`: comments and reactions.
- `categories.dfy`: categories.
- `users.dfy`: users.
- `compilations.dfy`: compilations.
- `stats.dfy`: the statistics endpoint.

Behaviours of the code a reader may not expect:

- The admin date guard reads the merged date, not the stored one. The mapper edits the stored
  event in place.
- An admin publish does not stamp `publishedOn`.
- Admission refuses a second request for the same user and event whatever the first one's
  status. It never touches the event's confirmed-request counter.
- Cancellation does not lower the counter either.
- A batch is refused when the counter has reached the limit, whatever status is asked for.
- A batch resolves every request of the event, not only the listed PENDING ones.
- Nobody checks that the caller of a batch is the event's initiator.
- The sort mode of the public search is read and then discarded.

## Model

| member | source | states |
|---|---|---|
| Paging.JavaDiv | main-service/src/main/java/ru/practicum/event/service/EventServiceImpl.java:164 | Java integer division: it agrees with mathematical division for non-negative operands and rounds toward zero for a negative dividend |
| Paging.PageOf | main-service/src/main/java/ru/practicum/user/service/UserServiceImpl.java:30 | A page request fails exactly when the page is negative or the size below one. Item k of page p is row p·size+k, and a page never holds more rows than the table. A page is full while rows remain and empty past the end |
| Paging.OffsetPage | main-service/src/main/java/ru/practicum/event/service/EventServiceImpl.java:164 | The searches turn an item offset into a page index by dividing by the size. A size of 0 fails |
| Paging.OffsetPageStart | main-service/src/main/java/ru/practicum/event/service/EventServiceImpl.java:164 | The page starts at item `from` only when `from` is a multiple of the size; otherwise it starts at the multiple below |
| Paging.OffsetPageSubset | main-service/src/main/java/ru/practicum/event/service/EventServiceImpl.java:164 | Every event on a search page is one of the filtered rows |
| Text.HasText | main-service/src/main/java/ru/practicum/event/dto/UpdateEventUserRequest.java:45-47 | A text field counts as present iff it is non-null and holds a non-whitespace character |
| Text.Lower | main-service/src/main/java/ru/practicum/event/repository/EventSpecifications.java:17-20 | Lower-casing keeps the length and maps each character independently |
| Text.LowerChar | main-service/src/main/java/ru/practicum/event/repository/EventSpecifications.java:17-20 | Lower-casing changes exactly the ASCII capitals and the basic Cyrillic capitals (Ё included), each to its small letter, and what it returns is never such a capital |
| EventModel.HasAnnotation | main-service/src/main/java/ru/practicum/event/dto/UpdateEventUserRequest.java:45-47 | The annotation is present iff non-null and not blank |
| EventModel.HasCategory | main-service/src/main/java/ru/practicum/event/dto/UpdateEventUserRequest.java:49-51 | Category 0 counts as absent, like null; any other id is present |
| EventModel.HasDescription | main-service/src/main/java/ru/practicum/event/dto/UpdateEventUserRequest.java:53-55 | The description is present iff non-null and not blank |
| EventModel.HasTitle | main-service/src/main/java/ru/practicum/event/dto/UpdateEventUserRequest.java:69-71 | The title is present iff non-null and not blank |
| EventModel.ZeroLimitIsAbsent | main-service/src/main/java/ru/practicum/event/dto/UpdateEventUserRequest.java:65-67 | An explicit limit of 0 and an omitted limit are the same request |
| EventMapper.ToEventFullDto | main-service/src/main/java/ru/practicum/event/mapper/EventMapper.java:15-33 | The full view carries id, state, date, limit and publication time, and reports 0 confirmed requests |
| EventMapper.ToEventShortDto | main-service/src/main/java/ru/practicum/event/mapper/EventMapper.java:35-46 | The short view carries id, date, title, views, initiator, annotation, category and paid flag, and reports 0 confirmed requests |
| EventMapper.FullDtoForgetsOnlyCounter | main-service/src/main/java/ru/practicum/event/mapper/EventMapper.java:15-33 | Two events have the same full view iff they differ at most in the confirmed-request counter |
| EventMapper.FromNewEventDto | main-service/src/main/java/ru/practicum/event/mapper/EventMapper.java:49-69 | A new event copies the body's fields, including a null category, and starts with no confirmations, no views and no publication time. A present paid flag is copied |
| EventMapper.MergeUpdate | main-service/src/main/java/ru/practicum/event/mapper/EventMapper.java:72-105 | The merge never changes the title. The limit is written when the request's limit is non-zero or a title is present |
| EventMapper.MergeUpdateFields | main-service/src/main/java/ru/practicum/event/mapper/EventMapper.java:72-105 | Each present field overwrites its stored value and each absent one keeps it. Id, state, counter, initiator, paid, moderation, timestamps, views and title are never changed |
| EventMapper.MergeNeverZeroesLimitWithoutTitle | main-service/src/main/java/ru/practicum/event/mapper/EventMapper.java:96-98 | Without a title the limit branch cannot reset a limit to 0 |
| EventMapper.TitleUpdateResetsLimit | main-service/src/main/java/ru/practicum/event/mapper/EventMapper.java:100-102 | A title-only update keeps the old title and drops a limit of 50 to 0 |
| EventMapper.MergeUpdateIntended | main-service/src/main/java/ru/practicum/event/mapper/EventMapper.java:72-105 | The corrected merge writes the title when present and the limit only when non-zero, so it never zeroes a limit. It agrees with the as-written merge on every other field |
| EventSpecifications.Combine | main-service/src/main/java/ru/practicum/event/repository/EventSpecifications.java:57-67 | The combined predicate holds iff every predicate of the list holds |
| EventSpecifications.Matches | main-service/src/main/java/ru/practicum/event/repository/EventSpecifications.java:15-55 | The text test accepts everything for an empty text. An empty category, user or state list accepts nothing, and neither does the category test on an event without a category. A period whose start is after its end accepts nothing. The availability test accepts every event with a limit of 0 or less |
| EventSpecifications.Select | main-service/src/main/java/ru/practicum/event/repository/EventSpecifications.java:57-67 | The query returns exactly the stored rows that satisfy the combination |
| EventSpecifications.CombineMember | main-service/src/main/java/ru/practicum/event/repository/EventSpecifications.java:57-67 | A row accepted by the combination satisfies each member predicate |
| EventSpecifications.SelectNoneMatch | main-service/src/main/java/ru/practicum/event/repository/EventSpecifications.java:57-67 | A member predicate that no row satisfies empties the result |
| EventSpecifications.CombineEmpty | main-service/src/main/java/ru/practicum/event/repository/EventSpecifications.java:57-67 | The empty combination accepts every event |
| EventSpecifications.CombineOrderIrrelevant | main-service/src/main/java/ru/practicum/event/repository/EventSpecifications.java:57-67 | Two lists holding the same predicates accept the same events, whatever their order |
| EventSpecifications.CombineAppend | main-service/src/main/java/ru/practicum/event/repository/EventSpecifications.java:57-67 | Adding a predicate accepts exactly the events that pass both the old list and the new predicate, so the result can only shrink |
| EventSpecifications.PeriodBounds | main-service/src/main/java/ru/practicum/event/repository/EventSpecifications.java:38-47 | The period test includes both ends, and the "later than" test excludes the instant itself |
| EventSpecifications.FullEventIsAvailable | main-service/src/main/java/ru/practicum/event/repository/EventSpecifications.java:50-55 | An event whose counter equals its limit still counts as available |
| EventSpecifications.TextMatchIgnoresCase | main-service/src/main/java/ru/practicum/event/repository/EventSpecifications.java:15-22 | The text test gives the same answer for the query and its lower-case form |
| EventSpecifications.LowerIdempotent | main-service/src/main/java/ru/practicum/event/repository/EventSpecifications.java:15-22 | Lower-casing twice is the same as once |
| EventService.CheckDateTime | main-service/src/main/java/ru/practicum/event/service/EventServiceImpl.java:273-282 | A date passes iff it is at least `hours` hours after now; a date exactly on the bound passes. Failure is a validation error |
| EventService.PublishedIsFinal | main-service/src/main/java/ru/practicum/event/service/EventServiceImpl.java:211-249 | No edit leaves PUBLISHED. The only way into PUBLISHED is an admin publish of a PENDING event |
| EventService.AddEvent | main-service/src/main/java/ru/practicum/event/service/EventServiceImpl.java:59-69 | Creation succeeds iff the date passes the two-hour guard, the user exists and `paid` is not null. With the date passing, an unknown user is NotFound and a null `paid` is InternalError. The new event is PENDING with no confirmations, moderation defaults to true, and it is filed under a fresh id |
| EventService.AddEventKeepsValid | main-service/src/main/java/ru/practicum/event/service/EventServiceImpl.java:59-69 | Creation keeps every event filed under its own id, below the counter |
| EventService.InitiatedBy | main-service/src/main/java/ru/practicum/event/service/EventServiceImpl.java:53 | Every row the initiator filter keeps was initiated by the user, and it keeps no more rows than it was given |
| EventService.InitiatedByExact | main-service/src/main/java/ru/practicum/event/service/EventServiceImpl.java:53 | The initiator filter keeps exactly the rows the user initiated |
| EventService.PageViews | main-service/src/main/java/ru/practicum/event/service/EventServiceImpl.java:52-56 | Item k of the listing is the short view of row from·size+k of the user's events; the page fails only on bad paging and is full while rows remain |
| EventService.GetEventsByUser | main-service/src/main/java/ru/practicum/event/service/EventServiceImpl.java:49-56 | Listing an unknown user is NotFound. Otherwise it fails only on bad paging. Item k of the page is the short view of the user's event number from·size+k, in table order, and the page is full while such events remain. Every event listed is the user's own |
| EventService.GetEventsByUserListsStored | main-service/src/main/java/ru/practicum/event/service/EventServiceImpl.java:49-56 | When the rows are the stored events in id order, every item listed is the short view of a stored event the user initiated |
| EventService.PageViewsKeepInitiator | main-service/src/main/java/ru/practicum/event/service/EventServiceImpl.java:53-56 | A page cut from one user's events lists only that user as initiator |
| EventService.GetEventByUserAndById | main-service/src/main/java/ru/practicum/event/service/EventServiceImpl.java:71-82 | An event is visible here iff the user exists and initiated it; otherwise NotFound |
| EventService.AddedEventVisibleToInitiator | main-service/src/main/java/ru/practicum/event/service/EventServiceImpl.java:59-82 | An event just created reads back unchanged for its initiator and is NotFound for anyone else |
| EventService.UpdateEventByUser | main-service/src/main/java/ru/practicum/event/service/EventServiceImpl.java:85-116 | An unknown user or event is NotFound and a PUBLISHED event is a conflict, before any change. A success passed the two-hour guard on the merged date. It stores the merge, with CANCEL_REVIEW giving CANCELED and SEND_TO_REVIEW giving PENDING, both stamping the publication time. Any other action, or none, changes neither state nor stamp |
| EventService.UpdateEventByAdmin | main-service/src/main/java/ru/practicum/event/service/EventServiceImpl.java:209-249 | An unknown event is NotFound. The one-hour guard reads the merged date. A success stores the merge with a new state and the old publication time |
| EventService.UserUpdateFollowsLifecycle | main-service/src/main/java/ru/practicum/event/service/EventServiceImpl.java:91-111 | Past the guards, a user edit succeeds iff the lifecycle table allows the transition; the result is the table's state, and a refusal is a conflict |
| EventService.AdminUpdateFollowsLifecycle | main-service/src/main/java/ru/practicum/event/service/EventServiceImpl.java:221-246 | Past the guard, an admin edit succeeds iff the lifecycle table allows the transition; the result is the table's state, and a refusal is a conflict |
| EventService.AdminGuardSeesMergedDate | main-service/src/main/java/ru/practicum/event/service/EventServiceImpl.java:213-219 | A new date an hour ahead lets an admin edit through even when the stored date is past. A new date too soon fails the edit |
| EventService.PublishLeavesPublishedOn | main-service/src/main/java/ru/practicum/event/service/EventServiceImpl.java:223-229 | A successful publish came from PENDING, gives PUBLISHED and leaves the publication time as it was |
| EventService.GetEventById | main-service/src/main/java/ru/practicum/event/service/EventServiceImpl.java:250-260 | Only a published event is visible; anything else is NotFound. The view count becomes the statistics answer, or 0 without one |
| EventService.PublicFilters | main-service/src/main/java/ru/practicum/event/service/EventServiceImpl.java:119-151 | An inverted range is a validation error. Otherwise the predicates include PUBLISHED, and either the given period or "after now" |
| EventService.PublicSearch | main-service/src/main/java/ru/practicum/event/service/EventServiceImpl.java:117-173 | The public search returns the short views of the filtered page, in order |
| EventService.PublicSearchSound | main-service/src/main/java/ru/practicum/event/service/EventServiceImpl.java:122-151 | Every event found is stored and published, and lies in the given period (ends included) or strictly after now. It also meets the paid, availability and text filters when they are given; the text test is a case-folded substring of the annotation or the description |
| EventService.PublicFiltersHasPaid | main-service/src/main/java/ru/practicum/event/service/EventServiceImpl.java:137-139 | A given paid flag always enters the predicates |
| EventService.PublicFiltersHasAvailable | main-service/src/main/java/ru/practicum/event/service/EventServiceImpl.java:147-149 | "Only available" set to true always enters the predicates |
| EventService.PublicSearchRejectsInvertedRange | main-service/src/main/java/ru/practicum/event/service/EventServiceImpl.java:122-126 | A start after the end is refused whatever else is asked |
| EventService.PublicSearchIgnoresSort | main-service/src/main/java/ru/practicum/event/service/EventServiceImpl.java:154-161 | The sort mode never changes the result |
| EventService.PublicSearchCategoryInversion | main-service/src/main/java/ru/practicum/event/service/EventServiceImpl.java:133-135 | An empty category list makes the search empty, and a non-empty list is ignored |
| EventService.EmptyCategoryListFindsNothing | main-service/src/main/java/ru/practicum/event/service/EventServiceImpl.java:133-135 | With an empty category list the public search finds nothing |
| EventService.CategoryListIgnored | main-service/src/main/java/ru/practicum/event/service/EventServiceImpl.java:133-135 | A non-empty category list leaves the public predicates as they are without a list |
| EventService.PublicFiltersIntended | main-service/src/main/java/ru/practicum/event/service/EventServiceImpl.java:133-135 | The corrected predicates add the category test for a non-empty list and otherwise equal the as-written ones without a list |
| EventService.IntendedCategoryFilterSound | main-service/src/main/java/ru/practicum/event/service/EventServiceImpl.java:133-135 | With the corrected predicates every event found is in a requested category |
| EventService.AdminFilters | main-service/src/main/java/ru/practicum/event/service/EventServiceImpl.java:177-197 | The admin predicates never test PUBLISHED, and restrict the state only when states are asked for. A non-empty user list, state list or category list enters them; so does the given period, or without a range the "after now" test |
| EventService.AdminSearch | main-service/src/main/java/ru/practicum/event/service/EventServiceImpl.java:175-208 | The admin search returns the full views of the filtered page, in order |
| EventService.AdminSearchSeesEveryState | main-service/src/main/java/ru/practicum/event/service/EventServiceImpl.java:177-208 | An unfiltered admin search whose first page is large enough lists every future event, in any state |
| EventService.AdminSearchSound | main-service/src/main/java/ru/practicum/event/service/EventServiceImpl.java:177-208 | Every event found by the admin search is a stored row with a listed initiator, a listed state and a listed category whenever those lists are given, and lies in the given period (ends included) or strictly after now |
| RequestMapper.ToRequest | main-service/src/main/java/ru/practicum/request/mapper/RequestMapper.java:10-29 | The entity copies id, time and status, and leaves a reference unset when its id is null |
| RequestMapper.ToRequestDto | main-service/src/main/java/ru/practicum/request/mapper/RequestMapper.java:31-40 | Mapping fails iff a reference is unset. Otherwise it copies id, time and status |
| RequestMapper.DtoRoundTrip | main-service/src/main/java/ru/practicum/request/mapper/RequestMapper.java:10-40 | A body with both ids survives the trip through the entity unchanged; a body missing one fails the trip |
| RequestMapper.EntityRoundTrip | main-service/src/main/java/ru/practicum/request/mapper/RequestMapper.java:10-40 | An entity that maps to a body is rebuilt from it exactly |
| RequestMapper.ToRequestDtoInjective | main-service/src/main/java/ru/practicum/request/mapper/RequestMapper.java:31-40 | Distinct mappable entities give distinct bodies |
| RequestMapper.ToDtos | main-service/src/main/java/ru/practicum/request/service/RequestServiceImpl.java:115-118 | A list maps iff each entity maps, element by element in order |
| RequestService.EventRequests | main-service/src/main/java/ru/practicum/request/service/RequestServiceImpl.java:128 | An event's requests are exactly the stored requests that name it |
| RequestService.CountConfirmed | main-service/src/main/java/ru/practicum/request/service/RequestServiceImpl.java:69 | The CONFIRMED count of an event is at most its number of requests, and 0 when nothing is confirmed |
| RequestService.AddUserRequest | main-service/src/main/java/ru/practicum/request/service/RequestServiceImpl.java:48-89 | The guards run in order: user, event, any earlier request for the pair, initiator, published, capacity with a positive limit. The first failure decides the error. A success appends one request, CONFIRMED iff moderation is off or the limit is 0 and PENDING otherwise, and leaves the events untouched |
| RequestService.AddUserRequestKeepsValid | main-service/src/main/java/ru/practicum/request/service/RequestServiceImpl.java:53-88 | Admission keeps ids, one request per pair and every positive limit respected |
| RequestService.CancelUserRequest | main-service/src/main/java/ru/practicum/request/service/RequestServiceImpl.java:92-104 | An unknown user, or no event under the request's id, is NotFound. Cancellation succeeds iff the user exists, some event has the request's id, and the request exists, belongs to the caller and names an event; on a well-formed table the last part always holds. A success marks only that request CANCELED |
| RequestService.CancelOwned | main-service/src/main/java/ru/practicum/request/service/RequestServiceImpl.java:95-103 | A missing request or one owned by somebody else is NotFound, and any failure is NotFound or InternalError. It succeeds iff the request exists, belongs to the caller and names an event, so always for the caller's request in a well-formed table. The request becomes CANCELED from any status |
| RequestService.CancelUserRequestIntended | main-service/src/main/java/ru/practicum/request/service/RequestServiceImpl.java:92-104 | Corrected cancellation succeeds iff the user exists and owns the request, and it leaves the events alone |
| RequestService.CancelNeedsEventWithRequestId | main-service/src/main/java/ru/practicum/request/service/RequestServiceImpl.java:94 | The owner of request 1 cannot cancel it when no event has id 1, while the corrected cancellation can |
| RequestService.CancelKeepsValid | main-service/src/main/java/ru/practicum/request/service/RequestServiceImpl.java:97-103 | Cancellation keeps the store invariants and never touches an event |
| RequestService.GetUserRequestsByEvent | main-service/src/main/java/ru/practicum/request/service/RequestServiceImpl.java:107-119 | Only the event's initiator may list its requests; anyone else is a conflict. On a well-formed table the initiator always gets the event's requests in table order |
| RequestService.FillSpill | main-service/src/main/java/ru/practicum/request/service/RequestServiceImpl.java:145-164 | The fill-then-spill resolution keeps every request |
| RequestService.ResolveBatch | main-service/src/main/java/ru/practicum/request/service/RequestServiceImpl.java:145-157 | The loop confirms the first min(room, n) requests and rejects the rest. Together the two lists are the reference resolution, and the running count ends at min(limit, counter + n), never above the limit |
| RequestService.ApplyBatch | main-service/src/main/java/ru/practicum/request/service/RequestServiceImpl.java:145-164 | A batch changes only statuses, and only those of the event's requests |
| RequestService.ApplyBatchResolves | main-service/src/main/java/ru/practicum/request/service/RequestServiceImpl.java:145-164 | Read back for the event, the table after a batch is the reference fill-then-spill resolution |
| RequestService.ApplyBatchCountsOwn | main-service/src/main/java/ru/practicum/request/service/RequestServiceImpl.java:145-157 | After a batch the event has min(room, n) CONFIRMED requests |
| RequestService.ApplyBatchCountsOther | main-service/src/main/java/ru/practicum/request/service/RequestServiceImpl.java:128 | A batch leaves every other event's CONFIRMED count unchanged |
| RequestService.ChangeStatusRequest | main-service/src/main/java/ru/practicum/request/service/RequestServiceImpl.java:123-174 | An unknown user or event is NotFound. A counter at or above the limit is a conflict for any requested status. On success every request of the event is resolved, the counter rises by the number confirmed and stays within the limit, and the two lists hold the confirmed and the rejected views in order |
| RequestService.BatchLists | main-service/src/main/java/ru/practicum/request/service/RequestServiceImpl.java:145-164 | The response lists fail iff some request of the event cannot be viewed. Otherwise they hold the views of the first min(room, n) requests as CONFIRMED and of the rest as REJECTED, in order |
| RequestService.ChangeStatusOnlyGuardsFail | main-service/src/main/java/ru/practicum/request/service/RequestServiceImpl.java:126-143 | On a well-formed table only the lookups and the limit guard can fail a batch |
| RequestService.ChangeStatusIgnoresCaller | main-service/src/main/java/ru/practicum/request/service/RequestServiceImpl.java:126-128 | Any two existing users get the same result: the caller is never checked against the initiator |
| RequestService.ChangeStatusKeepsValid | main-service/src/main/java/ru/practicum/request/service/RequestServiceImpl.java:145-168 | On a valid store a batch that passes the guards succeeds and keeps the store invariants, including no event's CONFIRMED count passing its limit |
| RequestService.BatchCounterDrift | main-service/src/main/java/ru/practicum/request/service/RequestServiceImpl.java:132-167 | After a batch the counter equals its old value plus the event's CONFIRMED count, so earlier confirmations are counted twice |
| RequestService.RejectBatchRejectsAll | main-service/src/main/java/ru/practicum/request/service/RequestServiceImpl.java:158-164 | A reject batch rejects every request of the event, confirmed ones included, and leaves the counter as it was |
| CommentModel.OnlyDoubleReactionRefused | main-service/src/main/java/ru/practicum/comments/dto/LikeDto.java:17-20 | A reaction body is refused iff both like and dislike are true. Null counts as unset, so like-only, dislike-only and empty bodies pass |
| CommentModel.HasNewText | main-service/src/main/java/ru/practicum/comments/dto/UpdateCommentDto.java:14-16 | New text is present iff non-null and not blank |
| CommentMapper.ToCommentFromNewDto | main-service/src/main/java/ru/practicum/comments/mapper/CommentMapper.java:17-29 | A new comment carries the text, author, event and time, is PENDING and has no likes or dislikes |
| CommentMapper.ToCommentFromUpdate | main-service/src/main/java/ru/practicum/comments/mapper/CommentMapper.java:44-50 | Only the text changes, and only for present text |
| CommentMapper.UpdateIdempotent | main-service/src/main/java/ru/practicum/comments/mapper/CommentMapper.java:44-50 | An update without text changes nothing, and the same update twice equals once |
| CommentMapper.ToCommentDto | main-service/src/main/java/ru/practicum/comments/mapper/CommentMapper.java:31-42 | The response copies id, time, text, state and both counters |
| CommentMapper.ToCommentDtoInjective | main-service/src/main/java/ru/practicum/comments/mapper/CommentMapper.java:31-42 | Distinct comments give distinct responses |
| CommentService.AddComment | main-service/src/main/java/ru/practicum/comments/service/CommentServiceImpl.java:40-53 | Creation succeeds iff the user and the event exist, and files a PENDING comment with no reactions under a fresh id |
| CommentService.AddCommentKeepsValid | main-service/src/main/java/ru/practicum/comments/service/CommentServiceImpl.java:45-52 | Creation keeps every counter equal to the number of set flags |
| CommentService.UpdateComment | main-service/src/main/java/ru/practicum/comments/service/CommentServiceImpl.java:56-73 | Only the author may edit; others get a conflict. The edit changes only the text, and a PUBLISHED comment gets the edit note appended |
| CommentService.PublishedEditAlwaysMarked | main-service/src/main/java/ru/practicum/comments/service/CommentServiceImpl.java:67-70 | Editing a published comment without new text still appends the note |
| CommentService.ChangeStateComment | main-service/src/main/java/ru/practicum/comments/service/CommentServiceImpl.java:76-85 | The author may set any state; anyone else gets a conflict |
| CommentService.AdminChangeStateComment | main-service/src/main/java/ru/practicum/comments/service/CommentServiceImpl.java:88-93 | An admin sets any state on any existing comment and changes nothing else |
| CommentService.AuthorChangeIsAdminChange | main-service/src/main/java/ru/practicum/comments/service/CommentServiceImpl.java:76-93 | Whenever the author's change is allowed it equals the admin's change |
| CommentService.FindReaction | main-service/src/main/java/ru/practicum/comments/service/CommentServiceImpl.java:104 | The lookup finds the user's record on the comment iff one exists |
| CommentService.LikeComment | main-service/src/main/java/ru/practicum/comments/service/CommentServiceImpl.java:96-145 | A reaction needs an existing user and comment. It changes only the two counters, each by at most one and never down. A first reaction counts exactly the flags set to true and stores them |
| CommentService.LikeNeverClearsFlag | main-service/src/main/java/ru/practicum/comments/service/CommentServiceImpl.java:127-142 | A flag once set stays set |
| CommentService.RepeatReactionIsNoOp | main-service/src/main/java/ru/practicum/comments/service/CommentServiceImpl.java:127-142 | Since no flag is stored as false, a repeat reaction leaves the store exactly as it was |
| CommentService.LikeCommentKeepsValid | main-service/src/main/java/ru/practicum/comments/service/CommentServiceImpl.java:106-142 | Reactions keep every counter equal to the number of set flags, with one record per user and comment |
| CategoryService.AddCategory | main-service/src/main/java/ru/practicum/category/service/CategoryServiceImpl.java:31-39 | A taken name is a constraint violation; otherwise a new category is filed under a fresh id |
| CategoryService.AddCategoryKeepsValid | main-service/src/main/java/ru/practicum/category/service/CategoryServiceImpl.java:31-39 | Adding keeps names unique |
| CategoryService.DeleteCategory | main-service/src/main/java/ru/practicum/category/service/CategoryServiceImpl.java:42-51 | An absent category is NotFound and one used by an event is a constraint violation. Otherwise only that category goes |
| CategoryService.DeleteCategoryKeepsValid | main-service/src/main/java/ru/practicum/category/service/CategoryServiceImpl.java:42-51 | Deletion never leaves an event pointing at a missing category |
| CategoryService.UpdateCategory | main-service/src/main/java/ru/practicum/category/service/CategoryServiceImpl.java:55-71 | The same name returns the stored category and a name held elsewhere is refused. Any other name adds a new category and leaves the old one untouched |
| CategoryService.RenameAddsCategory | main-service/src/main/java/ru/practicum/category/service/CategoryServiceImpl.java:57-63 | Renaming Music to Theatre keeps Music and adds Theatre under id 2 |
| CategoryService.UpdateCategoryKeepsValid | main-service/src/main/java/ru/practicum/category/service/CategoryServiceImpl.java:55-71 | Even as written, updates keep names unique |
| CategoryService.UpdateCategoryIntended | main-service/src/main/java/ru/practicum/category/service/CategoryServiceImpl.java:55-71 | A corrected update succeeds iff the category exists and the name is its own or free. It renames in place and keeps the set of ids |
| CategoryService.UpdateCategoryIntendedKeepsValid | main-service/src/main/java/ru/practicum/category/service/CategoryServiceImpl.java:55-71 | The corrected update keeps names unique |
| UserService.EmailUsageCheck | main-service/src/main/java/ru/practicum/user/service/UserServiceImpl.java:65-73 | The scan fails with a conflict iff another user has the same e-mail |
| UserService.AddUser | main-service/src/main/java/ru/practicum/user/service/UserServiceImpl.java:44-50 | Registration saves then checks, all or nothing: it succeeds iff nobody else holds the e-mail, and then appends exactly the new user |
| UserService.AddUserRefusesTakenEmail | main-service/src/main/java/ru/practicum/user/service/UserServiceImpl.java:44-50 | On a valid store, registration succeeds iff no stored user has the e-mail |
| UserService.AddUserKeepsValid | main-service/src/main/java/ru/practicum/user/service/UserServiceImpl.java:44-50 | Registration keeps e-mails unique and ids ascending |
| UserService.WithIds | main-service/src/main/java/ru/practicum/user/service/UserServiceImpl.java:37 | Every user the id filter keeps has a listed id, and it keeps no more users than it was given |
| UserService.WithIdsExact | main-service/src/main/java/ru/practicum/user/service/UserServiceImpl.java:37 | The id filter keeps exactly the stored users with a listed id |
| UserService.WithIdsAscending | main-service/src/main/java/ru/practicum/user/service/UserServiceImpl.java:37 | The id filter keeps id order |
| UserService.GetUsers | main-service/src/main/java/ru/practicum/user/service/UserServiceImpl.java:29-42 | Listing fails only on bad paging, and `from` is a page index. Without ids, item k is user number from·size+k of the whole table. With ids, item k is user number from·size+k of the filtered table, so only stored users with a listed id appear |
| UserService.GetUsersAscending | main-service/src/main/java/ru/practicum/user/service/UserServiceImpl.java:29-42 | Every listing is in ascending id order |
| UserService.PageAscending | main-service/src/main/java/ru/practicum/user/service/UserServiceImpl.java:30 | A page of an ascending table is ascending |
| UserService.DeleteUser | main-service/src/main/java/ru/practicum/user/service/UserServiceImpl.java:52-63 | An unknown id is NotFound. Otherwise exactly the users with other ids remain |
| UserService.WithoutId | main-service/src/main/java/ru/practicum/user/service/UserServiceImpl.java:56 | Deletion keeps exactly the users with other ids |
| CompilationMapper.HasEvents | main-service/src/main/java/ru/practicum/compilation/dto/UpdateCompilationRequest.java:22-24 | A missing event list fails; a present list asks for replacement iff non-empty |
| CompilationMapper.HasTitle | main-service/src/main/java/ru/practicum/compilation/dto/UpdateCompilationRequest.java:26-28 | The title is present iff non-null and not blank |
| CompilationMapper.HasPinned | main-service/src/main/java/ru/practicum/compilation/mapper/CompilationMapper.java:43-45 | The flag is present iff non-null |
| CompilationMapper.ToCompilationFromNew | main-service/src/main/java/ru/practicum/compilation/mapper/CompilationMapper.java:28-34 | A new compilation copies title and flag (false when absent) and has no events |
| CompilationMapper.ToCompilationFromUpdate | main-service/src/main/java/ru/practicum/compilation/mapper/CompilationMapper.java:37-48 | A present title and flag replace the stored ones; id and events stay |
| CompilationMapper.UpdateIdempotent | main-service/src/main/java/ru/practicum/compilation/mapper/CompilationMapper.java:37-48 | An empty update changes nothing, and an update twice equals once |
| CompilationMapper.ToCompilationDto | main-service/src/main/java/ru/practicum/compilation/mapper/CompilationMapper.java:13-26 | No events give an empty list; otherwise each event's short view, with the same length and order |
| CompilationMapper.NoEventsLikeEmptyEvents | main-service/src/main/java/ru/practicum/compilation/mapper/CompilationMapper.java:18-23 | Unset events and an empty list give the same response |
| CompilationService.FindAllByIdIn | main-service/src/main/java/ru/practicum/compilation/service/CompilationServiceImpl.java:34 | The lookup returns exactly the stored events with a listed id |
| CompilationService.Located | main-service/src/main/java/ru/practicum/compilation/service/CompilationServiceImpl.java:85-88 | A compilation is found iff its id is stored; otherwise NotFound |
| CompilationService.AddCompilation | main-service/src/main/java/ru/practicum/compilation/service/CompilationServiceImpl.java:28-39 | Adding appends one compilation under a fresh id. Events are attached iff the list is present and non-empty, and are then exactly the stored events listed |
| CompilationService.AddCompilationKeepsValid | main-service/src/main/java/ru/practicum/compilation/service/CompilationServiceImpl.java:28-39 | Adding keeps ids ascending and below the counter |
| CompilationService.DeleteCompilation | main-service/src/main/java/ru/practicum/compilation/service/CompilationServiceImpl.java:41-46 | An unknown id is NotFound. Otherwise one compilation goes and no other is created |
| CompilationService.DeleteCompilationKeepsValid | main-service/src/main/java/ru/practicum/compilation/service/CompilationServiceImpl.java:41-46 | Deletion keeps ids ascending and leaves no compilation with the deleted id |
| CompilationService.UpdateCompilation | main-service/src/main/java/ru/practicum/compilation/service/CompilationServiceImpl.java:48-60 | An unknown id is NotFound and a request without an event list fails. Otherwise the merge is stored in place, and a non-empty list replaces the events |
| CompilationService.UpdateCompilationKeepsValid | main-service/src/main/java/ru/practicum/compilation/service/CompilationServiceImpl.java:48-60 | Updates keep ids ascending |
| CompilationService.TitleOnlyUpdateFails | main-service/src/main/java/ru/practicum/compilation/service/CompilationServiceImpl.java:54 | A title-only update of an existing compilation fails, while the corrected update succeeds |
| CompilationService.UpdateCompilationIntended | main-service/src/main/java/ru/practicum/compilation/service/CompilationServiceImpl.java:48-60 | Corrected update fails only for an unknown id. It keeps the events unless a non-empty list is given, and agrees with the as-written update whenever that one succeeds |
| CompilationService.WithPinned | main-service/src/main/java/ru/practicum/compilation/service/CompilationServiceImpl.java:68 | Every compilation the flag filter keeps has that flag, and it keeps no more than it was given |
| CompilationService.WithPinnedExact | main-service/src/main/java/ru/practicum/compilation/service/CompilationServiceImpl.java:68 | The flag filter keeps exactly the compilations with that flag |
| CompilationService.GetCompilations | main-service/src/main/java/ru/practicum/compilation/service/CompilationServiceImpl.java:63-78 | Listing fails only on bad paging, and `from` is a page index. With a flag, item k is the view of compilation number from·size+k among those with the flag, so each has it. Without one, item k is the view of compilation number from·size+k of the table |
| CompilationService.PageDtos | main-service/src/main/java/ru/practicum/compilation/service/CompilationServiceImpl.java:64-77 | Item k of a listing is the view of compilation from·size+k; the page fails only on bad paging |
| CompilationService.PageDtosKeepFlag | main-service/src/main/java/ru/practicum/compilation/service/CompilationServiceImpl.java:67-71 | A page cut from compilations that all carry one flag shows only that flag |
| CompilationService.GetCompilationById | main-service/src/main/java/ru/practicum/compilation/service/CompilationServiceImpl.java:80-83 | An id is found iff some compilation has it; otherwise NotFound. The view returned is that of the compilation at the found position, and it carries the id |
| CompilationService.GetCompilationByIdFindsStored | main-service/src/main/java/ru/practicum/compilation/service/CompilationServiceImpl.java:80-83 | In a valid table, asking for the id of a stored compilation returns exactly that compilation's view |
| StatsParameters.GetStatsRequest | stats/stats-server/src/main/java/ru/practicum/controller/StatsController.java:34-54 | The query is refused with 400 iff start is after end. Otherwise start and end are kept, a missing list becomes empty, and `unique` holds only when given as true |
| StatsParameters.NormalisedQueryIsFixed | stats/stats-server/src/main/java/ru/practicum/controller/StatsController.java:40-53 | Feeding a normalised query back in returns it unchanged |
| StatsParameters.MissingIsDefault | stats/stats-server/src/main/java/ru/practicum/controller/StatsController.java:40-45 | A missing list and an empty one, and a missing flag and false, give the same query |
| StatsParameters.EmptyRangeAccepted | stats/stats-server/src/main/java/ru/practicum/controller/StatsController.java:47-49 | A start equal to the end is accepted and one second later is refused |

## Left out

- Controllers, HTTP routing, logging and error-to-status mapping: they only forward, and errors stay as the `Error` datatype.
- Persistence, transactions and concurrency: each service call is one atomic step on immutable stores, and there is no locking to model.
- View statistics: the statistics service's answer for an event is the `hits` parameter of `GetEventById`. The public search's per-event view refresh is not modelled, because it is a network call.
- Location lookup and creation: a location is a value copied from the request, because the lookup is floating-point equality over a repository.
- Wall-clock time and formatting: `now` is a parameter, and the edit note of a published comment is the `suffix` parameter.
- Bean-validation annotations: lengths and not-blank checks on bodies are not modelled. `LikeDto`'s check is `IsCorrectSetLikeDislike`, which the controller enforces before `likeComment` runs.
- Nested response views: the event and author of a comment are kept as ids, so `UserMapper` and the nested event view of a comment are out.
- `getUserRequests`, `getCommentById`, `getCommentByUserAndId`, `getCommentByEvent`, `getCommentByAuthor`, `getCategories`, `getCategoryById` and `getUserById`: plain lookups outside the modelled core.
- The comment state enum is not part of this model. PENDING and PUBLISHED are the states the rules read, and CANCELED stands for the rest.
- Repository methods whose declarations are not shown keep their evident meaning:
  - `countByEvent_IdAndStatus` is `CountConfirmed`;
  - `onlyPublishedEvent`, `inUsers` and `inStates` are the predicates `OnlyPublishedEvent`, `InUsers` and `InStates`: the state equals the given one, the initiator is listed, the state is listed;
  - the admin parameters `users` and `states` are fields of `EventSearchParameters`;
  - `hasPinned` tests the flag for null;
  - `toCommentFromNewtDto` takes the author and event it is called with.
- Integer widths: ids, counters and limits are unbounded, and Java's 32-bit counter wrap-around is not modelled. Text lower-casing folds the ASCII and basic Cyrillic capitals only (`Text.LowerChar`), not the rest of Unicode, and SQL `LIKE` wildcards in the search text are taken literally.
- Sorting: the public search discards its sort, and the comment listings are out.
- EventModel.HasEventDate, EventModel.HasLocation, EventModel.HasParticipantLimit: these carry no contract of their own, because each is the presence test itself. `ZeroLimitIsAbsent` and `MergeUpdateFields` state what they mean.
- RequestService.FillSpill: its contract gives only the length. The statuses are stated by `ResolveBatch` and `ApplyBatchResolves`.
- EventService.PublicSearchEvents, EventService.AdminSearchEvents: no contract of their own. `PublicSearchSound`, `PublicSearchCategoryInversion` and `AdminSearchSeesEveryState` state their properties.
- CommentService.LikeCount, CommentService.DislikeCount: their contract is only a bound. Their meaning enters through `Valid`, which ties each comment's counters to them.

## Findings

| source | as written | input that shows it | evidently intended | confidence | as-written member | corrected member |
|---|---|---|---|---|---|---|
| main-service/src/main/java/ru/practicum/event/mapper/EventMapper.java:100-102 | a present title overwrites the participant limit, and the title never changes | an event with limit 50 gets an update carrying only the title "Concert": the title stays and the limit becomes 0 | a present title replaces the title; the limit changes only with a non-zero limit | not executed | EventMapper.MergeUpdate, EventMapper.TitleUpdateResetsLimit | EventMapper.MergeUpdateIntended |
| main-service/src/main/java/ru/practicum/event/service/EventServiceImpl.java:133-135 | the category predicate is added only when the category list is empty | categories = [] returns nothing; categories = [3] returns events of every category | filter by the categories when the list is non-empty | not executed | EventService.PublicFilters, EventService.PublicSearchCategoryInversion | EventService.PublicFiltersIntended, EventService.IntendedCategoryFilterSound |
| main-service/src/main/java/ru/practicum/request/service/RequestServiceImpl.java:94 | cancellation looks up an event under the request's id | user 5 owns request 1 for event 7, and no event has id 1: the cancellation is NotFound | no event lookup; only the user, the request and its owner are checked | not executed | RequestService.CancelUserRequest, RequestService.CancelNeedsEventWithRequestId | RequestService.CancelUserRequestIntended |
| main-service/src/main/java/ru/practicum/category/service/CategoryServiceImpl.java:57-63 | a rename saves an entity built from the body alone, which inserts a new category | renaming category 1 "Music" to "Theatre" leaves "Music" under 1 and adds "Theatre" under 2 | rename category 1 in place | not executed | CategoryService.UpdateCategory, CategoryService.RenameAddsCategory | CategoryService.UpdateCategoryIntended, CategoryService.UpdateCategoryIntendedKeepsValid |
| main-service/src/main/java/ru/practicum/compilation/dto/UpdateCompilationRequest.java:22-24 | `hasEvents` dereferences the list, which is null when the request has none | an update carrying only the title "Summer" fails with a server error | a missing list leaves the events as they are | not executed | CompilationService.UpdateCompilation, CompilationService.TitleOnlyUpdateFails | CompilationService.UpdateCompilationIntended |
