/** The Event entity, its enums and the request bodies that create and edit it. */
module EventModel {
  import opened Wrappers
  import opened Text

  /** Seconds per hour: timestamps are whole seconds. */
  const SecondsPerHour: int := 3600

  datatype State = PENDING | PUBLISHED | CANCELED

  datatype StateAction = SEND_TO_REVIEW | CANCEL_REVIEW | PUBLISH_EVENT | REJECT_EVENT

  datatype Location = Location(lat: real, lon: real)

  /** A stored event. Category, initiator and location are kept as the referenced ids/values. */
  datatype Event = Event(
    id: int,
    annotation: string,
    category: Option<int>,
    description: string,
    eventDate: int,
    location: Location,
    paid: bool,
    participantLimit: int,
    confirmedRequests: int,
    requestModeration: bool,
    title: string,
    createdOn: int,
    initiator: int,
    publishedOn: Option<int>,
    state: State,
    views: int)

  /** Body of POST /users/{userId}/events. An omitted `paid`, `participantLimit` or
      `requestModeration` takes its field default (false, 0, true), but an explicit null
      stays null: `paid: None` is a body carrying `"paid": null`. `eventDate` may be null. */
  datatype NewEventDto = NewEventDto(
    annotation: string,
    category: Option<int>,
    description: string,
    eventDate: Option<int>,
    location: Location,
    paid: Option<bool>,
    participantLimit: int,
    requestModeration: Option<bool>,
    title: string)

  /** Body of both PATCH endpoints. `participantLimit` is a primitive: absent reads as 0. */
  datatype UpdateEventUserRequest = UpdateEventUserRequest(
    annotation: Option<string>,
    category: Option<int>,
    description: Option<string>,
    eventDate: Option<int>,
    location: Option<Location>,
    paid: Option<bool>,
    participantLimit: int,
    requestModeration: Option<bool>,
    stateAction: Option<StateAction>,
    title: Option<string>)

  function HasAnnotation(u: UpdateEventUserRequest): (b: bool)
    ensures b <==> u.annotation.Some? && !IsBlank(u.annotation.value)
  {
    HasText(u.annotation)
  }

  /** A category id of 0 counts as absent, like null. */
  function HasCategory(u: UpdateEventUserRequest): (b: bool)
    ensures b ==> u.category.Some?
    ensures u.category == Some(0) ==> !b
    ensures u.category.Some? && u.category.value != 0 ==> b
  {
    !(u.category.None? || u.category.value == 0)
  }

  function HasDescription(u: UpdateEventUserRequest): (b: bool)
    ensures b <==> u.description.Some? && !IsBlank(u.description.value)
  {
    HasText(u.description)
  }

  function HasEventDate(u: UpdateEventUserRequest): bool {
    u.eventDate.Some?
  }

  function HasLocation(u: UpdateEventUserRequest): bool {
    u.location.Some?
  }

  /** Zero is read as "absent": an explicit 0 and an omitted field look the same. */
  function HasParticipantLimit(u: UpdateEventUserRequest): bool {
    u.participantLimit != 0
  }

  function HasTitle(u: UpdateEventUserRequest): (b: bool)
    ensures b <==> u.title.Some? && !IsBlank(u.title.value)
  {
    HasText(u.title)
  }

  /** An explicit zero limit and an omitted one are the same request. */
  lemma ZeroLimitIsAbsent(u: UpdateEventUserRequest)
    ensures !HasParticipantLimit(u) <==> u.participantLimit == 0
    ensures !HasParticipantLimit(u) ==> u == u.(participantLimit := 0)
  {
  }
}

/** EventMapper: conversions between the Event entity and its request/response bodies. */
module EventMapper {
  import opened Wrappers
  import opened Text
  import opened EventModel

  /** Response body with every field of the event; `confirmedRequests` is never filled in. */
  datatype EventFullDto = EventFullDto(
    annotation: string,
    category: Option<int>,
    confirmedRequests: int,
    createdOn: int,
    description: string,
    eventDate: int,
    id: int,
    initiator: int,
    location: Location,
    paid: bool,
    participantLimit: int,
    publishedOn: Option<int>,
    requestModeration: bool,
    state: State,
    title: string,
    views: int)

  /** Short response body used by the search; `confirmedRequests` is never filled in. */
  datatype EventShortDto = EventShortDto(
    annotation: string,
    category: Option<int>,
    confirmedRequests: int,
    eventDate: int,
    id: int,
    initiator: int,
    paid: bool,
    title: string,
    views: int)

  /** `toEventFullDto`: copies every field except `confirmedRequests`, which stays 0. */
  function ToEventFullDto(e: Event): (d: EventFullDto)
    ensures d.confirmedRequests == 0
    ensures d.id == e.id && d.state == e.state && d.eventDate == e.eventDate
    ensures d.participantLimit == e.participantLimit && d.publishedOn == e.publishedOn
  {
    EventFullDto(e.annotation, e.category, 0, e.createdOn, e.description, e.eventDate, e.id,
                 e.initiator, e.location, e.paid, e.participantLimit, e.publishedOn,
                 e.requestModeration, e.state, e.title, e.views)
  }

  /** `toEventShortDto`: copies the listed fields, `confirmedRequests` stays 0. */
  function ToEventShortDto(e: Event): (d: EventShortDto)
    ensures d.confirmedRequests == 0
    ensures d.id == e.id && d.eventDate == e.eventDate && d.title == e.title && d.views == e.views
    ensures d.initiator == e.initiator
    ensures d.annotation == e.annotation && d.category == e.category && d.paid == e.paid
  {
    EventShortDto(e.annotation, e.category, 0, e.eventDate, e.id, e.initiator, e.paid, e.title, e.views)
  }

  /** The full view loses exactly the confirmed-request counter: two events with the same
      full view differ at most in that counter. */
  lemma FullDtoForgetsOnlyCounter(e1: Event, e2: Event)
    ensures ToEventFullDto(e1) == ToEventFullDto(e2) <==> e1.(confirmedRequests := 0) == e2.(confirmedRequests := 0)
  {
  }

  /** `toEventFromNewEventDto`. The entity fields the Java leaves null here (id, initiator,
      creation time, state) are given placeholders; `addEvent` overwrites each of them. A null
      `paid` is copied into the entity as it is and fails only when the response is built,
      so `addEvent` refuses that body and its placeholder here never reaches a store. */
  function FromNewEventDto(d: NewEventDto): (e: Event)
    ensures e.annotation == d.annotation && e.description == d.description && e.title == d.title
    ensures e.category == d.category
    ensures e.location == d.location && e.participantLimit == d.participantLimit
    ensures d.eventDate.Some? ==> e.eventDate == d.eventDate.value
    ensures d.paid.Some? ==> e.paid == d.paid.value
    ensures d.requestModeration.Some? ==> e.requestModeration == d.requestModeration.value
    ensures e.confirmedRequests == 0 && e.views == 0 && e.publishedOn.None?
  {
    Event(0, d.annotation, d.category, d.description, d.eventDate.GetOr(0), d.location, d.paid.GetOr(false),
          d.participantLimit, 0, d.requestModeration.GetOr(true), d.title, 0, 0, None, PENDING, 0)
  }

  /** `toEventFromUpdateDto` as written: each present field overwrites the event, except that
      a present title overwrites the participant limit instead of the title. */
  function MergeUpdate(u: UpdateEventUserRequest, e: Event): (r: Event)
    ensures r.title == e.title
    ensures r.participantLimit == (if u.participantLimit != 0 || HasTitle(u) then u.participantLimit else e.participantLimit)
  {
    var annotation := if HasAnnotation(u) then u.annotation.value else e.annotation;
    var category := if HasCategory(u) then u.category else e.category;
    var description := if HasDescription(u) then u.description.value else e.description;
    var eventDate := if HasEventDate(u) then u.eventDate.value else e.eventDate;
    var location := if HasLocation(u) then u.location.value else e.location;
    var limit := if HasParticipantLimit(u) then u.participantLimit else e.participantLimit;
    // the title branch assigns the participant limit, not the title
    var limit' := if HasTitle(u) then u.participantLimit else limit;
    e.(annotation := annotation, category := category, description := description,
       eventDate := eventDate, location := location, participantLimit := limit')
  }

  /** Field by field: each present field overwrites the stored one, the limit is written by
      both the limit branch and the title branch, and everything else (id, state, counter,
      initiator, `paid`, `requestModeration`, timestamps, views, title) is kept, even when the
      request carries a `paid` or `requestModeration` value. */
  lemma MergeUpdateFields(u: UpdateEventUserRequest, e: Event)
    ensures MergeUpdate(u, e).annotation == (if HasAnnotation(u) then u.annotation.value else e.annotation)
    ensures MergeUpdate(u, e).category == (if HasCategory(u) then u.category else e.category)
    ensures MergeUpdate(u, e).description == (if HasDescription(u) then u.description.value else e.description)
    ensures MergeUpdate(u, e).eventDate == (if u.eventDate.Some? then u.eventDate.value else e.eventDate)
    ensures MergeUpdate(u, e).location == (if u.location.Some? then u.location.value else e.location)
    ensures MergeUpdate(u, e).participantLimit == (if u.participantLimit != 0 || HasTitle(u) then u.participantLimit else e.participantLimit)
    ensures MergeUpdate(u, e).title == e.title
    ensures MergeUpdate(u, e).(annotation := e.annotation, category := e.category, description := e.description,
               eventDate := e.eventDate, location := e.location, participantLimit := e.participantLimit) == e
  {
  }

  /** Without a title, the limit branch never resets a limit to 0. */
  lemma MergeNeverZeroesLimitWithoutTitle(u: UpdateEventUserRequest, e: Event)
    requires !HasTitle(u)
    ensures MergeUpdate(u, e).participantLimit == 0 ==> e.participantLimit == 0
    ensures u.participantLimit == 0 ==> MergeUpdate(u, e).participantLimit == e.participantLimit
  {
  }

  /** A title-only update leaves the title as it was and writes the (omitted, hence 0) limit. */
  lemma TitleUpdateResetsLimit(e: Event)
    requires e.title != "Concert" && e.participantLimit == 50
    ensures var u := UpdateEventUserRequest(None, None, None, None, None, None, 0, None, None, Some("Concert"));
            MergeUpdate(u, e).title == e.title && MergeUpdate(u, e).participantLimit == 0
  {
    var u := UpdateEventUserRequest(None, None, None, None, None, None, 0, None, None, Some("Concert"));
    assert !IsWhitespace(u.title.value[0]);
  }

  /** The evidently intended merge: a present title overwrites the title, and the limit is
      written only when it is non-zero. */
  function MergeUpdateIntended(u: UpdateEventUserRequest, e: Event): (r: Event)
    ensures r.title == (if HasTitle(u) then u.title.value else e.title)
    ensures r.participantLimit == (if HasParticipantLimit(u) then u.participantLimit else e.participantLimit)
    ensures r.participantLimit == 0 ==> e.participantLimit == 0
    ensures r.(title := e.title, participantLimit := e.participantLimit)
         == MergeUpdate(u, e).(participantLimit := e.participantLimit)
  {
    var m := MergeUpdate(u, e).(participantLimit := e.participantLimit);
    var m1 := if HasParticipantLimit(u) then m.(participantLimit := u.participantLimit) else m;
    if HasTitle(u) then m1.(title := u.title.value) else m1
  }
}
