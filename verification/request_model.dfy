/** The participation request entity, its response body and the mapper between them. */
module RequestModel {
  import opened Wrappers

  datatype Status = PENDING | CONFIRMED | REJECTED | CANCELED

  /** A stored request. The event and the requester are kept as the referenced ids; `None`
      stands for an unset reference. */
  datatype Request = Request(id: int, created: int, event: Option<int>, requester: Option<int>, status: Status)

  /** `ParticipationRequestDto`: the same data with the references projected to ids. */
  datatype RequestDto = RequestDto(created: int, event: Option<int>, id: int, requester: Option<int>, status: Status)
}

/** RequestMapper: `toRequest` and `toRequestDto`. */
module RequestMapper {
  import opened Wrappers
  import opened RequestModel

  /** `toRequest`: copies id, creation time and status, and builds a reference for each id
      that is present; a null id leaves the reference unset. */
  function ToRequest(d: RequestDto): (r: Request)
    ensures r.id == d.id && r.created == d.created && r.status == d.status
    ensures d.event.None? ==> r.event.None?
    ensures d.requester.None? ==> r.requester.None?
  {
    Request(d.id, d.created,
            if d.event.Some? then Some(d.event.value) else None,
            if d.requester.Some? then Some(d.requester.value) else None,
            d.status)
  }

  /** `toRequestDto`: reading the id of an unset reference is a null dereference. */
  function ToRequestDto(r: Request): (d: Result<RequestDto>)
    ensures d.Err? <==> r.event.None? || r.requester.None?
    ensures d.Err? ==> d.error == InternalError
    ensures d.Ok? ==> d.value.id == r.id && d.value.created == r.created && d.value.status == r.status
  {
    if r.event.None? || r.requester.None? then Err(InternalError)
    else Ok(RequestDto(r.created, Some(r.event.value), r.id, Some(r.requester.value), r.status))
  }

  /** A body with both references round-trips through the entity unchanged; one without
      them cannot be mapped back. */
  lemma DtoRoundTrip(d: RequestDto)
    ensures d.event.Some? && d.requester.Some? ==> ToRequestDto(ToRequest(d)) == Ok(d)
    ensures d.event.None? || d.requester.None? ==> ToRequestDto(ToRequest(d)) == Err(InternalError)
  {
  }

  /** An entity that maps to a body is recovered from it: id, time, status and both
      reference ids survive. */
  lemma EntityRoundTrip(r: Request)
    requires ToRequestDto(r).Ok?
    ensures ToRequest(ToRequestDto(r).value) == r
  {
  }

  /** Mapping is injective on the entities it accepts. */
  lemma ToRequestDtoInjective(r1: Request, r2: Request)
    requires ToRequestDto(r1).Ok? && ToRequestDto(r1) == ToRequestDto(r2)
    ensures r1 == r2
  {
    EntityRoundTrip(r1);
    EntityRoundTrip(r2);
  }

  /** `toRequestDto` over a list, failing on the first entity that cannot be mapped. */
  function ToDtos(rs: seq<Request>): (r: Result<seq<RequestDto>>)
    ensures r.Ok? <==> forall i | 0 <= i < |rs| :: ToRequestDto(rs[i]).Ok?
    ensures r.Err? ==> r.error == InternalError
    ensures r.Ok? ==> |r.value| == |rs| && forall i | 0 <= i < |rs| :: ToRequestDto(rs[i]) == Ok(r.value[i])
  {
    if rs == [] then Ok([])
    else
      var head :- ToRequestDto(rs[0]);
      var tail :- ToDtos(rs[1..]);
      Ok([head] + tail)
  }
}
