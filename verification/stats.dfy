/** The statistics server's `/stats` endpoint: parameter normalisation and the range check. */
module StatsParameters {
  import opened Wrappers

  /** What the controller hands to the statistics service. */
  datatype StatsQuery = StatsQuery(start: int, end: int, uris: seq<string>, unique: bool)

  /** `getStatsRequest`: a missing or empty URI list becomes the empty list, a missing
      `unique` becomes false, and a start strictly after the end is a bad request. */
  function GetStatsRequest(start: int, end: int, uris: Option<seq<string>>, unique: Option<bool>): (r: Result<StatsQuery>)
    ensures r.Ok? <==> start <= end
    ensures r.Err? ==> r.error == BadRequest
    ensures r.Ok? ==> r.value.start == start && r.value.end == end
    ensures r.Ok? ==> r.value.uris == (if uris.Some? then uris.value else [])
    ensures r.Ok? ==> (r.value.unique <==> unique == Some(true))
  {
    var uris := if uris.None? || |uris.value| == 0 then [] else uris.value;
    var unique := if unique.None? then false else unique.value;
    if start > end then Err(BadRequest)
    else Ok(StatsQuery(start, end, uris, unique))
  }

  /** Normalisation is idempotent: a normalised query passes through unchanged. */
  lemma NormalisedQueryIsFixed(q: StatsQuery)
    requires q.start <= q.end
    ensures GetStatsRequest(q.start, q.end, Some(q.uris), Some(q.unique)) == Ok(q)
  {
  }

  /** A missing list and an empty list, and a missing flag and false, give the same query. */
  lemma MissingIsDefault(start: int, end: int)
    ensures GetStatsRequest(start, end, None, None) == GetStatsRequest(start, end, Some([]), Some(false))
  {
  }

  /** A single instant (start equal to end) is a valid range. */
  lemma EmptyRangeAccepted(t: int, uris: Option<seq<string>>, unique: Option<bool>)
    ensures GetStatsRequest(t, t, uris, unique).Ok?
    ensures GetStatsRequest(t + 1, t, uris, unique) == Err(BadRequest)
  {
  }
}
