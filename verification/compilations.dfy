/** Event compilations: the entity, its request/response bodies and the mapper. */
module CompilationMapper {
  import opened Wrappers
  import opened Text
  import opened EventModel
  import opened EventMapper

  /** A stored compilation; `events` is `None` until a list of events is attached. */
  datatype Compilation = Compilation(id: int, pinned: bool, title: string, events: Option<seq<Event>>)

  /** `pinned` is a primitive: absent reads as false. */
  datatype NewCompilationDto = NewCompilationDto(events: Option<seq<int>>, pinned: bool, title: string)

  datatype UpdateCompilationRequest = UpdateCompilationRequest(events: Option<seq<int>>, pinned: Option<bool>, title: Option<string>)

  datatype CompilationDto = CompilationDto(events: seq<EventShortDto>, id: int, pinned: bool, title: string)

  /** `hasEvents` as written: `!events.isEmpty()`, a null dereference on a missing list. */
  function HasEvents(u: UpdateCompilationRequest): (r: Result<bool>)
    ensures r.Err? <==> u.events.None?
    ensures r.Err? ==> r.error == InternalError
    ensures r.Ok? ==> (r.value <==> u.events.value != [])
  {
    if u.events.None? then Err(InternalError) else Ok(|u.events.value| != 0)
  }

  function HasTitle(u: UpdateCompilationRequest): (b: bool)
    ensures b <==> u.title.Some? && !IsBlank(u.title.value)
  {
    HasText(u.title)
  }

  /** `hasPinned`, with its evident meaning: the flag is present. */
  function HasPinned(u: UpdateCompilationRequest): (b: bool)
    ensures b <==> u.pinned.Some?
  {
    u.pinned != None
  }

  /** `toCompilationFromNew`: pinned and title are copied, no events yet; the id is the
      placeholder 0 until the table assigns one. */
  function ToCompilationFromNew(d: NewCompilationDto): (c: Compilation)
    ensures c.pinned == d.pinned && c.title == d.title && c.events.None?
  {
    Compilation(0, d.pinned, d.title, None)
  }

  /** `toCompilationFromUpdate`: a non-blank title and a present flag replace the stored
      ones; id and events stay. */
  function ToCompilationFromUpdate(u: UpdateCompilationRequest, c: Compilation): (r: Compilation)
    ensures r.title == (if HasTitle(u) then u.title.value else c.title)
    ensures r.pinned == (if u.pinned.Some? then u.pinned.value else c.pinned)
    ensures r.id == c.id && r.events == c.events
  {
    var c := if HasTitle(u) then c.(title := u.title.value) else c;
    if HasPinned(u) then c.(pinned := u.pinned.value) else c
  }

  /** An update with neither title nor flag is the identity, and updates are idempotent. */
  lemma UpdateIdempotent(u: UpdateCompilationRequest, c: Compilation)
    ensures !HasTitle(u) && u.pinned.None? ==> ToCompilationFromUpdate(u, c) == c
    ensures ToCompilationFromUpdate(u, ToCompilationFromUpdate(u, c)) == ToCompilationFromUpdate(u, c)
  {
  }

  /** `toCompilationDto`: no events map to an empty list; otherwise each event's short view,
      in the same order. */
  function ToCompilationDto(c: Compilation): (d: CompilationDto)
    ensures d.id == c.id && d.pinned == c.pinned && d.title == c.title
    ensures c.events.None? ==> d.events == []
    ensures c.events.Some? ==> |d.events| == |c.events.value|
    ensures c.events.Some? ==> forall i | 0 <= i < |d.events| :: d.events[i] == ToEventShortDto(c.events.value[i])
  {
    var events := if c.events.Some? then c.events.value else [];
    CompilationDto(seq(|events|, i requires 0 <= i < |events| => ToEventShortDto(events[i])), c.id, c.pinned, c.title)
  }

  /** Unset events and an empty list look the same in the response. */
  lemma NoEventsLikeEmptyEvents(c: Compilation)
    ensures ToCompilationDto(c.(events := None)) == ToCompilationDto(c.(events := Some([])))
  {
  }
}

/** CompilationServiceImpl. */
module CompilationService {
  import opened Wrappers
  import opened Paging
  import opened EventModel
  import opened CompilationMapper

  /** The compilation table in id order, the event table, and the compilation id counter. */
  datatype CompilationStore = CompilationStore(compilations: seq<Compilation>, events: seq<Event>, nextId: int)

  /** Ids ascend along the table and stay below the counter. */
  predicate Valid(s: CompilationStore) {
    && AscendingIds(s.compilations)
    && (forall i | 0 <= i < |s.compilations| :: s.compilations[i].id < s.nextId)
  }

  predicate AscendingIds(cs: seq<Compilation>) {
    forall i, j | 0 <= i < j < |cs| :: cs[i].id < cs[j].id
  }

  /** `findAllByIdIn`: the stored events whose id is listed, in table order. */
  function FindAllByIdIn(rows: seq<Event>, ids: seq<int>): (r: seq<Event>)
    ensures |r| <= |rows|
    ensures forall e | e in r :: e in rows && e.id in ids
    ensures forall e | e in rows && e.id in ids :: e in r
  {
    if rows == [] then []
    else (if rows[0].id in ids then [rows[0]] else []) + FindAllByIdIn(rows[1..], ids)
  }

  /** The position of compilation `compId`, if stored. */
  function Find(cs: seq<Compilation>, compId: int): (r: Option<nat>)
    ensures r.Some? ==> r.value < |cs| && cs[r.value].id == compId
    ensures r.None? ==> forall i | 0 <= i < |cs| :: cs[i].id != compId
  {
    if cs == [] then None
    else if cs[0].id == compId then Some(0)
    else
      var r := Find(cs[1..], compId);
      if r.Some? then Some(r.value + 1) else None
  }

  /** `addCompilation`: events are attached only for a present, non-empty list. */
  function AddCompilation(s: CompilationStore, d: NewCompilationDto): (r: (CompilationStore, CompilationDto))
    ensures |r.0.compilations| == |s.compilations| + 1 && r.0.compilations[..|s.compilations|] == s.compilations
    ensures r.0.nextId == s.nextId + 1 && r.0.events == s.events
    ensures var c := r.0.compilations[|s.compilations|];
      && c.id == s.nextId && c.pinned == d.pinned && c.title == d.title
      && (c.events.Some? <==> d.events.Some? && d.events.value != [])
      && (c.events.Some? ==> c.events.value == FindAllByIdIn(s.events, d.events.value))
      && r.1 == ToCompilationDto(c)
  {
    var c := ToCompilationFromNew(d);
    var c := if d.events.Some? && |d.events.value| != 0 then c.(events := Some(FindAllByIdIn(s.events, d.events.value))) else c;
    var c := c.(id := s.nextId);
    (s.(compilations := s.compilations + [c], nextId := s.nextId + 1), ToCompilationDto(c))
  }

  /** `deleteCompilation`. */
  function DeleteCompilation(s: CompilationStore, compId: int): (r: Result<CompilationStore>)
    ensures r.Ok? <==> exists i | 0 <= i < |s.compilations| :: s.compilations[i].id == compId
    ensures r.Err? ==> r.error == NotFound
    ensures r.Ok? ==> |r.value.compilations| == |s.compilations| - 1
    ensures r.Ok? ==> forall c | c in r.value.compilations :: c in s.compilations
  {
    var i :- Located(s, compId);
    Ok(s.(compilations := s.compilations[..i] + s.compilations[i + 1..]))
  }

  /** `getCompilation`: the position of an existing compilation, or NotFound. */
  function Located(s: CompilationStore, compId: int): (r: Result<nat>)
    ensures r.Ok? <==> exists i | 0 <= i < |s.compilations| :: s.compilations[i].id == compId
    ensures r.Err? ==> r.error == NotFound
    ensures r.Ok? ==> r.value < |s.compilations| && s.compilations[r.value].id == compId
  {
    var i := Find(s.compilations, compId);
    if i.None? then Err(NotFound) else Ok(i.value)
  }

  /** `updateCompilation` as written: the title and flag are merged, then `hasEvents` reads the
      list, which fails on a request without one; a non-empty list replaces the events. */
  function UpdateCompilation(s: CompilationStore, compId: int, u: UpdateCompilationRequest): (r: Result<(CompilationStore, CompilationDto)>)
    ensures Located(s, compId).Err? ==> r == Err(NotFound)
    ensures Located(s, compId).Ok? && u.events.None? ==> r == Err(InternalError)
    ensures r.Ok? <==> Located(s, compId).Ok? && u.events.Some?
    ensures r.Ok? ==>
      var i := Located(s, compId).value;
      var c := ToCompilationFromUpdate(u, s.compilations[i]);
      var c := if u.events.value != [] then c.(events := Some(FindAllByIdIn(s.events, u.events.value))) else c;
      r.value == (s.(compilations := s.compilations[i := c]), ToCompilationDto(c))
  {
    var i :- Located(s, compId);
    var c := ToCompilationFromUpdate(u, s.compilations[i]);
    var replace :- HasEvents(u);
    var c := if replace then c.(events := Some(FindAllByIdIn(s.events, u.events.value))) else c;
    Ok((s.(compilations := s.compilations[i := c]), ToCompilationDto(c)))
  }

  lemma AddCompilationKeepsValid(s: CompilationStore, d: NewCompilationDto)
    requires Valid(s)
    ensures Valid(AddCompilation(s, d).0)
  {
  }

  /** Deleting removes exactly the one compilation with that id. */
  lemma DeleteCompilationKeepsValid(s: CompilationStore, compId: int)
    requires Valid(s) && DeleteCompilation(s, compId).Ok?
    ensures Valid(DeleteCompilation(s, compId).value)
    ensures var cs := DeleteCompilation(s, compId).value.compilations;
            forall k | 0 <= k < |cs| :: cs[k].id != compId
  {
    var i := Located(s, compId).value;
    assert DeleteCompilation(s, compId).value.compilations == s.compilations[..i] + s.compilations[i + 1..];
    RemoveAt(s.compilations, i, s.nextId);
  }

  /** Removing position `i` from an id-ordered table keeps it ordered and bounded, and drops
      the only row with that id. */
  lemma RemoveAt(cs: seq<Compilation>, i: nat, bound: int)
    requires i < |cs| && AscendingIds(cs) && forall k | 0 <= k < |cs| :: cs[k].id < bound
    ensures var r := cs[..i] + cs[i + 1..];
            && AscendingIds(r)
            && (forall k | 0 <= k < |r| :: r[k].id < bound && r[k].id != cs[i].id)
  {
    var r := cs[..i] + cs[i + 1..];
    forall k | 0 <= k < |r| ensures r[k] == cs[Skip(k, i)] {
    }
  }

  /** Position `k` of a table with position `i` removed, in the original table. */
  function Skip(k: int, i: int): (r: int)
    ensures r != i && (k < i ==> r == k) && (k >= i ==> r == k + 1)
  {
    if k < i then k else k + 1
  }

  /** An update keeps every id in place. */
  lemma UpdateCompilationKeepsValid(s: CompilationStore, compId: int, u: UpdateCompilationRequest)
    requires Valid(s) && UpdateCompilation(s, compId, u).Ok?
    ensures Valid(UpdateCompilation(s, compId, u).value.0)
  {
  }

  /** A title-only update of an existing compilation fails, while the intended update
      renames it. */
  lemma TitleOnlyUpdateFails(s: CompilationStore, compId: int)
    requires Located(s, compId).Ok?
    ensures UpdateCompilation(s, compId, UpdateCompilationRequest(None, None, Some("Summer"))) == Err(InternalError)
    ensures UpdateCompilationIntended(s, compId, UpdateCompilationRequest(None, None, Some("Summer"))).Ok?
  {
  }

  /** The evidently intended update: a missing list is treated like an empty one. It fails only
      for an unknown id, never changes the events without a non-empty list, and agrees with
      the update as written whenever that one succeeds. */
  function UpdateCompilationIntended(s: CompilationStore, compId: int, u: UpdateCompilationRequest): (r: Result<(CompilationStore, CompilationDto)>)
    ensures r.Ok? <==> Located(s, compId).Ok?
    ensures r.Ok? ==> |r.value.0.compilations| == |s.compilations|
    ensures r.Ok? && (u.events.None? || u.events == Some([])) ==>
      var i := Located(s, compId).value;
      r.value.0.compilations[i].events == s.compilations[i].events
    ensures UpdateCompilation(s, compId, u).Ok? ==> r == UpdateCompilation(s, compId, u)
  {
    var i :- Located(s, compId);
    var c := ToCompilationFromUpdate(u, s.compilations[i]);
    var c := if u.events.Some? && u.events.value != [] then c.(events := Some(FindAllByIdIn(s.events, u.events.value))) else c;
    Ok((s.(compilations := s.compilations[i := c]), ToCompilationDto(c)))
  }

  /** The compilations with the given flag, in table order. */
  function WithPinned(cs: seq<Compilation>, pinned: bool): (r: seq<Compilation>)
    ensures |r| <= |cs|
    ensures forall k | 0 <= k < |r| :: r[k].pinned == pinned
  {
    if cs == [] then []
    else (if cs[0].pinned == pinned then [cs[0]] else []) + WithPinned(cs[1..], pinned)
  }

  /** The flag filter keeps exactly the compilations carrying that flag. */
  lemma {:induction false} WithPinnedExact(cs: seq<Compilation>, pinned: bool)
    ensures forall c | c in WithPinned(cs, pinned) :: c in cs && c.pinned == pinned
    ensures forall c | c in cs && c.pinned == pinned :: c in WithPinned(cs, pinned)
  {
    if cs != [] {
      WithPinnedExact(cs[1..], pinned);
      assert cs == [cs[0]] + cs[1..];
    }
  }

  /** The response view of each compilation, in order. */
  function ToDtos(cs: seq<Compilation>): (r: seq<CompilationDto>)
    ensures |r| == |cs| && forall k | 0 <= k < |r| :: r[k] == ToCompilationDto(cs[k])
  {
    seq(|cs|, i requires 0 <= i < |cs| => ToCompilationDto(cs[i]))
  }

  /** The response views of the page `from` of `cs`. */
  function PageDtos(cs: seq<Compilation>, from: int, size: int): (r: Result<seq<CompilationDto>>)
    ensures r.Err? <==> from < 0 || size < 1
    ensures r.Ok? ==> |r.value| <= size
    ensures r.Ok? ==> forall k | 0 <= k < |r.value| :: from * size + k < |cs| && r.value[k] == ToCompilationDto(cs[from * size + k])
  {
    var page :- PageOf(cs, from, size);
    Ok(ToDtos(page))
  }

  /** A page of compilations that all carry one flag shows only that flag. */
  lemma PageDtosKeepFlag(cs: seq<Compilation>, pinned: bool, from: int, size: int)
    requires forall k | 0 <= k < |cs| :: cs[k].pinned == pinned
    ensures PageDtos(cs, from, size).Ok? ==> forall k | 0 <= k < |PageDtos(cs, from, size).value| :: PageDtos(cs, from, size).value[k].pinned == pinned
  {
    var r := PageDtos(cs, from, size);
    if r.Ok? {
      forall k | 0 <= k < |r.value| ensures r.value[k].pinned == pinned {
        assert r.value[k] == ToCompilationDto(cs[from * size + k]);
      }
    }
  }

  /** `getCompilations`: filtered by the flag when one is given, all otherwise; `from` is the
      page index. */
  function GetCompilations(s: CompilationStore, pinned: Option<bool>, from: int, size: int): (r: Result<seq<CompilationDto>>)
    ensures r.Err? <==> from < 0 || size < 1
    ensures r.Ok? && pinned.Some? ==>
      forall k | 0 <= k < |r.value| :: from * size + k < |WithPinned(s.compilations, pinned.value)|
        && r.value[k] == ToCompilationDto(WithPinned(s.compilations, pinned.value)[from * size + k])
    ensures r.Ok? && pinned.Some? ==> forall k | 0 <= k < |r.value| :: r.value[k].pinned == pinned.value
    ensures r.Ok? && pinned.None? ==>
      forall k | 0 <= k < |r.value| :: from * size + k < |s.compilations| && r.value[k] == ToCompilationDto(s.compilations[from * size + k])
  {
    if pinned.Some? then
      var rows := WithPinned(s.compilations, pinned.value);
      PageDtosKeepFlag(rows, pinned.value, from, size);
      PageDtos(rows, from, size)
    else
      PageDtos(s.compilations, from, size)
  }

  /** `getCompilationById`. */
  function GetCompilationById(s: CompilationStore, compId: int): (r: Result<CompilationDto>)
    ensures r.Ok? <==> exists i | 0 <= i < |s.compilations| :: s.compilations[i].id == compId
    ensures r.Err? ==> r.error == NotFound
    ensures r.Ok? ==> r.value.id == compId
    ensures r.Ok? ==> r.value == ToCompilationDto(s.compilations[Located(s, compId).value])
  {
    var i :- Located(s, compId);
    Ok(ToCompilationDto(s.compilations[i]))
  }

  /** In a valid store ids are unique, so the compilation found is the one stored under the id. */
  lemma GetCompilationByIdFindsStored(s: CompilationStore, compId: int, i: int)
    requires Valid(s)
    requires 0 <= i < |s.compilations| && s.compilations[i].id == compId
    ensures GetCompilationById(s, compId) == Ok(ToCompilationDto(s.compilations[i]))
  {
    var j := Located(s, compId).value;
    assert s.compilations[j].id == compId;
    assert AscendingIds(s.compilations);
  }
}
