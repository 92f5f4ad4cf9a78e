/** EventSpecifications: the search predicates over events and their conjunction. */
module EventSpecifications {
  import opened Wrappers
  import opened Text
  import opened EventModel

  /** One predicate factory each. `OnlyPublishedEvent`, `InUsers` and `InStates` are called by
      the searches without being declared among the factories; they carry their evident meaning:
      the state equals the given one, the initiator is one of the listed users, the state is one
      of the listed states. */
  datatype Spec =
    | WithText(text: string)
    | InCategories(categories: seq<int>)
    | IsPaid(paid: bool)
    | BetweenPeriod(start: int, end: int)
    | LaterCurrentDateTime(date: int)
    | OnlyAvailableEvent
    | OnlyPublishedEvent(state: State)
    | InUsers(users: seq<int>)
    | InStates(states: seq<State>)

  /** The SQL condition each factory builds, evaluated on one event row. */
  function Matches(s: Spec, e: Event): (b: bool)
    ensures s.WithText? && s.text == [] ==> b
    ensures s.InCategories? && s.categories == [] ==> !b
    ensures s.InCategories? && e.category.None? ==> !b
    ensures s.BetweenPeriod? && s.start > s.end ==> !b
    ensures s.OnlyAvailableEvent? && e.participantLimit <= 0 ==> b
    ensures s.InUsers? && s.users == [] ==> !b
    ensures s.InStates? && s.states == [] ==> !b
  {
    assert s.WithText? ==> [] <= Lower(e.annotation)[0..];
    match s
    case WithText(text) =>
      var t := Lower(text);
      Contains(Lower(e.annotation), t) || Contains(Lower(e.description), t)
    case InCategories(cats) => e.category.Some? && e.category.value in cats
    case IsPaid(paid) => e.paid == paid
    case BetweenPeriod(start, end) => start <= e.eventDate <= end
    case LaterCurrentDateTime(date) => e.eventDate > date
    case OnlyAvailableEvent => e.confirmedRequests <= e.participantLimit || e.participantLimit <= 0
    case OnlyPublishedEvent(state) => e.state == state
    case InUsers(users) => e.initiator in users
    case InStates(states) => e.state in states
  }

  /** `combine`: the conjunction of the predicates, folded in list order. */
  function Combine(specs: seq<Spec>, e: Event): (b: bool)
    ensures b <==> forall i | 0 <= i < |specs| :: Matches(specs[i], e)
  {
    if specs == [] then true else Matches(specs[0], e) && Combine(specs[1..], e)
  }

  /** The rows of `rows`, in their order, that satisfy the combined predicate. */
  function Select(rows: seq<Event>, specs: seq<Spec>): (r: seq<Event>)
    ensures |r| <= |rows|
    ensures forall x | x in r :: x in rows && Combine(specs, x)
    ensures forall x | x in rows && Combine(specs, x) :: x in r
  {
    if rows == [] then []
    else (if Combine(specs, rows[0]) then [rows[0]] else []) + Select(rows[1..], specs)
  }

  /** A row that passes the conjunction passes each of its predicates. */
  lemma CombineMember(specs: seq<Spec>, s: Spec, e: Event)
    requires Combine(specs, e) && s in specs
    ensures Matches(s, e)
  {
    var i :| 0 <= i < |specs| && specs[i] == s;
  }

  /** A predicate no row of `rows` satisfies empties the selection. */
  lemma SelectNoneMatch(rows: seq<Event>, specs: seq<Spec>, s: Spec)
    requires s in specs
    requires forall x | x in rows :: !Matches(s, x)
    ensures Select(rows, specs) == []
  {
    if Select(rows, specs) != [] {
      var x := Select(rows, specs)[0];
      assert x in Select(rows, specs);
      CombineMember(specs, s, x);
    }
  }

  /** An empty list matches every event. */
  lemma CombineEmpty(e: Event)
    ensures Combine([], e)
  {
  }

  /** The order of the predicates does not matter. */
  lemma CombineOrderIrrelevant(a: seq<Spec>, b: seq<Spec>, e: Event)
    requires multiset(a) == multiset(b)
    ensures Combine(a, e) == Combine(b, e)
  {
    if Combine(a, e) {
      forall j | 0 <= j < |b| ensures Matches(b[j], e) {
        assert b[j] in multiset(b);
        var i :| 0 <= i < |a| && a[i] == b[j];
      }
    }
    if Combine(b, e) {
      forall i | 0 <= i < |a| ensures Matches(a[i], e) {
        assert a[i] in multiset(a);
        var j :| 0 <= j < |b| && b[j] == a[i];
      }
    }
  }

  /** Appending a predicate can only shrink the set of matches. */
  lemma CombineAppend(specs: seq<Spec>, s: Spec, e: Event)
    ensures Combine(specs + [s], e) <==> Combine(specs, e) && Matches(s, e)
    ensures Combine(specs + [s], e) ==> Combine(specs, e)
  {
    assert forall i | 0 <= i < |specs| :: (specs + [s])[i] == specs[i];
    assert (specs + [s])[|specs|] == s;
  }

  /** The period is closed at both ends; "later than" is strict. */
  lemma PeriodBounds(e: Event, start: int, end: int)
    requires start <= end
    ensures e.eventDate == start ==> Matches(BetweenPeriod(start, end), e)
    ensures e.eventDate == end ==> Matches(BetweenPeriod(start, end), e)
    ensures !Matches(LaterCurrentDateTime(e.eventDate), e)
  {
  }

  /** An event whose confirmed count equals its limit is still "available". */
  lemma FullEventIsAvailable(e: Event)
    requires e.confirmedRequests == e.participantLimit
    ensures Matches(OnlyAvailableEvent, e)
  {
  }

  /** The text match ignores letter case, as `Lower` folds it, on both sides. */
  lemma TextMatchIgnoresCase(e: Event, text: string)
    ensures Matches(WithText(text), e) == Matches(WithText(Lower(text)), e)
  {
    LowerIdempotent(text);
  }

  lemma LowerIdempotent(s: string)
    ensures Lower(Lower(s)) == Lower(s)
  {
  }
}
