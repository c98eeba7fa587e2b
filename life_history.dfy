/**
  The life-history grid: a fixed tree of 10 decades, each of 10 years, each of
  12 months, every month holding a sequence of events; `Initiate` builds the
  initial tree and `MoveEvent` rewrites it to move one event between months.

  Ids are natural numbers. The source keeps them as `String(n)` and reads a
  month id back with `Number(...)`; `Decimal.ParseDecimalString` shows that
  this round trip is the identity, and `Decimal.DecimalStringInjective` that
  two ids are equal as strings exactly when they are equal as numbers. The UI callback field of each node is not modelled.
 */
module LifeHistory {
  import opened Decimal
  import opened Wrappers


  type MonthNumber = m: int | 1 <= m <= 12 witness 1

  /**
    One event. A field the source may or may not carry (`event_text`,
    `event_image`) is an `Option`: `None` when the key is absent.
   */
  datatype Event = Event(
    id: nat,
    eventDate: string,
    eventText: Option<string>,
    eventImage: Option<string>,
    updatedAt: string,
    userId: string)

  datatype Month = Month(id: nat, month: MonthNumber, events: seq<Event>)
  datatype Year = Year(id: nat, year: nat, months: seq<Month>)
  datatype Decade = Decade(id: nat, decade: nat, years: seq<Year>)

  /** `MonthlyLifeHistory`: the decades in order. */
  type Grid = seq<Decade>

  const DecadeCount: nat := 10
  const YearsPerDecade: nat := 10
  const MonthsPerYear: nat := 12

  // ---------------------------------------------------------------------
  // Event classification

  /** `"field" in event && Boolean(event.field)` for a string field. */
  predicate Present(field: Option<string>) {
    field.Some? && field.value != ""
  }

  predicate IsTextEvent(e: Event) {
    Present(e.eventText)
  }

  predicate IsImageEvent(e: Event) {
    Present(e.eventImage)
  }

  // ---------------------------------------------------------------------
  // Initiate

  /** The event every month of a fresh grid starts with; its id is the month's id. */
  function PlaceholderEvent(n: nat): (e: Event)
    ensures e.id == n
    ensures IsTextEvent(e) && IsImageEvent(e)
  {
    Event(n, "string", Some(DecimalString(n)), Some("string"), "string", "string")
  }

  function InitiateMonth(year: nat, monthIndex: nat): Month
    requires monthIndex < MonthsPerYear
  {
    var id := year * MonthsPerYear + monthIndex;
    Month(id, monthIndex + 1, [PlaceholderEvent(id)])
  }

  function InitiateYear(decadeIndex: nat, yearIndex: nat): Year {
    var year := decadeIndex * YearsPerDecade + yearIndex;
    Year(year, year + 1,
      seq(MonthsPerYear, monthIndex requires 0 <= monthIndex < MonthsPerYear => InitiateMonth(year, monthIndex)))
  }

  function InitiateDecade(decadeIndex: nat): Decade {
    Decade(decadeIndex, decadeIndex + 1,
      seq(YearsPerDecade, yearIndex requires 0 <= yearIndex => InitiateYear(decadeIndex, yearIndex)))
  }

  /** `LifeHistory.initiate()`: the 10 x 10 x 12 grid of placeholder months. */
  function Initiate(): (h: Grid)
    ensures Regular(h)
  {
    seq(DecadeCount, decadeIndex requires 0 <= decadeIndex => InitiateDecade(decadeIndex))
  }

  // ---------------------------------------------------------------------
  // Shape of a grid

  /** Every decade holds 10 years and every year 12 months (any number of decades). */
  ghost predicate Uniform(h: Grid) {
    (forall i :: 0 <= i < |h| ==> |h[i].years| == YearsPerDecade)
    && (forall i, j :: 0 <= i < |h| && 0 <= j < |h[i].years| ==> |h[i].years[j].months| == MonthsPerYear)
  }

  /** The shape `Initiate` builds: 10 decades of 10 years of 12 months. */
  ghost predicate Regular(h: Grid) {
    |h| == DecadeCount && Uniform(h)
  }

  /**
    `r` has the same decades, years and months as `h`, in the same order and
    with the same ids and numbers; only the months' events may differ.
   */
  ghost predicate SameShape(h: Grid, r: Grid) {
    |r| == |h|
    && (forall i :: 0 <= i < |h| ==>
          r[i].id == h[i].id && r[i].decade == h[i].decade && |r[i].years| == |h[i].years|)
    && (forall i, j :: 0 <= i < |h| && 0 <= j < |h[i].years| ==>
          r[i].years[j].id == h[i].years[j].id && r[i].years[j].year == h[i].years[j].year
          && |r[i].years[j].months| == |h[i].years[j].months|)
    && (forall i, j, k :: 0 <= i < |h| && 0 <= j < |h[i].years| && 0 <= k < |h[i].years[j].months| ==>
          r[i].years[j].months[k].id == h[i].years[j].months[k].id
          && r[i].years[j].months[k].month == h[i].years[j].months[k].month)
  }

  // ---------------------------------------------------------------------
  // MoveEvent

  /** `Math.floor(Number(id) / 12 / 10) + 1`: the decade number that month `monthId` lies in. */
  function DecadeOf(monthId: nat): (decade: nat)
    ensures decade >= 1
    ensures (decade - 1) * (MonthsPerYear * YearsPerDecade) <= monthId < decade * (MonthsPerYear * YearsPerDecade)
    ensures decade == (YearOf(monthId) - 1) / YearsPerDecade + 1
  {
    monthId / MonthsPerYear / YearsPerDecade + 1
  }

  /** `Math.floor(Number(id) / 12) + 1`: the year number that month `monthId` lies in. */
  function YearOf(monthId: nat): (year: nat)
    ensures year >= 1
    ensures (year - 1) * MonthsPerYear <= monthId < year * MonthsPerYear
  {
    monthId / MonthsPerYear + 1
  }

  /** Every month sits in the decade and year that `DecadeOf` and `YearOf` compute from its id. */
  ghost predicate Consistent(h: Grid) {
    forall i, j, k :: 0 <= i < |h| && 0 <= j < |h[i].years| && 0 <= k < |h[i].years[j].months| ==>
      h[i].decade == DecadeOf(h[i].years[j].months[k].id)
      && h[i].years[j].year == YearOf(h[i].years[j].months[k].id)
  }

  /** `events.filter(event => event.id !== eventId)`. */
  function Without(events: seq<Event>, eventId: nat): (r: seq<Event>)
    ensures |r| <= |events|
    ensures forall e :: multiset(r)[e] == if e.id == eventId then 0 else multiset(events)[e]
    ensures forall e :: e in r <==> e in events && e.id != eventId
    ensures (forall e :: e in events ==> e.id != eventId) ==> r == events
  {
    if events == [] then []
    else if events[0].id != eventId then
      assert events == [events[0]] + events[1..];
      [events[0]] + Without(events[1..], eventId)
    else
      assert events == [events[0]] + events[1..];
      Without(events[1..], eventId)
  }

  /** What one pass of `moveEvent` does to the month it reaches. */
  datatype Edit = Remove(eventId: nat) | Append(event: Event)

  function ApplyEdit(events: seq<Event>, edit: Edit): seq<Event> {
    match edit
    case Remove(eventId) => Without(events, eventId)
    case Append(event) => events + [event]
  }

  /** The decade, year and month of `h` at (i, j, k) are all on the path one pass takes to month `monthId`. */
  ghost predicate OnPath(h: Grid, i: int, j: int, k: int, monthId: nat)
    requires 0 <= i < |h| && 0 <= j < |h[i].years| && 0 <= k < |h[i].years[j].months|
  {
    h[i].decade == DecadeOf(monthId)
    && h[i].years[j].year == YearOf(monthId)
    && h[i].years[j].months[k].id == monthId
  }

  function EditMonth(m: Month, monthId: nat, edit: Edit): Month {
    if m.id != monthId then m else m.(events := ApplyEdit(m.events, edit))
  }

  function EditYear(y: Year, monthId: nat, edit: Edit): Year {
    if y.year != YearOf(monthId) then y
    else y.(months := seq(|y.months|, k requires 0 <= k < |y.months| => EditMonth(y.months[k], monthId, edit)))
  }

  function EditDecade(d: Decade, monthId: nat, edit: Edit): Decade {
    if d.decade != DecadeOf(monthId) then d
    else d.(years := seq(|d.years|, j requires 0 <= j < |d.years| => EditYear(d.years[j], monthId, edit)))
  }

  /**
    One `lifeHistory.map(...)` pass of `moveEvent`: descend into the decade
    and the year computed from `monthId` and edit the month whose id is
    `monthId`; every other node is returned as it is.
   */
  function EditPass(h: Grid, monthId: nat, edit: Edit): (r: Grid)
    ensures SameShape(h, r)
    ensures forall i :: 0 <= i < |h| && h[i].decade != DecadeOf(monthId) ==> r[i] == h[i]
    ensures forall i, j :: 0 <= i < |h| && 0 <= j < |h[i].years| && h[i].years[j].year != YearOf(monthId) ==>
              r[i].years[j] == h[i].years[j]
    ensures forall i, j, k :: 0 <= i < |h| && 0 <= j < |h[i].years| && 0 <= k < |h[i].years[j].months| ==>
              r[i].years[j].months[k].events ==
                if OnPath(h, i, j, k, monthId) then ApplyEdit(h[i].years[j].months[k].events, edit)
                else h[i].years[j].months[k].events
  {
    seq(|h|, i requires 0 <= i < |h| => EditDecade(h[i], monthId, edit))
  }

  /**
    `LifeHistory.moveEvent`: remove every event with `event.id` from the
    source month, then append `event`, unchanged, to the target month.
    Only the month ids of `sourceMonth` and `targetMonth` are used.
   */
  function MoveEvent(event: Event, h: Grid, sourceMonth: Month, targetMonth: Month): (r: Grid)
    ensures SameShape(h, r)
    ensures forall i :: 0 <= i < |h| ==>
              (h[i].decade != DecadeOf(sourceMonth.id) && h[i].decade != DecadeOf(targetMonth.id) ==> r[i] == h[i])
    ensures forall i, j :: 0 <= i < |h| && 0 <= j < |h[i].years| ==>
              (h[i].years[j].year != YearOf(sourceMonth.id) && h[i].years[j].year != YearOf(targetMonth.id) ==>
                 r[i].years[j] == h[i].years[j])
    ensures forall i, j, k :: 0 <= i < |h| && 0 <= j < |h[i].years| && 0 <= k < |h[i].years[j].months| ==>
              (h[i].years[j].months[k].id != sourceMonth.id && h[i].years[j].months[k].id != targetMonth.id ==>
                 r[i].years[j].months[k] == h[i].years[j].months[k])
  {
    var removed := EditPass(h, sourceMonth.id, Remove(event.id));
    EditPass(removed, targetMonth.id, Append(event))
  }
}
