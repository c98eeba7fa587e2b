/**
  What `Initiate` and `MoveEvent` promise: the shape and numbering of a fresh
  grid, the id arithmetic that `MoveEvent` relies on, and the effect of a move
  on every month, stated against a per-month reference (`MovedMonth`).
 */
module LifeHistoryProperties {
  import opened Decimal
  import opened Wrappers
  import opened LifeHistory

  // ---------------------------------------------------------------------
  // Reading a grid in tree order

  /** The years of the grid, decade after decade. */
  function YearsInOrder(h: Grid): seq<Year> {
    if h == [] then [] else h[0].years + YearsInOrder(h[1..])
  }

  function MonthsOfYears(ys: seq<Year>): seq<Month> {
    if ys == [] then [] else ys[0].months + MonthsOfYears(ys[1..])
  }

  /** The months of the grid, in the order the UI lays them out. */
  function MonthsInOrder(h: Grid): seq<Month> {
    if h == [] then [] else MonthsOfYears(h[0].years) + MonthsInOrder(h[1..])
  }

  lemma {:induction false} YearsInOrderAt(h: Grid, d: nat, y: nat)
    requires Uniform(h)
    ensures |YearsInOrder(h)| == 10 * |h|
    ensures d < |h| && y < 10 ==> YearsInOrder(h)[d * 10 + y] == h[d].years[y]
    decreases |h|
  {
    if h != [] {
      YearsInOrderAt(h[1..], if d > 0 then d - 1 else 0, y);
    }
  }

  lemma {:induction false} MonthsOfYearsAt(ys: seq<Year>, y: nat, m: nat)
    requires forall j :: 0 <= j < |ys| ==> |ys[j].months| == 12
    ensures |MonthsOfYears(ys)| == 12 * |ys|
    ensures y < |ys| && m < 12 ==> MonthsOfYears(ys)[y * 12 + m] == ys[y].months[m]
    decreases |ys|
  {
    if ys != [] {
      MonthsOfYearsAt(ys[1..], if y > 0 then y - 1 else 0, m);
    }
  }

  lemma {:induction false} MonthsInOrderAt(h: Grid, d: nat, y: nat, m: nat)
    requires Uniform(h)
    ensures |MonthsInOrder(h)| == 120 * |h|
    ensures d < |h| && y < 10 && m < 12 ==>
              MonthsInOrder(h)[d * 120 + y * 12 + m] == h[d].years[y].months[m]
    decreases |h|
  {
    if h != [] {
      MonthsOfYearsAt(h[0].years, y, m);
      MonthsInOrderAt(h[1..], if d > 0 then d - 1 else 0, y, m);
    }
  }

  /** Position n of the tree order is month n % 12 of year n % 120 / 12 of decade n / 120. */
  lemma SplitPosition(n: nat)
    requires n < 1200
    ensures n == n / 120 * 120 + n % 120 / 12 * 12 + n % 12
    ensures n / 120 < 10 && n % 120 / 12 < 10 && n % 12 < 12
  {
  }

  // ---------------------------------------------------------------------
  // Initiate

  /** The node fields of a fresh grid at decade `d`, year `y`, month `m`. */
  lemma InitiateAt(d: nat, y: nat, m: nat)
    requires d < 10 && y < 10 && m < 12
    ensures Initiate()[d].id == d && Initiate()[d].decade == d + 1
    ensures Initiate()[d].years[y].id == d * 10 + y && Initiate()[d].years[y].year == d * 10 + y + 1
    ensures Initiate()[d].years[y].months[m] ==
              Month((d * 10 + y) * 12 + m, m + 1, [PlaceholderEvent((d * 10 + y) * 12 + m)])
  {
  }

  /** A fresh grid has 10 decades numbered 1..10 in order, each with 10 years and each year 12 months. */
  lemma InitiateShape()
    ensures |Initiate()| == 10
    ensures forall d :: 0 <= d < 10 ==> Initiate()[d].decade == d + 1 && |Initiate()[d].years| == 10
    ensures forall d, y :: 0 <= d < 10 && 0 <= y < 10 ==> |Initiate()[d].years[y].months| == 12
  {
  }

  /** The year at position n of a fresh grid, read in tree order. */
  lemma InitiateYearAt(n: nat)
    requires n < 100
    ensures |YearsInOrder(Initiate())| == 100
    ensures YearsInOrder(Initiate())[n].id == n && YearsInOrder(Initiate())[n].year == n + 1
  {
    var d, y := n / 10, n % 10;
    assert n == d * 10 + y && d < 10;
    YearsInOrderAt(Initiate(), d, y);
    InitiateAt(d, y, 0);
  }

  /** Read across the whole grid, year numbers are 1..100 with no gap or repeat, and year ids 0..99. */
  lemma InitiateYearsInOrder()
    ensures |YearsInOrder(Initiate())| == 100
    ensures forall n :: 0 <= n < 100 ==> YearsInOrder(Initiate())[n].id == n && YearsInOrder(Initiate())[n].year == n + 1
  {
    InitiateYearAt(0);
    forall n | 0 <= n < 100 ensures YearsInOrder(Initiate())[n].id == n && YearsInOrder(Initiate())[n].year == n + 1 {
      InitiateYearAt(n);
    }
  }

  /** The month at position n of a fresh grid, read in tree order. */
  lemma InitiateMonthAt(n: nat)
    requires n < 1200
    ensures |MonthsInOrder(Initiate())| == 1200
    ensures MonthsInOrder(Initiate())[n] == Month(n, n % 12 + 1, [PlaceholderEvent(n)])
  {
    var h := Initiate();
    var d, y, m := n / 120, n % 120 / 12, n % 12;
    SplitPosition(n);
    assert Uniform(h);
    MonthsInOrderAt(h, d, y, m);
    InitiateAt(d, y, m);
    assert (d * 10 + y) * 12 + m == n;
  }

  /**
    Read in tree order, a fresh grid has exactly 1200 months; the month at
    position n has id n, month number n % 12 + 1 and holds only the
    placeholder event with id n. So month ids are 0..1199, ascending and
    pairwise distinct.
   */
  lemma InitiateMonthsInOrder()
    ensures |MonthsInOrder(Initiate())| == 1200
    ensures forall n :: 0 <= n < 1200 ==> MonthsInOrder(Initiate())[n] == Month(n, n % 12 + 1, [PlaceholderEvent(n)])
    ensures forall a, b :: 0 <= a < b < 1200 ==> MonthsInOrder(Initiate())[a].id < MonthsInOrder(Initiate())[b].id
  {
    InitiateMonthAt(0);
    forall n | 0 <= n < 1200 ensures MonthsInOrder(Initiate())[n] == Month(n, n % 12 + 1, [PlaceholderEvent(n)]) {
      InitiateMonthAt(n);
    }
  }

  /** `DecadeOf` and `YearOf` invert the id formula of `Initiate`. */
  lemma IdArithmeticInverse(d: nat, y: nat, m: nat)
    requires d < 10 && y < 10 && m < 12
    ensures DecadeOf((d * 10 + y) * 12 + m) == d + 1
    ensures YearOf((d * 10 + y) * 12 + m) == d * 10 + y + 1
  {
  }

  /** In a fresh grid every month lies in the decade and year that `MoveEvent` computes from its id. */
  lemma InitiateConsistent()
    ensures Consistent(Initiate())
  {
  }

  /**
    For a month id n of a fresh grid, exactly one decade has the number
    `DecadeOf(n)` and exactly one year the number `YearOf(n)`: the ones that
    hold month n.
   */
  lemma InitiatePathUnique(n: nat)
    requires n < 1200
    ensures forall d :: 0 <= d < 10 ==> (Initiate()[d].decade == DecadeOf(n) <==> d == n / 120)
    ensures forall d, y :: 0 <= d < 10 && 0 <= y < 10 ==>
              (Initiate()[d].years[y].year == YearOf(n) <==> d == n / 120 && y == n % 120 / 12)
    ensures Initiate()[n / 120].years[n % 120 / 12].months[n % 12].id == n
  {
  }

  // ---------------------------------------------------------------------
  // MoveEvent

  /**
    Reference for one month under a move: drop every event with the moved
    event's id if it is the source month, then append the event if it is
    the target month. No decade or year arithmetic is involved.
   */
  function MovedMonth(m: Month, event: Event, sourceId: nat, targetId: nat): Month {
    var kept := if m.id == sourceId then Without(m.events, event.id) else m.events;
    m.(events := if m.id == targetId then kept + [event] else kept)
  }

  lemma SameShapeKeepsConsistent(h: Grid, r: Grid)
    requires SameShape(h, r) && Consistent(h)
    ensures Consistent(r)
  {
  }

  lemma SameShapeKeepsUniform(h: Grid, r: Grid)
    requires SameShape(h, r) && Uniform(h)
    ensures Uniform(r)
  {
  }

  /**
    On a grid whose months sit where their ids say, `MoveEvent` changes each
    month exactly as `MovedMonth` does, keeps the shape, and keeps the grid
    consistent.
   */
  lemma MoveEventEachMonth(event: Event, h: Grid, sourceMonth: Month, targetMonth: Month)
    requires Consistent(h)
    ensures SameShape(h, MoveEvent(event, h, sourceMonth, targetMonth))
    ensures Consistent(MoveEvent(event, h, sourceMonth, targetMonth))
    ensures forall i, j, k :: 0 <= i < |h| && 0 <= j < |h[i].years| && 0 <= k < |h[i].years[j].months| ==>
              MoveEvent(event, h, sourceMonth, targetMonth)[i].years[j].months[k] ==
              MovedMonth(h[i].years[j].months[k], event, sourceMonth.id, targetMonth.id)
  {
  }

  /** The month that receives the event ends with it, after what was there (less any same-id events when it is also the source). */
  lemma MoveEventTarget(event: Event, h: Grid, sourceMonth: Month, targetMonth: Month, i: nat, j: nat, k: nat)
    requires Consistent(h)
    requires i < |h| && j < |h[i].years| && k < |h[i].years[j].months|
    requires h[i].years[j].months[k].id == targetMonth.id
    ensures var before := h[i].years[j].months[k].events;
            var after := MoveEvent(event, h, sourceMonth, targetMonth)[i].years[j].months[k].events;
            |after| >= 1 && after[|after| - 1] == event
            && after[..|after| - 1] == (if sourceMonth.id == targetMonth.id then Without(before, event.id) else before)
  {
  }

  /** When source and target differ, the source month keeps everything except the events with the moved id. */
  lemma MoveEventSource(event: Event, h: Grid, sourceMonth: Month, targetMonth: Month, i: nat, j: nat, k: nat)
    requires Consistent(h)
    requires i < |h| && j < |h[i].years| && k < |h[i].years[j].months|
    requires h[i].years[j].months[k].id == sourceMonth.id != targetMonth.id
    ensures var before := h[i].years[j].months[k].events;
            var after := MoveEvent(event, h, sourceMonth, targetMonth)[i].years[j].months[k].events;
            (forall e :: e in after ==> e.id != event.id)
            && (forall e :: e in before && e.id != event.id ==> e in after)
  {
  }

  /** Read in tree order, a move on a consistent regular grid changes every month as `MovedMonth` says. */
  lemma MoveEventInOrder(event: Event, h: Grid, sourceMonth: Month, targetMonth: Month, n: nat)
    requires Regular(h) && Consistent(h)
    ensures |MonthsInOrder(MoveEvent(event, h, sourceMonth, targetMonth))| == |MonthsInOrder(h)|
    ensures n < |MonthsInOrder(h)| ==>
              MonthsInOrder(MoveEvent(event, h, sourceMonth, targetMonth))[n] ==
              MovedMonth(MonthsInOrder(h)[n], event, sourceMonth.id, targetMonth.id)
  {
    var r := MoveEvent(event, h, sourceMonth, targetMonth);
    MoveEventEachMonth(event, h, sourceMonth, targetMonth);
    assert Uniform(h);
    SameShapeKeepsUniform(h, r);
    MonthsInOrderAt(h, 0, 0, 0);
    MonthsInOrderAt(r, 0, 0, 0);
    if n < 1200 {
      var d, y, m := n / 120, n % 120 / 12, n % 12;
      SplitPosition(n);
      MonthsInOrderAt(h, d, y, m);
      MonthsInOrderAt(r, d, y, m);
      assert r[d].years[y].months[m] == MovedMonth(h[d].years[y].months[m], event, sourceMonth.id, targetMonth.id);
    }
  }

  lemma WithoutSingleton(e: Event, eventId: nat)
    ensures Without([e], eventId) == if e.id == eventId then [] else [e]
  {
  }

  /** A move's effect on a month that holds just its placeholder. */
  lemma MovePlaceholderMonth(event: Event, h: Grid, sourceMonth: Month, targetMonth: Month, n: nat)
    requires Regular(h) && Consistent(h)
    requires n < |MonthsInOrder(h)| && MonthsInOrder(h)[n] == Month(n, n % 12 + 1, [PlaceholderEvent(n)])
    ensures |MonthsInOrder(MoveEvent(event, h, sourceMonth, targetMonth))| == |MonthsInOrder(h)|
    ensures MonthsInOrder(MoveEvent(event, h, sourceMonth, targetMonth))[n] ==
              Month(n, n % 12 + 1,
                (if n == sourceMonth.id && event.id == n then [] else [PlaceholderEvent(n)])
                + (if n == targetMonth.id then [event] else []))
  {
    MoveEventInOrder(event, h, sourceMonth, targetMonth, n);
    WithoutSingleton(PlaceholderEvent(n), event.id);
    var kept := if n == sourceMonth.id && event.id == n then [] else [PlaceholderEvent(n)];
    assert kept + [] == kept;
  }

  /** Position n of a fresh grid after a move, read in tree order. */
  lemma MoveEventOnInitiateAt(event: Event, sourceMonth: Month, targetMonth: Month, n: nat)
    requires n < 1200
    ensures |MonthsInOrder(MoveEvent(event, Initiate(), sourceMonth, targetMonth))| == 1200
    ensures MonthsInOrder(MoveEvent(event, Initiate(), sourceMonth, targetMonth))[n] ==
              Month(n, n % 12 + 1,
                (if n == sourceMonth.id && event.id == n then [] else [PlaceholderEvent(n)])
                + (if n == targetMonth.id then [event] else []))
  {
    InitiateConsistent();
    InitiateMonthAt(n);
    MovePlaceholderMonth(event, Initiate(), sourceMonth, targetMonth, n);
  }

  /**
    Moving an event on a fresh grid: the target month holds its placeholder
    (unless the event removed it) followed by the event, the source month
    loses its placeholder exactly when the event has the placeholder's id,
    and every other month is as `Initiate` built it.
   */
  lemma MoveEventOnInitiate(event: Event, sourceMonth: Month, targetMonth: Month)
    ensures |MonthsInOrder(MoveEvent(event, Initiate(), sourceMonth, targetMonth))| == 1200
    ensures var after := MonthsInOrder(MoveEvent(event, Initiate(), sourceMonth, targetMonth));
            var t := targetMonth.id;
            t < 1200 ==>
              after[t].events == (if sourceMonth.id == t && event.id == t then [] else [PlaceholderEvent(t)]) + [event]
    ensures var after := MonthsInOrder(MoveEvent(event, Initiate(), sourceMonth, targetMonth));
            var s := sourceMonth.id;
            s < 1200 && s != targetMonth.id ==> after[s].events == (if event.id == s then [] else [PlaceholderEvent(s)])
    ensures var after := MonthsInOrder(MoveEvent(event, Initiate(), sourceMonth, targetMonth));
            forall n :: 0 <= n < 1200 && n != sourceMonth.id && n != targetMonth.id ==>
              after[n] == Month(n, n % 12 + 1, [PlaceholderEvent(n)])
  {
    var s, t := sourceMonth.id, targetMonth.id;
    MoveEventOnInitiateAt(event, sourceMonth, targetMonth, 0);
    if t < 1200 {
      MoveEventOnInitiateAt(event, sourceMonth, targetMonth, t);
    }
    if s < 1200 && s != t {
      MoveEventOnInitiateAt(event, sourceMonth, targetMonth, s);
      var kept := if event.id == s then [] else [PlaceholderEvent(s)];
      assert kept + [] == kept;
    }
    forall n | 0 <= n < 1200 && n != s && n != t
      ensures MonthsInOrder(MoveEvent(event, Initiate(), sourceMonth, targetMonth))[n] ==
              Month(n, n % 12 + 1, [PlaceholderEvent(n)])
    {
      MoveEventOnInitiateAt(event, sourceMonth, targetMonth, n);
      assert [PlaceholderEvent(n)] + [] == [PlaceholderEvent(n)];
    }
  }

  /**
    A target month id that no month of a fresh grid has (1200 or more): the
    event is removed from the source month and appended nowhere, so no month
    gains it.
   */
  lemma MoveEventToMissingMonth(event: Event, sourceMonth: Month, targetMonth: Month)
    requires targetMonth.id >= 1200
    ensures var before := MonthsInOrder(Initiate());
            var after := MonthsInOrder(MoveEvent(event, Initiate(), sourceMonth, targetMonth));
            |after| == |before| == 1200
            && forall n :: 0 <= n < 1200 ==>
                 |after[n].events| <= |before[n].events|
                 && (event in after[n].events ==> event in before[n].events && n != sourceMonth.id)
  {
    MoveEventOnInitiateAt(event, sourceMonth, targetMonth, 0);
    InitiateMonthAt(0);
    forall n | 0 <= n < 1200
      ensures |MonthsInOrder(MoveEvent(event, Initiate(), sourceMonth, targetMonth))[n].events|
              <= |MonthsInOrder(Initiate())[n].events|
      ensures event in MonthsInOrder(MoveEvent(event, Initiate(), sourceMonth, targetMonth))[n].events ==>
              event in MonthsInOrder(Initiate())[n].events && n != sourceMonth.id
    {
      MoveEventOnInitiateAt(event, sourceMonth, targetMonth, n);
      InitiateMonthAt(n);
    }
  }

  // ---------------------------------------------------------------------
  // Event classification

  /**
    An absent or empty `event_text` (`event_image`) never makes a text
    (image) event, and the two kinds are independent: each of the four
    combinations is taken by some event.
   */
  lemma EventKindsIndependent()
    ensures forall e: Event :: e.eventText == None || e.eventText == Some("") ==> !IsTextEvent(e)
    ensures forall e: Event :: e.eventImage == None || e.eventImage == Some("") ==> !IsImageEvent(e)
    ensures exists e: Event :: IsTextEvent(e) && IsImageEvent(e)
    ensures exists e: Event :: IsTextEvent(e) && !IsImageEvent(e)
    ensures exists e: Event :: !IsTextEvent(e) && IsImageEvent(e)
    ensures exists e: Event :: !IsTextEvent(e) && !IsImageEvent(e)
  {
    var both := PlaceholderEvent(0);
    var text := Event(1, "2020-03-10", Some("trip"), None, "", "");
    var image := Event(2, "2020-03-10", Some(""), Some("photo.png"), "", "");
    var neither := Event(3, "2020-03-10", None, Some(""), "", "");
    assert IsTextEvent(both) && IsImageEvent(both);
    assert IsTextEvent(text) && !IsImageEvent(text);
    assert !IsTextEvent(image) && IsImageEvent(image);
    assert !IsTextEvent(neither) && !IsImageEvent(neither);
  }

  /** The two kinds overlap: a fresh grid's placeholder events are both, and their texts differ from month to month. */
  lemma PlaceholderKinds(a: nat, b: nat)
    ensures IsTextEvent(PlaceholderEvent(a)) && IsImageEvent(PlaceholderEvent(a))
    ensures a != b ==> PlaceholderEvent(a).eventText != PlaceholderEvent(b).eventText
  {
    if a != b {
      DecimalStringInjective(a, b);
    }
  }
}
