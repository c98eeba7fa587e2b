/**
  The two unit choices of the grid view: the span being shown (`LifeUnit`)
  and the cell it is divided into (`TimeUnit`), with their names on the wire.
 */
module Units {
  import opened Wrappers

  datatype LifeUnit = Life | Year | Month
  datatype TimeUnit = Years | Months | Weeks

  function LifeUnitName(u: LifeUnit): string {
    match u
    case Life => "life"
    case Year => "year"
    case Month => "month"
  }

  /** The `LifeUnit` a string names, if any. */
  function ParseLifeUnit(s: string): (u: Option<LifeUnit>)
    ensures u.Some? ==> LifeUnitName(u.value) == s
    ensures forall l :: LifeUnitName(l) == s ==> u == Some(l)
  {
    if s == "life" then Some(Life)
    else if s == "year" then Some(Year)
    else if s == "month" then Some(Month)
    else None
  }


  /** How coarse a span is: the whole life 0, a year 1, a month 2. */
  function LifeRank(u: LifeUnit): nat {
    match u
    case Life => 0
    case Year => 1
    case Month => 2
  }

  /** How coarse a cell is, on the same scale: a year 1, a month 2, a week 3. */
  function TimeRank(t: TimeUnit): nat {
    match t
    case Years => 1
    case Months => 2
    case Weeks => 3
  }
}
