/** `generateGrid` in the app component: the numbered cells shown for a span and a cell unit. */
module GridCells {
  import opened Units
  import opened TimeUnitOptions

  /** `Array.from({ length: k }, (_, i) => i + 1)`. */
  function Cells(k: nat): (cells: seq<int>)
    ensures |cells| == k
    ensures forall i :: 0 <= i < k ==> cells[i] == i + 1
  {
    seq(k, i => i + 1)
  }

  /** How many cells of `timeUnit` make up `lifeUnit`: 100 years a life, 12 months or 52 weeks a year, 4 weeks a month. */
  function UnitsPerSpan(lifeUnit: LifeUnit, timeUnit: TimeUnit): nat {
    match (lifeUnit, timeUnit)
    case (Life, Years) => 100
    case (Life, Months) => 100 * 12
    case (Life, Weeks) => 100 * 52
    case (Year, Years) => 1
    case (Year, Months) => 12
    case (Year, Weeks) => 52
    case (Month, Weeks) => 4
    case (Month, _) => 1
  }

  function GenerateGrid(lifeUnit: LifeUnit, timeUnit: TimeUnit): (cells: seq<int>)
    ensures forall i :: 0 <= i < |cells| ==> cells[i] == i + 1
    ensures forall i, j :: 0 <= i < j < |cells| ==> cells[i] < cells[j]
    ensures lifeUnit == Life ==> |cells| == UnitsPerSpan(Life, Years)
    ensures lifeUnit != Life && timeUnit in GetTimeUnitOptions(LifeUnitName(lifeUnit)) ==>
              |cells| == UnitsPerSpan(lifeUnit, timeUnit)
  {
    match lifeUnit
    case Life => Cells(100)
    case Year => if timeUnit == Months then Cells(12) else Cells(52)
    case Month => Cells(4)
  }

  /** The cell lists, literally: 1..100 for a life whatever the unit, 1..12 or 1..52 for a year, 1..4 for a month. */
  lemma GridPerUnit(timeUnit: TimeUnit)
    ensures GenerateGrid(Life, timeUnit) == Cells(100)
    ensures GenerateGrid(Year, Months) == Cells(12)
    ensures timeUnit != Months ==> GenerateGrid(Year, timeUnit) == Cells(52)
    ensures GenerateGrid(Month, timeUnit) == Cells(4)
  {
  }
}
