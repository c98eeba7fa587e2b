/** `getTimeUnitOptions`: the cell units offered for a chosen span. */
module TimeUnitOptions {
  import opened Units

  /**
    The options offered for `lifeUnit`: exactly the cell units strictly finer
    than the span it names, coarsest first; nothing for an unknown name.
   */
  function GetTimeUnitOptions(lifeUnit: string): (r: seq<TimeUnit>)
    ensures ParseLifeUnit(lifeUnit).None? ==> r == []
    ensures forall t :: t in r <==>
              ParseLifeUnit(lifeUnit).Some? && TimeRank(t) > LifeRank(ParseLifeUnit(lifeUnit).value)
    ensures forall i, j :: 0 <= i < j < |r| ==> TimeRank(r[i]) < TimeRank(r[j])
  {
    if lifeUnit == "life" then [Years, Months, Weeks]
    else if lifeUnit == "year" then [Months, Weeks]
    else if lifeUnit == "month" then [Weeks]
    else []
  }

  /** The options for each known span, literally. */
  lemma OptionsPerUnit()
    ensures GetTimeUnitOptions("life") == [Years, Months, Weeks]
    ensures GetTimeUnitOptions("year") == [Months, Weeks]
    ensures GetTimeUnitOptions("month") == [Weeks]
  {
  }

  /**
    The options narrow monotonically: every list is a suffix of the list for
    the whole life, and every non-empty list ends with weeks.
   */
  lemma OptionsNarrow(lifeUnit: string)
    ensures |GetTimeUnitOptions(lifeUnit)| <= 3
    ensures GetTimeUnitOptions(lifeUnit) ==
              GetTimeUnitOptions("life")[3 - |GetTimeUnitOptions(lifeUnit)|..]
    ensures GetTimeUnitOptions(lifeUnit) != [] ==>
              GetTimeUnitOptions(lifeUnit)[|GetTimeUnitOptions(lifeUnit)| - 1] == Weeks
  {
  }

  /** A coarser span is offered every option a finer span is. */
  lemma OptionsMonotone(coarse: LifeUnit, fine: LifeUnit)
    requires LifeRank(coarse) <= LifeRank(fine)
    ensures forall t :: t in GetTimeUnitOptions(LifeUnitName(fine)) ==> t in GetTimeUnitOptions(LifeUnitName(coarse))
  {
  }
}
