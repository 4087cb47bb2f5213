/** The per-entry money rules: the catering allowance as a step function of
    the whole hours spent, and the travel money as kilometres times the
    per-kilometre rate. */
module Allowance {

  /** More hours than this earn the small (partial-day) allowance. */
  const PartialDayHours: nat := 8
  /** This many hours or more earn the big (full-day) allowance. */
  const FullDayHours: nat := 24

  /** Catering allowance for a day of `hours` whole hours. */
  function CateringMoney(hours: nat, smallCateringMoney: nat, bigCateringMoney: nat): (money: nat)
    ensures money == 0 || money == smallCateringMoney || money == bigCateringMoney
  {
    if hours >= FullDayHours then bigCateringMoney
    else if hours > PartialDayHours then smallCateringMoney
    else 0
  }

  /** Travel money for `traveledKm` kilometres. */
  function TravelMoney(traveledKm: nat, centPerKm: nat): (money: nat)
    ensures money == 0 <==> traveledKm == 0 || centPerKm == 0
  {
    traveledKm * centPerKm
  }

  /** The allowance is one of three amounts, chosen by the band the hours fall
      in: up to 8 hours nothing, 9 to 23 the small amount, 24 or more the big
      one. */
  lemma CateringBands(hours: nat, small: nat, big: nat)
    ensures hours <= 8 ==> CateringMoney(hours, small, big) == 0
    ensures 8 < hours < 24 ==> CateringMoney(hours, small, big) == small
    ensures hours >= 24 ==> CateringMoney(hours, small, big) == big
  {
  }

  /** At the band edges: exactly 8 hours earn nothing, exactly 24 the big
      amount. */
  lemma CateringBoundaries(small: nat, big: nat)
    ensures CateringMoney(8, small, big) == 0
    ensures CateringMoney(9, small, big) == small
    ensures CateringMoney(23, small, big) == small
    ensures CateringMoney(24, small, big) == big
  {
  }

  /** When the full-day amount is at least the partial-day amount, a longer
      day never earns less. */
  lemma CateringMonotone(h1: nat, h2: nat, small: nat, big: nat)
    requires h1 <= h2 && small <= big
    ensures CateringMoney(h1, small, big) <= CateringMoney(h2, small, big)
  {
  }

  /** No kilometres, no travel money, whatever the rate; and the money for two
      legs is the money for their total distance. */
  lemma TravelMoneyLinear(km1: nat, km2: nat, centPerKm: nat)
    ensures TravelMoney(0, centPerKm) == 0
    ensures TravelMoney(km1 + km2, centPerKm) == TravelMoney(km1, centPerKm) + TravelMoney(km2, centPerKm)
  {
  }
}
