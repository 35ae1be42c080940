/** The discount table of the pricing model for one book series. */
module Pricing {

  /**
   The percentage taken off a grouping of `groupLength` distinct series
   books. The table matches lengths exactly: 2, 3, 4 and 5 books earn 5, 10,
   20 and 25 percent, and every other length, six or more included, earns
   nothing.
   */
  function DiscountPercentage(groupLength: nat): (pct: nat)
    ensures pct == 25 <==> groupLength == 5
    ensures pct == 20 <==> groupLength == 4
    ensures pct == 10 <==> groupLength == 3
    ensures pct == 5 <==> groupLength == 2
    ensures pct == 0 <==> groupLength < 2 || 5 < groupLength
    ensures pct <= 25
  {
    if groupLength == 5 then 25
    else if groupLength == 4 then 20
    else if groupLength == 3 then 10
    else if groupLength == 2 then 5
    else 0
  }
}
