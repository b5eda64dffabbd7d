/** The "next visit 10% off" badge of the customer list (app/page.js:137, 153). */
module Discount {

  /** The card shows the discount badge when the coming visit is a multiple of ten. */
  predicate IsNextDiscount(visitCount: nat)
  {
    (visitCount + 1) % 10 == 0
  }

  /** The badge shows exactly for the counts 9, 19, 29, …: the next visit is a tenth one. */
  lemma NextDiscountIff(visitCount: nat)
    ensures IsNextDiscount(visitCount) <==> visitCount % 10 == 9
    ensures IsNextDiscount(visitCount) <==> visitCount == 10 * (visitCount / 10) + 9
  {
  }

  /** Every count of the form 10k + 9 shows the badge. */
  lemma {:induction false} DiscountEveryTenth(k: nat)
    ensures IsNextDiscount(10 * k + 9)
    ensures forall j :: 10 * k + 9 < j < 10 * k + 19 ==> !IsNextDiscount(j)
  {
    assert (10 * k + 9 + 1) % 10 == ((k + 1) * 10) % 10;
    forall j | 10 * k + 9 < j < 10 * k + 19
      ensures !IsNextDiscount(j)
    {
      var d := j - (10 * k + 10);
      assert 0 <= d < 9;
      assert j + 1 == (k + 1) * 10 + (d + 1);
    }
  }
}
