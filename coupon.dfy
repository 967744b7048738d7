/**
 * A coupon (models/coupon.ts): a code plus two nullable discount fields, all
 * three assigned once by the constructor and never updated by this program. There is no
 * validation: both discounts may be set, both may be null, and negative
 * amounts or percentages above 100 are representable.
 */
module Coupons {
  import opened Wrappers

  /** `None` stands for JavaScript `null` in either discount field. */
  datatype Coupon = Coupon(
    code: string,
    discountPriceAmount: Option<real>,
    discountPercentAmount: Option<real>)

  /**
   * The constructor accepts every combination of arguments and stores each one
   * unchanged, so nothing passed in is normalised or dropped. (That two
   * coupons are equal exactly when their three fields are is a property of
   * this value type, not of the source's objects, which compare by identity.)
   */
  lemma ConstructorStoresArguments(code: string, priceAmount: Option<real>, percentAmount: Option<real>)
    ensures var c := Coupon(code, priceAmount, percentAmount);
      c.code == code && c.discountPriceAmount == priceAmount && c.discountPercentAmount == percentAmount
    ensures forall other: Coupon ::
      other == Coupon(code, priceAmount, percentAmount) <==>
        other.code == code && other.discountPriceAmount == priceAmount && other.discountPercentAmount == percentAmount
  {
  }
}
