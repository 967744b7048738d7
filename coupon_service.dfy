/**
 * The coupon service (couponService.ts): an append-only, ordered list of
 * coupons, a first-match lookup by code, and the application of a coupon to a
 * course price. The lookup and the application only read the list, so they are
 * specified by the functions `FindFirst` and `Apply` over the list; the class
 * `CouponService` holds the list itself.
 */
module Services {
  import opened Wrappers
  import opened Coupons
  import opened Courses

  const NotFoundReason := "Coupon not found"
  const InvalidReason := "Invalid coupon"
  const ExceedsReason := "Coupon discount exceeds course price"

  /** The record `{applied, reason?, finalPrice}` returned by `applyCoupon`. */
  datatype ApplyResult = ApplyResult(applied: bool, reason: Option<string>, finalPrice: real)

  /** Index `i` holds the earliest coupon registered under `code`. */
  ghost predicate IsFirstMatch(coupons: seq<Coupon>, code: string, i: int)
  {
    0 <= i < |coupons| && coupons[i].code == code &&
    forall j :: 0 <= j < i ==> coupons[j].code != code
  }

  /** The coupon that `Array.prototype.find` returns for an exact code match. */
  function FindFirst(coupons: seq<Coupon>, code: string): (r: Option<Coupon>)
    ensures r.None? <==> forall i :: 0 <= i < |coupons| ==> coupons[i].code != code
    ensures r.Some? ==> r.value in coupons && r.value.code == code
  {
    if |coupons| == 0 then None
    else if coupons[0].code == code then Some(coupons[0])
    else
      var r := FindFirst(coupons[1..], code);
      assert forall i :: 1 <= i < |coupons| ==> coupons[i] == coupons[1..][i - 1];
      r
  }

  /** The lookup returns exactly the coupon at the earliest matching index. */
  lemma {:induction false} FindFirstAt(coupons: seq<Coupon>, code: string, i: int)
    requires IsFirstMatch(coupons, code, i)
    ensures FindFirst(coupons, code) == Some(coupons[i])
  {
    if i > 0 {
      assert IsFirstMatch(coupons[1..], code, i - 1);
      FindFirstAt(coupons[1..], code, i - 1);
    }
  }

  /**
   * Appending a coupon never changes the result for a code that was already
   * registered (the first registration wins), and makes the new coupon the
   * result for its code when that code was not registered before.
   */
  lemma {:induction false} FindFirstAppend(coupons: seq<Coupon>, c: Coupon, code: string)
    ensures FindFirst(coupons + [c], code) ==
      if FindFirst(coupons, code).Some? then FindFirst(coupons, code)
      else if c.code == code then Some(c)
      else None
  {
    if |coupons| > 0 {
      assert (coupons + [c])[1..] == coupons[1..] + [c];
      if coupons[0].code != code {
        FindFirstAppend(coupons[1..], c, code);
      }
    }
  }

  /**
   * The discount a found coupon grants on `price` (couponService.ts lines
   * 22-30): the fixed amount when it is set, else the percentage of the price,
   * else no discount at all (`None`, an invalid coupon).
   */
  function Discount(coupon: Coupon, price: real): (r: Option<real>)
    ensures r.None? <==> coupon.discountPriceAmount.None? && coupon.discountPercentAmount.None?
    ensures coupon.discountPriceAmount.Some? ==> r == coupon.discountPriceAmount
  {
    match coupon.discountPriceAmount
    case Some(amount) => Some(amount)
    case None =>
      match coupon.discountPercentAmount
      case Some(percent) => Some((percent / 100.0) * price)
      case None => None
  }

  /**
   * What `applyCoupon` returns once the lookup has produced `found`. Whatever
   * the branch, `applied` holds exactly when no reason is given, a successful
   * application leaves a strictly positive price, and a refused one leaves
   * either the full price or zero.
   */
  function Outcome(found: Option<Coupon>, course: Course): (r: ApplyResult)
    ensures r.applied <==> r.reason.None?
    ensures r.applied ==> 0.0 < r.finalPrice
    ensures !r.applied ==> r.finalPrice == course.price || r.finalPrice == 0.0
    ensures r.finalPrice == 0.0 && !r.applied && course.price != 0.0 ==> r.reason == Some(ExceedsReason)
  {
    match found
    case None => ApplyResult(false, Some(NotFoundReason), course.price)
    case Some(coupon) =>
      match Discount(coupon, course.price)
      case None => ApplyResult(false, Some(InvalidReason), course.price)
      case Some(discount) =>
        if discount >= course.price then ApplyResult(false, Some(ExceedsReason), 0.0)
        else ApplyResult(true, None, course.price - discount)
  }

  /** `applyCoupon(course, code)` as a function of the registered coupons. */
  function Apply(coupons: seq<Coupon>, course: Course, code: string): (r: ApplyResult)
    ensures r.reason == Some(NotFoundReason) <==> forall i :: 0 <= i < |coupons| ==> coupons[i].code != code
    ensures r.applied ==> exists i :: 0 <= i < |coupons| && coupons[i].code == code
  {
    Outcome(FindFirst(coupons, code), course)
  }

  /** An unregistered code is refused and the price is left as it is. */
  lemma ApplyNotFound(coupons: seq<Coupon>, course: Course, code: string)
    requires forall i :: 0 <= i < |coupons| ==> coupons[i].code != code
    ensures Apply(coupons, course, code) == ApplyResult(false, Some(NotFoundReason), course.price)
  {
  }

  /**
   * A set fixed amount `d` is the discount, whatever the percentage field
   * holds: the coupon succeeds with `price - d` when `d` is below the price and
   * is refused with a zero price otherwise.
   */
  lemma ApplyFixedDiscount(coupons: seq<Coupon>, course: Course, code: string, i: int)
    requires IsFirstMatch(coupons, code, i)
    requires coupons[i].discountPriceAmount.Some?
    ensures var d := coupons[i].discountPriceAmount.value;
      Apply(coupons, course, code) ==
        if d >= course.price then ApplyResult(false, Some(ExceedsReason), 0.0)
        else ApplyResult(true, None, course.price - d)
  {
    FindFirstAt(coupons, code, i);
  }

  /**
   * Without a fixed amount, a set percentage `p` gives the discount
   * `p / 100 * price`, with the same success and refusal rule.
   */
  lemma ApplyPercentDiscount(coupons: seq<Coupon>, course: Course, code: string, i: int)
    requires IsFirstMatch(coupons, code, i)
    requires coupons[i].discountPriceAmount.None? && coupons[i].discountPercentAmount.Some?
    ensures var d := (coupons[i].discountPercentAmount.value / 100.0) * course.price;
      Apply(coupons, course, code) ==
        if d >= course.price then ApplyResult(false, Some(ExceedsReason), 0.0)
        else ApplyResult(true, None, course.price - d)
  {
    FindFirstAt(coupons, code, i);
    assert Discount(coupons[i], course.price).value ==
      (coupons[i].discountPercentAmount.value / 100.0) * course.price;
  }

  /** A coupon with neither discount set is refused and the price is kept. */
  lemma ApplyInvalidCoupon(coupons: seq<Coupon>, course: Course, code: string, i: int)
    requires IsFirstMatch(coupons, code, i)
    requires coupons[i].discountPriceAmount.None? && coupons[i].discountPercentAmount.None?
    ensures Apply(coupons, course, code) == ApplyResult(false, Some(InvalidReason), course.price)
  {
    FindFirstAt(coupons, code, i);
  }

  /**
   * There is no separate check on percentages: on a positive price, any
   * percentage of 100 or more lands in the "exceeds course price" branch.
   */
  lemma ApplyPercentAtLeastHundred(coupons: seq<Coupon>, course: Course, code: string, i: int)
    requires IsFirstMatch(coupons, code, i)
    requires coupons[i].discountPriceAmount.None? && coupons[i].discountPercentAmount.Some?
    requires coupons[i].discountPercentAmount.value >= 100.0 && course.price > 0.0
    ensures Apply(coupons, course, code) == ApplyResult(false, Some(ExceedsReason), 0.0)
  {
    var p := coupons[i].discountPercentAmount.value;
    assert (p / 100.0) * course.price >= course.price by {
      assert p / 100.0 >= 1.0;
    }
    ApplyPercentDiscount(coupons, course, code, i);
  }

  /**
   * `applied` is true exactly when the code is registered, its first coupon
   * yields a discount, and that discount is below the price; the final price is
   * then the price minus the discount.
   */
  lemma ApplySucceedsIff(coupons: seq<Coupon>, course: Course, code: string)
    ensures Apply(coupons, course, code).applied <==>
      exists i :: IsFirstMatch(coupons, code, i) &&
        Discount(coupons[i], course.price).Some? && Discount(coupons[i], course.price).value < course.price
    ensures forall i :: IsFirstMatch(coupons, code, i) && Apply(coupons, course, code).applied ==>
      Apply(coupons, course, code).finalPrice == course.price - Discount(coupons[i], course.price).value
  {
    var r := Apply(coupons, course, code);
    if r.applied {
      var k :| 0 <= k < |coupons| && coupons[k].code == code;
      var i := FirstIndex(coupons, code, k);
      FindFirstAt(coupons, code, i);
    }
    forall i | IsFirstMatch(coupons, code, i)
      ensures FindFirst(coupons, code) == Some(coupons[i])
    {
      FindFirstAt(coupons, code, i);
    }
  }

  /** Some matching index below or at `k` is the earliest one. */
  lemma {:induction false} FirstIndex(coupons: seq<Coupon>, code: string, k: int) returns (i: int)
    requires 0 <= k < |coupons| && coupons[k].code == code
    ensures i <= k && IsFirstMatch(coupons, code, i)
    decreases k
  {
    if forall j :: 0 <= j < k ==> coupons[j].code != code {
      i := k;
    } else {
      var j :| 0 <= j < k && coupons[j].code == code;
      i := FirstIndex(coupons, code, j);
    }
  }

  /**
   * Registering one more coupon leaves every earlier result unchanged when the
   * code was already registered; otherwise the new coupon decides the result
   * for its own code and every other code stays "not found".
   */
  lemma ApplyAfterAdd(coupons: seq<Coupon>, c: Coupon, course: Course, code: string)
    ensures Apply(coupons + [c], course, code) ==
      if exists i :: 0 <= i < |coupons| && coupons[i].code == code then Apply(coupons, course, code)
      else if c.code == code then Outcome(Some(c), course)
      else ApplyResult(false, Some(NotFoundReason), course.price)
  {
    FindFirstAppend(coupons, c, code);
  }

  /** The service object; `coupons` is the list that `addCoupon` appends to. */
  class CouponService {
    var coupons: seq<Coupon>

    /** A new service holds no coupons. */
    constructor ()
      ensures coupons == []
    {
      coupons := [];
    }

    /** Appends at the end; earlier entries keep their values and order. */
    method AddCoupon(coupon: Coupon)
      modifies this
      ensures coupons == old(coupons) + [coupon]
    {
      coupons := coupons + [coupon];
    }

    /**
     * The linear scan behind `find`: the earliest coupon whose code equals
     * `code` exactly, or `None` when there is none.
     */
    method FindCouponByCode(code: string) returns (r: Option<Coupon>)
      ensures r == FindFirst(coupons, code)
    {
      var i := 0;
      while i < |coupons|
        invariant 0 <= i <= |coupons|
        invariant forall j :: 0 <= j < i ==> coupons[j].code != code
      {
        if coupons[i].code == code {
          FindFirstAt(coupons, code, i);
          return Some(coupons[i]);
        }
        i := i + 1;
      }
      r := None;
    }

    /**
     * Looks the code up and applies the coupon it finds to the course price.
     * It changes nothing (no `modifies`), so repeated calls with the same
     * arguments return the same result.
     */
    method ApplyCoupon(course: Course, couponCode: string) returns (r: ApplyResult)
      ensures r == Apply(coupons, course, couponCode)
    {
      var coupon := FindCouponByCode(couponCode);
      r := Outcome(coupon, course);
    }
  }
}
