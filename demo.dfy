/**
 * The sample wiring of index.ts: one course priced 5000, one ten-percent
 * coupon, and the coupon applied twice (once logged, once per HTTP request).
 */
module Demo {
  import opened Wrappers
  import opened Coupons
  import opened Courses
  import opened Services

  method TenPercentScenario() returns (first: ApplyResult, second: ApplyResult)
    ensures first == ApplyResult(true, None, 4500.0)
    ensures second == first
  {
    var course := Course("Testing-smartdev", 5000.0);
    var service := new CouponService();
    service.AddCoupon(Coupon("10PERCENT", None, Some(10.0)));
    first := service.ApplyCoupon(course, "10PERCENT");
    second := service.ApplyCoupon(course, "10PERCENT");
  }
}
