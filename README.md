# Coupon service — a Dafny model

This project models the coupon-discount calculator of a small TypeScript
repository. A `CouponService` keeps an ordered, append-only list of coupons.
`findCouponByCode` returns the first coupon whose code matches exactly.
`applyCoupon(course, code)` turns a course price and a coupon code into a
result record `{applied, reason?, finalPrice}`. A `Coupon` carries a code and
two nullable discounts: a fixed amount and a percentage. A set fixed amount
takes priority over the percentage.

Files:

- `wrappers.dfy`: `Option`, standing for JavaScript `null`/`undefined`.
- `course.dfy`: the `Course` record (name and price).
- `coupon.dfy`: the `Coupon` value (models/coupon.ts).
- `coupon_service.dfy`: the lookup `FindFirst`, the discount rule `Discount`,
  the result `Outcome`, and `Apply`, which is `applyCoupon` as a function of the
  list. It also holds the lemmas about them and the class `CouponService`,
  whose methods are proved against those functions.
- `demo.dfy`: the sample scenario of index.ts. A price of 5000 with coupon
  `("10PERCENT", null, 10)` gives `applied = true` and `finalPrice = 4500`, on
  both calls.

Amounts are exact `real`s, so `p / 100 * price` is computed without rounding.
Nothing rejects negative prices or amounts, percentages above 100, both
discounts set, or duplicate codes. No member requires any of these.

The model follows the code as written. In this version a percentage above 100 has no error of its own.
On a positive price it falls into the "discount exceeds price" branch. A
discount at or above the price gives `applied = false`, reason
`"Coupon discount exceeds course price"` and `finalPrice = 0`. The only reasons
are `"Coupon not found"`, `"Invalid coupon"` and that one. There is no
`message` field.

## Model

| member | source | states |
|---|---|---|
| Coupons.ConstructorStoresArguments | models/coupon.ts:6-10 | The constructor accepts any code and any pair of nullable discounts, with no validation, and stores each argument unchanged. As a property of the model's value type (not of the source's objects), two coupons are equal exactly when all three fields are. |
| Services.FindFirst | couponService.ts:40-42 | The lookup is absent exactly when no registered coupon has that code. When present, it is a registered coupon whose code equals the argument. |
| Services.FindFirstAt | couponService.ts:40-42 | If index i is the lowest index whose code matches, the lookup returns the coupon at i. With duplicate codes, the first one registered wins. |
| Services.FindFirstAppend | couponService.ts:12-14 | After appending coupon c, the lookup of a code already present is unchanged. Otherwise it is c when c carries that code, and absent when it does not. |
| Services.Discount | couponService.ts:22-30 | The discount is absent exactly when both discount fields are null. A set fixed amount is the discount whatever the percentage holds. The percentage rule p / 100 * price and the branches that use the discount are stated by ApplyFixedDiscount, ApplyPercentDiscount and ApplyInvalidCoupon. |
| Services.Apply | couponService.ts:16-38 | The reason is "Coupon not found" exactly when no registered coupon carries the code, and a successful application implies the code is registered. Its full behaviour is stated by ApplyNotFound, ApplySucceedsIff, ApplyAfterAdd and the per-branch lemmas. |
| Services.Outcome | couponService.ts:18-37 | In every branch, `applied` holds exactly when no reason is given. A success leaves a strictly positive final price. A refusal leaves the full price or 0. A refused 0 on a nonzero price carries the "exceeds course price" reason. |
| Services.ApplyNotFound | couponService.ts:17-20 | For a code that no coupon carries, the result is applied = false, reason "Coupon not found", finalPrice = course price. |
| Services.ApplyFixedDiscount | couponService.ts:24-37 | When the first matching coupon has a fixed amount d, the percentage is ignored. If d >= price, the result is applied = false, reason "Coupon discount exceeds course price", finalPrice 0. Otherwise it is applied = true, no reason, finalPrice = price - d. |
| Services.ApplyPercentDiscount | couponService.ts:26-37 | With no fixed amount and a percentage p, the discount is p / 100 * price. The same exceeds-or-success rule then applies. |
| Services.ApplyInvalidCoupon | couponService.ts:28-30 | When both discount fields are null, the result is applied = false, reason "Invalid coupon", finalPrice = course price. |
| Services.ApplyPercentAtLeastHundred | couponService.ts:26-34 | On a positive price, a percentage of 100 or more is refused as exceeding the price, with finalPrice 0. No separate percentage check exists. |
| Services.ApplySucceedsIff | couponService.ts:16-38 | applied = true holds exactly when the code's first coupon yields a discount below the price. The final price is then the price minus that discount. |
| Services.ApplyAfterAdd | couponService.ts:12-20 | After one more registration, the result for an already registered code is unchanged. For a new code it is decided by the new coupon, and every other code is still "Coupon not found". |
| Services.CouponService.constructor | couponService.ts:8-10 | A new service holds an empty coupon list. |
| Services.CouponService.AddCoupon | couponService.ts:12-14 | The new list is the old list followed by the coupon. Earlier entries and their order are unchanged. |
| Services.CouponService.FindCouponByCode | couponService.ts:40-42 | The linear scan returns the first coupon whose code matches, or absent, equal to `FindFirst` on the current list. |
| Services.CouponService.ApplyCoupon | couponService.ts:16-38 | Returns `Apply` of the current list, course and code. It has no `modifies` clause, so the list cannot change and repeated calls give the same result. |
| Demo.TenPercentScenario | index.ts:7-18 | Price 5000 with coupon ("10PERCENT", null, 10) gives applied = true, no reason, finalPrice 4500. A second call gives the same result. |

## Left out

- HTTP server, `console.log` and JSON serialisation in index.ts: these are I/O around one hardcoded call. Only the scenario's values are kept, in `Demo.TenPercentScenario`.
- Floating-point rounding of JavaScript `number`: amounts are exact reals. `p / 100 * price` is not rounded as IEEE doubles would round it, and NaN and infinities are not modelled.
- Concurrency around the coupon list: the code is single-threaded.
- models/course.ts is not part of this model. `Course` is a record whose `price` is the only field the service reads.
- JavaScript truthiness in `if (!coupon)`: a found coupon object is always truthy, so the test is modelled as "lookup absent".
- Shared mutable objects: in the source, coupon fields are public and writable, and `addCoupon` stores the caller's own object in a public array. A caller that later changes a coupon or the array changes later `applyCoupon` results. The model treats coupons and the list as immutable values, so this aliasing is not captured, and two coupons built from equal arguments are equal here, whereas the source's objects are distinct.
- String representation: the source compares codes with `===` over UTF-16 code units. A Dafny `string` is a sequence of Unicode scalar values, so codes containing lone surrogates cannot be represented.
