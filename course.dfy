/**
 * The priced item a coupon discounts. Its defining file, models/course.ts, is
 * not part of this model: the service only ever reads `price`, and the record
 * is taken to carry a display name beside it.
 */
module Courses {
  datatype Course = Course(name: string, price: real)
}
