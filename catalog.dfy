/**
 * The product filter that the shop and the admin controllers both build from a request's
 * query string (shop.controller.ts filterProduct, admin.controller.ts filterProduct), and
 * the answer of a handler that lists rows.
 */
module Catalog {
  import opened Wrappers
  import opened Entities
  import opened Http

  /** A listing handler's outcome and the rows its JSON body carries. */
  datatype Listing<T> = Listing(outcome: Outcome, rows: seq<T>)

  /** The query string of a filter request; absent parameters are None. */
  datatype FilterQuery = FilterQuery(category: Option<string>, maxPrice: Option<int>,
                                     minPrice: Option<int>, rating: Option<int>,
                                     discount: Option<int>)

  /** The `filter` object the handlers build: one optional condition per column. */
  datatype Filter = Filter(category: Option<string>, rating: Option<int>,
                           price: Option<(int, int)>, discount: Option<int>)

  /** `[Op.and]: [filter]`: every present condition holds; `Op.between` is inclusive. */
  predicate Satisfies(f: Filter, p: Product) {
    (f.category.Some? ==> p.category == f.category.value) &&
    (f.rating.Some? ==> p.rating == f.rating.value) &&
    (f.price.Some? ==> f.price.value.0 <= p.price <= f.price.value.1) &&
    (f.discount.Some? ==> p.discount == f.discount.value)
  }

  /** The filter as a `where` clause. */
  function Matching(f: Filter): Product -> bool { (p: Product) => Satisfies(f, p) }

  /** The filter as an admin's `where` clause: the filter and `userId` both hold. */
  function MatchingOwned(f: Filter, userId: int): Product -> bool {
    (p: Product) => Satisfies(f, p) && p.userId == userId
  }

  /** What a query asks of a product, stated on the query itself: rating and discount are
      compared for equality, not as thresholds, and a price bound alone is ignored. */
  ghost predicate Selected(q: FilterQuery, p: Product) {
    (q.category.Some? && q.category.value != "" ==> p.category == q.category.value) &&
    (q.rating.Some? ==> p.rating == q.rating.value) &&
    (q.minPrice.Some? && q.maxPrice.Some? ==> q.minPrice.value <= p.price <= q.maxPrice.value) &&
    (q.discount.Some? ==> p.discount == q.discount.value)
  }

  /**
   * The `filter` object, built field by field as both handlers do: the category only when
   * it is a non-empty string (JavaScript truthiness), rating and discount whenever they are
   * present, and the price range only when both bounds are present.  A product passes the
   * built filter exactly when the query selects it.
   */
  method BuildFilter(q: FilterQuery) returns (f: Filter)
    ensures forall p :: Satisfies(f, p) <==> Selected(q, p)
    ensures f.category.Some? <==> q.category.Some? && q.category.value != ""
    ensures f.price.Some? <==> q.minPrice.Some? && q.maxPrice.Some?
  {
    f := Filter(None, None, None, None);
    if q.category.Some? && q.category.value != "" {
      f := f.(category := q.category);
    }
    if q.rating.Some? {
      f := f.(rating := q.rating);
    }
    if q.minPrice.Some? && q.maxPrice.Some? {
      f := f.(price := Some((q.minPrice.value, q.maxPrice.value)));
    }
    if q.discount.Some? {
      f := f.(discount := q.discount);
    }
  }
}
