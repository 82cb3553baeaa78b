/**
 * The catalogue side of the shop controller (shop.controller.ts): filtering, searching,
 * the category list and the trending products.  None of them changes a table.
 */
module ShopCatalog {
  import opened Wrappers
  import opened Tables
  import opened Entities
  import opened Http
  import opened Store
  import opened Catalog
  import opened Strings

  /**
   * filterProduct (shop.controller.ts:55-94): the products the query selects, in table
   * order; 404 when there is none.
   */
  method FilterProduct(db: Database, q: FilterQuery) returns (out: Outcome, rows: seq<Product>)
    ensures forall p :: p in rows <==> p in db.products && Selected(q, p)
    ensures out == Reply(404, "No product found !") <==> rows == []
    ensures out == Reply(404, "No product found !") || out == Reply(200, "")
  {
    var filter := BuildFilter(q);
    rows := Where(db.products, Matching(filter));
    if rows == [] {
      return Reply(404, "No product found !"), [];
    }
    out := Reply(200, "");
  }

  /** `s LIKE '%t%'`, taking every character of `t` literally. */
  function Contains(s: string, t: string): (r: bool)
    ensures r <==> Occurs(t, s)
    decreases |s|
  {
    if |t| > |s| then false
    else if s[..|t|] == t then
      assert OccursAt(t, s, 0);
      true
    else
      OccursShift(t, s);
      Contains(s[1..], t)
  }

  function TitleContains(t: string): Product -> bool { (p: Product) => Contains(p.title, t) }
  function InCategory(c: string): Product -> bool { (p: Product) => p.category == c }

  /**
   * searchProduct (shop.controller.ts:96-128).  A non-empty title selects the products
   * whose title contains it; otherwise the category selects by equality, and a missing
   * category is an `undefined` in the `where` clause, which the ORM refuses (500).
   */
  function SearchProduct(products: seq<Product>, title: Option<string>, category: Option<string>)
    : (r: Listing<Product>)
    ensures title.Some? && title.value != "" ==>
      forall p :: p in r.rows <==> p in products && Occurs(title.value, p.title)
    ensures (title.None? || title.value == "") && category.Some? ==>
      forall p :: p in r.rows <==> p in products && p.category == category.value
    ensures r.outcome == Forward(500) <==> (title.None? || title.value == "") && category.None?
    ensures r.outcome == Forward(500) || r.outcome == Reply(200, "") || r.outcome == Reply(404, "No product found")
    ensures r.outcome == Reply(404, "No product found") <==> r.outcome != Forward(500) && r.rows == []
  {
    var found :=
      if title.Some? && title.value != "" then Some(Where(products, TitleContains(title.value)))
      else if category.Some? then Some(Where(products, InCategory(category.value)))
      else None;
    match found
    case None => Listing(Forward(500), [])
    case Some(rows) =>
      if rows == [] then Listing(Reply(404, "No product found"), [])
      else Listing(Reply(200, ""), rows)
  }

  /** Searching for a product's own (non-empty) title finds it. */
  lemma SearchFindsOwnTitle(products: seq<Product>, p: Product, category: Option<string>)
    requires p in products && p.title != ""
    ensures p in SearchProduct(products, Some(p.title), category).rows
    ensures SearchProduct(products, Some(p.title), category).outcome == Reply(200, "")
  {
    assert OccursAt(p.title, p.title, 0);
  }

  /** The distinct categories of `products`, in the order they first appear. */
  function Categories(products: seq<Product>): (r: seq<string>)
    ensures forall c :: c in r <==> exists p :: p in products && p.category == c
    ensures forall i, j :: 0 <= i < j < |r| ==> r[i] != r[j]
    ensures |r| <= |products|
    decreases |products|
  {
    if products == [] then []
    else
      var init, last := products[..|products| - 1], products[|products| - 1];
      assert products == init + [last];
      var rest := Categories(init);
      if last.category in rest then rest else rest + [last.category]
  }

  /**
   * getCategoryList (shop.controller.ts:130-150): `GROUP BY category`; 404 when there is
   * no product at all.
   */
  function GetCategoryList(products: seq<Product>): (r: Listing<string>)
    ensures r.rows == Categories(products)
    ensures r.outcome == Reply(404, "No categories found") <==> products == []
    ensures r.outcome == Reply(404, "No categories found") || r.outcome == Reply(200, "")
  {
    var rows := Categories(products);
    assert products != [] ==> products[0] in products;
    if rows == [] then Listing(Reply(404, "No categories found"), [])
    else Listing(Reply(200, ""), rows)
  }

  /** The lowest rating a trending product has, and how many are listed. */
  const TRENDING_RATING: int := 4
  const TRENDING_LIMIT: nat := 10

  function Trending(): Product -> bool { (p: Product) => p.rating >= TRENDING_RATING }

  /** `ORDER BY updatedAt DESC` as an ascending key. */
  function NewestFirst(p: Product): int { -p.updatedAt }

  /**
   * getTrendingProducts (shop.controller.ts:152-173): at most ten products rated 4 or
   * more, newest first; a qualifying product is left out only when ten products at least
   * as new fill the list.  404 when no product qualifies.
   */
  function GetTrendingProducts(products: seq<Product>): (r: Listing<Product>)
    ensures |r.rows| <= TRENDING_LIMIT
    ensures forall p :: p in r.rows ==> p in products && p.rating >= TRENDING_RATING
    ensures multiset(r.rows) <= multiset(products)
    ensures forall i, j :: 0 <= i < j < |r.rows| ==> r.rows[i].updatedAt >= r.rows[j].updatedAt
    ensures forall p :: p in products && p.rating >= TRENDING_RATING && p !in r.rows ==>
      |r.rows| == TRENDING_LIMIT && forall x :: x in r.rows ==> x.updatedAt >= p.updatedAt
    ensures r.outcome == Reply(404, "No trending products found") <==> r.rows == []
    ensures r.outcome == Reply(404, "No trending products found") || r.outcome == Reply(200, "")
  {
    var qualifying := Where(products, Trending());
    var sorted := SortBy(qualifying, NewestFirst);
    var rows := Limit(sorted, TRENDING_LIMIT);
    LimitOfSorted(qualifying, sorted, NewestFirst, TRENDING_LIMIT);
    WhereSubMultiset(products, Trending());
    assert forall i, j :: 0 <= i < j < |rows| ==> NewestFirst(rows[i]) <= NewestFirst(rows[j]);
    if rows == [] then Listing(Reply(404, "No trending products found"), [])
    else Listing(Reply(200, ""), rows)
  }
}
