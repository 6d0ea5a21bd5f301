/**
 * The e-commerce access patterns of `EcommerceQueries` (src/queries.ts): each one picks a
 * key or key prefix, reads the table once, and shapes the rows it gets back. Absence is
 * reported as `None` (the source's `null`), never as an error.
 */
module Queries {
  import opened Wrappers
  import opened Text
  import opened Store

  /** A review as assembled from a product-to-review relationship row. */
  datatype Review = Review(
    reviewId: Value,
    customerId: string,
    productId: Value,
    rating: Value,
    comment: string,
    reviewDate: string)

  /** A category as assembled from a product-to-category relationship row. */
  datatype Category = Category(categoryId: Value, name: Value, description: string)

  datatype ProductWithRelationships = ProductWithRelationships(
    product: Document,
    reviews: seq<Review>,
    categories: seq<Category>)

  datatype OrderWithItems = OrderWithItems(order: Document, items: seq<Document>)

  /** The store refuses a query whose `Limit` is below 1. */
  datatype QueryError = LimitBelowOne

  // ---------------------------------------------------------------------------
  // Shaping helpers
  // ---------------------------------------------------------------------------

  /** `items.map(f)`. */
  function MapRows<T(==,!new)>(items: seq<Row>, f: Row -> T): (out: seq<T>)
    ensures |out| == |items| && forall i :: 0 <= i < |items| ==> out[i] == f(items[i])
    ensures forall v :: v in out <==> exists x :: x in items && f(x) == v
  {
    if items == [] then []
    else
      assert forall x :: x in items <==> x == items[0] || x in items[1..];
      [f(items[0])] + MapRows(items[1..], f)
  }

  /** `items.findIndex(item => item.Type === tag)`, as an option. */
  function FirstOfType(items: seq<Row>, tag: string): (r: Option<nat>)
    ensures r.None? <==> forall x :: x in items ==> x.Type != tag
    ensures r.Some? ==> r.value < |items| && items[r.value].Type == tag
    ensures r.Some? ==> forall j :: 0 <= j < r.value ==> items[j].Type != tag
  {
    if items == [] then None
    else if items[0].Type == tag then Some(0)
    else
      assert forall x :: x in items <==> x == items[0] || x in items[1..];
      match FirstOfType(items[1..], tag)
      case None => None
      case Some(i) => Some(i + 1)
  }

  function ReviewFromRelationship(item: Row): Review
  {
    Review(Field(item.Data, "reviewId"), "", Field(item.Data, "productId"), Field(item.Data, "rating"), "", "")
  }

  function CategoryFromRelationship(item: Row): Category
  {
    Category(Field(item.Data, "categoryId"), Field(item.Data, "categoryId"), "")
  }

  /**
   * Mapping a complete query: one result per matching row, and only results of matching rows,
   * result `i` made from the row with the `i`-th sort key.
   */
  lemma ProjectedQueryAll<T(!new)>(rows: seq<Row>, idx: Index, pk: string, prefix: string, f: Row -> T)
    ensures var out := MapRows(QueryAll(rows, idx, pk, prefix), f);
      && |out| == |Matching(rows, idx, pk, prefix)|
      && forall v :: v in out <==> exists x :: x in rows && Matches(x, idx, pk, prefix) && f(x) == v
    ensures var q := QueryAll(rows, idx, pk, prefix); var out := MapRows(q, f);
      && Ascending(q, idx)
      && |out| == |q| && forall i :: 0 <= i < |q| ==> out[i] == f(q[i])
  {
    QueryAllReads(rows, idx, pk, prefix);
  }

  /**
   * Mapping a query's page: only results of matching rows, one per row read, in the order read;
   * without a limit one per matching row, with one at most `limit`.
   */
  lemma ProjectedQuery<T(!new)>(rows: seq<Row>, idx: Index, pk: string, prefix: string, forward: bool, limit: Option<nat>, f: Row -> T)
    ensures var out := MapRows(Query(rows, idx, pk, prefix, forward, limit), f);
      forall v :: v in out ==> exists x :: x in rows && Matches(x, idx, pk, prefix) && f(x) == v
    ensures var q := Query(rows, idx, pk, prefix, forward, limit); var out := MapRows(q, f);
      && InOrder(q, idx, forward)
      && |out| == |q| && forall i :: 0 <= i < |q| ==> out[i] == f(q[i])
    ensures var out := MapRows(Query(rows, idx, pk, prefix, forward, limit), f);
      |out| == if limit.None? then |Matching(rows, idx, pk, prefix)| else Min(limit.value, |Matching(rows, idx, pk, prefix)|)
  {
    QueryReads(rows, idx, pk, prefix, forward, limit);
  }

  // ---------------------------------------------------------------------------
  // Access patterns
  // ---------------------------------------------------------------------------

  /** Query 1: the user entity, stored under PK = SK = `USER#<userId>`. */
  function GetUserDetails(rows: seq<Row>, userId: string): (user: Option<Document>)
    ensures user.None? <==> forall x :: x in rows ==> KeyOf(x) != Key("USER#" + userId, "USER#" + userId)
    ensures user.Some? ==> exists x :: x in rows && KeyOf(x) == Key("USER#" + userId, "USER#" + userId) && x.Data == user.value
  {
    match Get(rows, "USER#" + userId, "USER#" + userId)
    case None => None
    case Some(item) => Some(item.Data)
  }

  /** A user entity that has been put is found again by its id. */
  lemma UserDetailsAfterPut(rows: seq<Row>, userId: string, user: Row)
    requires user.PK == "USER#" + userId && user.SK == "USER#" + userId
    ensures GetUserDetails(PutRow(rows, user), userId) == Some(user.Data)
  {
    GetAfterPut(rows, user);
  }

  /** Query 2: the orders of a user, through GSI1 (`USER#<userId>`, `ORDER#...`). */
  function GetUserOrders(rows: seq<Row>, userId: string): (orders: seq<Document>)
    ensures |orders| == |Matching(rows, Gsi1, "USER#" + userId, "ORDER#")|
    ensures forall d :: d in orders <==>
      exists x :: x in rows && Matches(x, Gsi1, "USER#" + userId, "ORDER#") && x.Data == d
    ensures var q := QueryAll(rows, Gsi1, "USER#" + userId, "ORDER#");
      |orders| == |q| && forall i :: 0 <= i < |orders| ==> orders[i] == q[i].Data
  {
    ProjectedQueryAll(rows, Gsi1, "USER#" + userId, "ORDER#", (x: Row) => x.Data);
    MapRows(QueryAll(rows, Gsi1, "USER#" + userId, "ORDER#"), (x: Row) => x.Data)
  }

  /** Query 3: one scan of the product's partition, split by `Type`. */
  function GetProductWithRelationships(rows: seq<Row>, productId: string): (r: Option<ProductWithRelationships>)
    ensures r.None? <==> forall x :: x in rows && x.PK == "PRODUCT#" + productId ==> x.Type != "Product"
    ensures r.Some? ==> LeadData(rows, "PRODUCT#" + productId, "Product", r.value.product)
    ensures r.Some? ==> |r.value.reviews| == TypeCount(rows, "PRODUCT#" + productId, "ProductReview")
    ensures r.Some? ==> forall v :: v in r.value.reviews <==>
      MadeFrom(rows, "PRODUCT#" + productId, "ProductReview", ReviewFromRelationship, v)
    ensures r.Some? ==> |r.value.categories| == TypeCount(rows, "PRODUCT#" + productId, "ProductCategory")
    ensures r.Some? ==> forall v :: v in r.value.categories <==>
      MadeFrom(rows, "PRODUCT#" + productId, "ProductCategory", CategoryFromRelationship, v)
    ensures r.Some? ==> var q := OfType(QueryAll(rows, Primary, "PRODUCT#" + productId, ""), "ProductReview");
      && Ascending(q, Primary)
      && |r.value.reviews| == |q| && forall i :: 0 <= i < |q| ==> r.value.reviews[i] == ReviewFromRelationship(q[i])
    ensures r.Some? ==> var q := OfType(QueryAll(rows, Primary, "PRODUCT#" + productId, ""), "ProductCategory");
      && Ascending(q, Primary)
      && |r.value.categories| == |q| && forall i :: 0 <= i < |q| ==> r.value.categories[i] == CategoryFromRelationship(q[i])
  {
    var pk := "PRODUCT#" + productId;
    match LeadOfType(rows, pk, "Product")
    case None => None
    case Some(product) =>
      Some(ProductWithRelationships(
        product,
        TypedItems(rows, pk, "ProductReview", ReviewFromRelationship),
        TypedItems(rows, pk, "ProductCategory", CategoryFromRelationship)))
  }

  /** `v` is what `f` makes of some row of type `tag` in partition `pk`. */
  ghost predicate MadeFrom<T>(rows: seq<Row>, pk: string, tag: string, f: Row -> T, v: T)
  {
    exists x :: x in rows && x.PK == pk && x.Type == tag && f(x) == v
  }

  /** `d` is the `Data` of a row of type `tag` in partition `pk` with the least sort key among them. */
  ghost predicate LeadData(rows: seq<Row>, pk: string, tag: string, d: Document)
  {
    exists x :: LeastOfType(rows, pk, tag, x) && x.Data == d
  }

  /** In an ascending whole-partition scan, the first row of a type has the least sort key of that type. */
  lemma FirstIsLeast(rows: seq<Row>, pk: string, tag: string, i: nat)
    requires FirstOfType(QueryAll(rows, Primary, pk, ""), tag) == Some(i)
    ensures LeastOfType(rows, pk, tag, QueryAll(rows, Primary, pk, "")[i])
  {
    var items := QueryAll(rows, Primary, pk, "");
    QueryAllReads(rows, Primary, pk, "");
    assert forall x :: Matches(x, Primary, pk, "") <==> x.PK == pk;
    assert items[i] in items;
    forall y | y in rows && y.PK == pk && y.Type == tag
      ensures Below(items[i].SK, y.SK)
    {
      assert y in items;
      var j :| 0 <= j < |items| && items[j] == y;
      if j == i {
        BelowReflexive(y.SK);
      } else {
        assert i < j;
      }
    }
  }

  /** How many rows of partition `pk` have type `tag`. */
  function TypeCount(rows: seq<Row>, pk: string, tag: string): nat
  {
    if rows == [] then 0
    else (if rows[0].PK == pk && rows[0].Type == tag then 1 else 0) + TypeCount(rows[1..], pk, tag)
  }

  lemma OfTypeCons(x: Row, s: seq<Row>, tag: string)
    ensures OfType([x] + s, tag) == (if x.Type == tag then [x] else []) + OfType(s, tag)
  {
    assert ([x] + s)[1..] == s;
  }

  /** Counting the rows of one type in a partition agrees with filtering the partition by type. */
  lemma {:induction false} TypeCountFiltered(rows: seq<Row>, pk: string, tag: string)
    ensures TypeCount(rows, pk, tag) == |OfType(Matching(rows, Primary, pk, ""), tag)|
  {
    if rows != [] {
      var rest := Matching(rows[1..], Primary, pk, "");
      TypeCountFiltered(rows[1..], pk, tag);
      if rows[0].PK == pk {
        assert Matches(rows[0], Primary, pk, "");
        assert Matching(rows, Primary, pk, "") == [rows[0]] + rest;
        OfTypeCons(rows[0], rest, tag);
      } else {
        assert !Matches(rows[0], Primary, pk, "");
        assert Matching(rows, Primary, pk, "") == rest;
      }
    }
  }


  /**
   * The rows of one `Type` in a whole-partition scan, mapped by `f`, in scan order: one
   * result per such row, and only those.
   */
  function TypedItems<T(==,!new)>(rows: seq<Row>, pk: string, tag: string, f: Row -> T): (out: seq<T>)
    ensures |out| == TypeCount(rows, pk, tag)
    ensures forall v :: v in out <==> MadeFrom(rows, pk, tag, f, v)
    ensures var q := OfType(QueryAll(rows, Primary, pk, ""), tag);
      && Ascending(q, Primary)
      && |out| == |q| && forall i :: 0 <= i < |q| ==> out[i] == f(q[i])
  {
    var q := QueryAll(rows, Primary, pk, "");
    var hits := Matching(rows, Primary, pk, "");
    QueryAllReads(rows, Primary, pk, "");
    assert multiset(OfType(q, tag)) == multiset(OfType(hits, tag)) by {
      forall x ensures multiset(OfType(q, tag))[x] == multiset(OfType(hits, tag))[x] {
      }
    }
    assert |OfType(q, tag)| == |multiset(OfType(q, tag))|;
    assert |OfType(hits, tag)| == |multiset(OfType(hits, tag))|;
    assert forall x :: Matches(x, Primary, pk, "") <==> x.PK == pk;
    TypeCountFiltered(rows, pk, tag);
    OfTypeAscending(q, tag, Primary);
    MapRows(OfType(q, tag), f)
  }

  /** `x` is a row of type `tag` in partition `pk` whose sort key is the least among such rows. */
  predicate LeastOfType(rows: seq<Row>, pk: string, tag: string, x: Row)
  {
    && x in rows && x.PK == pk && x.Type == tag
    && forall y :: y in rows && y.PK == pk && y.Type == tag ==> Below(x.SK, y.SK)
  }

  /**
   * The `Data` of the first row of type `tag` in a whole-partition scan: present exactly when
   * the partition holds such a row, and taken from the one with the least sort key.
   */
  function LeadOfType(rows: seq<Row>, pk: string, tag: string): (d: Option<Document>)
    ensures d.None? <==> forall x :: x in rows && x.PK == pk ==> x.Type != tag
    ensures d.Some? ==> LeadData(rows, pk, tag, d.value)
  {
    var items := QueryAll(rows, Primary, pk, "");
    QueryAllReads(rows, Primary, pk, "");
    assert forall x :: Matches(x, Primary, pk, "") <==> x.PK == pk;
    match FirstOfType(items, tag)
    case None => None
    case Some(i) =>
      FirstIsLeast(rows, pk, tag, i);
      Some(items[i].Data)
  }

  /** Query 4: the most recent reviews of a product, read backwards, at most `limit` of them. */
  function GetProductReviews(rows: seq<Row>, productId: string, limit: int := 10): (r: Result<seq<Review>, QueryError>)
    ensures r.Failure? <==> limit < 1
    ensures r.Success? ==> |r.value| == Min(limit, |Matching(rows, Primary, "PRODUCT#" + productId, "REVIEW#")|)
    ensures r.Success? ==> forall v :: v in r.value ==>
      exists x :: x in rows && Matches(x, Primary, "PRODUCT#" + productId, "REVIEW#") && ReviewFromRelationship(x) == v
    ensures r.Success? ==> var q := Query(rows, Primary, "PRODUCT#" + productId, "REVIEW#", false, Some(limit));
      && Descending(q, Primary)
      && forall i :: 0 <= i < |r.value| ==> r.value[i] == ReviewFromRelationship(q[i])
  {
    if limit < 1 then Failure(LimitBelowOne)
    else
      QueryReads(rows, Primary, "PRODUCT#" + productId, "REVIEW#", false, Some(limit));
      ProjectedQuery(rows, Primary, "PRODUCT#" + productId, "REVIEW#", false, Some(limit), ReviewFromRelationship);
      Success(MapRows(Query(rows, Primary, "PRODUCT#" + productId, "REVIEW#", false, Some(limit)), ReviewFromRelationship))
  }

  /**
   * Reviews and categories assembled from relationship rows carry only what the relationship
   * row holds: no customer, comment or date, and a category named by its id.
   */
  lemma RelationshipShapes(rows: seq<Row>, productId: string, limit: int)
    ensures var r := GetProductWithRelationships(rows, productId);
      r.Some? ==>
        && (forall v :: v in r.value.reviews ==> v.customerId == "" && v.comment == "" && v.reviewDate == "")
        && (forall c :: c in r.value.categories ==> c.name == c.categoryId && c.description == "")
    ensures var r := GetProductReviews(rows, productId, limit);
      r.Success? ==> forall v :: v in r.value ==> v.customerId == "" && v.comment == "" && v.reviewDate == ""
  {
    var r := GetProductWithRelationships(rows, productId);
    if r.Some? {
      var pk := "PRODUCT#" + productId;
      forall v | v in r.value.reviews
        ensures v.customerId == "" && v.comment == "" && v.reviewDate == ""
      {
        assert MadeFrom(rows, pk, "ProductReview", ReviewFromRelationship, v);
      }
      forall c | c in r.value.categories
        ensures c.name == c.categoryId && c.description == ""
      {
        assert MadeFrom(rows, pk, "ProductCategory", CategoryFromRelationship, c);
      }
    }
  }

  /** Query 5: the ids of the products in a category, through GSI1 (`CATEGORY#<id>`, `PRODUCT#...`). */
  function GetProductsInCategory(rows: seq<Row>, categoryId: string): (productIds: seq<Value>)
    ensures |productIds| == |Matching(rows, Gsi1, "CATEGORY#" + categoryId, "PRODUCT#")|
    ensures forall v :: v in productIds <==>
      exists x :: x in rows && Matches(x, Gsi1, "CATEGORY#" + categoryId, "PRODUCT#") && Field(x.Data, "productId") == v
    ensures var q := QueryAll(rows, Gsi1, "CATEGORY#" + categoryId, "PRODUCT#");
      |productIds| == |q| && forall i :: 0 <= i < |productIds| ==> productIds[i] == Field(q[i].Data, "productId")
  {
    ProjectedQueryAll(rows, Gsi1, "CATEGORY#" + categoryId, "PRODUCT#", (x: Row) => Field(x.Data, "productId"));
    MapRows(QueryAll(rows, Gsi1, "CATEGORY#" + categoryId, "PRODUCT#"), (x: Row) => Field(x.Data, "productId"))
  }

  /** Query 6: one scan of the order's partition: the order entity and its item rows. */
  function GetOrderWithItems(rows: seq<Row>, orderId: string): (r: Option<OrderWithItems>)
    ensures r.None? <==> forall x :: x in rows && x.PK == "ORDER#" + orderId ==> x.Type != "Order"
    ensures r.Some? ==> LeadData(rows, "ORDER#" + orderId, "Order", r.value.order)
    ensures r.Some? ==> |r.value.items| == TypeCount(rows, "ORDER#" + orderId, "OrderItem")
    ensures r.Some? ==> forall d :: d in r.value.items <==>
      MadeFrom(rows, "ORDER#" + orderId, "OrderItem", (x: Row) => x.Data, d)
    ensures r.Some? ==> var q := OfType(QueryAll(rows, Primary, "ORDER#" + orderId, ""), "OrderItem");
      && Ascending(q, Primary)
      && |r.value.items| == |q| && forall i :: 0 <= i < |q| ==> r.value.items[i] == q[i].Data
  {
    var pk := "ORDER#" + orderId;
    match LeadOfType(rows, pk, "Order")
    case None => None
    case Some(order) => Some(OrderWithItems(order, TypedItems(rows, pk, "OrderItem", (x: Row) => x.Data)))
  }

  /** The ids of the reviews a user wrote (`USER#<id>`, `REVIEW#...`). */
  function GetUserReviews(rows: seq<Row>, userId: string): (reviewIds: seq<Value>)
    ensures |reviewIds| == |Matching(rows, Primary, "USER#" + userId, "REVIEW#")|
    ensures forall v :: v in reviewIds <==>
      exists x :: x in rows && Matches(x, Primary, "USER#" + userId, "REVIEW#") && Field(x.Data, "reviewId") == v
    ensures var q := QueryAll(rows, Primary, "USER#" + userId, "REVIEW#");
      |reviewIds| == |q| && forall i :: 0 <= i < |q| ==> reviewIds[i] == Field(q[i].Data, "reviewId")
  {
    ProjectedQueryAll(rows, Primary, "USER#" + userId, "REVIEW#", (x: Row) => Field(x.Data, "reviewId"));
    MapRows(QueryAll(rows, Primary, "USER#" + userId, "REVIEW#"), (x: Row) => Field(x.Data, "reviewId"))
  }

  /** The ids of the orders that contain a product, through GSI1 (`PRODUCT#<id>`, `ORDER#...`). */
  function GetOrdersForProduct(rows: seq<Row>, productId: string): (orderIds: seq<Value>)
    ensures |orderIds| == |Matching(rows, Gsi1, "PRODUCT#" + productId, "ORDER#")|
    ensures forall v :: v in orderIds <==>
      exists x :: x in rows && Matches(x, Gsi1, "PRODUCT#" + productId, "ORDER#") && Field(x.Data, "orderId") == v
    ensures var q := QueryAll(rows, Gsi1, "PRODUCT#" + productId, "ORDER#");
      |orderIds| == |q| && forall i :: 0 <= i < |orderIds| ==> orderIds[i] == Field(q[i].Data, "orderId")
  {
    ProjectedQueryAll(rows, Gsi1, "PRODUCT#" + productId, "ORDER#", (x: Row) => Field(x.Data, "orderId"));
    MapRows(QueryAll(rows, Gsi1, "PRODUCT#" + productId, "ORDER#"), (x: Row) => Field(x.Data, "orderId"))
  }
}
