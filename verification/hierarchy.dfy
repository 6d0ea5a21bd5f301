/**
 * Nested categories as an adjacency list (`HierarchicalDataExample`,
 * src/hierarchical-data.ts). Every category is an entity row; every category with a parent
 * also gets a parent-to-child row, stored in the parent's partition and projected into GSI1
 * under the child, so the child's parent is found by one GSI1 query.
 */
module Hierarchy {
  import opened Wrappers
  import opened Text
  import opened Store

  // ---------------------------------------------------------------------------
  // Building the hierarchy
  // ---------------------------------------------------------------------------

  /** One entry of the fixed category list; `None` is a `null` parent. */
  datatype CategorySpec = CategorySpec(id: string, name: string, parentId: Option<string>)

  /** The category list `createCategoryHierarchy` writes, in its order. */
  const SampleCategories: seq<CategorySpec> := [
    CategorySpec("electronics", "Electronics", None),
    CategorySpec("books", "Books", None),
    CategorySpec("computers", "Computers", Some("electronics")),
    CategorySpec("audio", "Audio & Video", Some("electronics")),
    CategorySpec("mobile", "Mobile Devices", Some("electronics")),
    CategorySpec("laptops", "Laptops", Some("computers")),
    CategorySpec("desktops", "Desktops", Some("computers")),
    CategorySpec("headphones", "Headphones", Some("audio")),
    CategorySpec("speakers", "Speakers", Some("audio")),
    CategorySpec("fiction", "Fiction", Some("books")),
    CategorySpec("technical", "Technical", Some("books"))
  ]

  /** `if (category.parentId)`: a null or empty parent id makes a root. */
  predicate HasParent(c: CategorySpec)
  {
    c.parentId.Some? && c.parentId.value != ""
  }

  /** The stored `parentId`: the input parent, `null` included. */
  function ParentValue(c: CategorySpec): Value
  {
    if c.parentId.Some? then Str(c.parentId.value) else Null
  }

  /** The category entity: PK = SK = `CATEGORY#<id>`. */
  function CategoryRow(c: CategorySpec, createdAt: string): (r: Row)
    ensures r.PK == r.SK && r.Type == "Category"
    ensures Field(r.Data, "parentId") == ParentValue(c) && Field(r.Data, "categoryId") == Str(c.id)
    ensures KeyIn(r, Gsi1).None?
  {
    Row("CATEGORY#" + c.id, "CATEGORY#" + c.id, "Category",
      map["categoryId" := Str(c.id), "name" := Str(c.name), "parentId" := ParentValue(c)],
      None, None, Some(createdAt), None)
  }

  /**
   * The parent-to-child row: stored under the parent (`CATEGORY#<parent>`, `CHILD#<id>`) and
   * projected into GSI1 under the child (`CATEGORY#<id>`, `PARENT#<parent>`).
   */
  function ChildRow(c: CategorySpec, createdAt: string): (r: Row)
    requires HasParent(c)
    ensures r.PK != r.SK && r.Type == "CategoryChild"
    ensures Field(r.Data, "parentCategoryId") == Str(c.parentId.value)
    ensures Field(r.Data, "childCategoryId") == Str(c.id)
  {
    var r := Row("CATEGORY#" + c.parentId.value, "CHILD#" + c.id, "CategoryChild",
      map["parentCategoryId" := Str(c.parentId.value), "childCategoryId" := Str(c.id), "childName" := Str(c.name)],
      Some("CATEGORY#" + c.id), Some("PARENT#" + c.parentId.value), Some(createdAt), None);
    assert r.PK[1] != r.SK[1];
    r
  }

  /** The rows one category writes, in write order. */
  function RowsFor(c: CategorySpec, createdAt: string): seq<Row>
  {
    if HasParent(c) then [CategoryRow(c, createdAt), ChildRow(c, createdAt)] else [CategoryRow(c, createdAt)]
  }

  /** All rows a list of categories writes, in write order. */
  function HierarchyRows(cs: seq<CategorySpec>, createdAt: string): seq<Row>
  {
    if cs == [] then [] else HierarchyRows(cs[..|cs| - 1], createdAt) + RowsFor(cs[|cs| - 1], createdAt)
  }

  lemma HierarchyRowsPrefix(cs: seq<CategorySpec>, i: nat, createdAt: string)
    requires i < |cs|
    ensures HierarchyRows(cs[..i + 1], createdAt) == HierarchyRows(cs[..i], createdAt) + RowsFor(cs[i], createdAt)
  {
    assert cs[..i + 1][..i] == cs[..i];
  }

  /** The body of the loop in `createCategoryHierarchy`: the entity row, then the parent-to-child row if any. */
  method WriteCategory(t: Table, category: CategorySpec, createdAt: string)
    requires t.Valid()
    modifies t
    ensures t.Valid()
    ensures t.rows == ApplyAll(old(t.rows), PutRequests(RowsFor(category, createdAt)))
  {
    var categoryItem := CategoryRow(category, createdAt);
    t.Put(categoryItem);
    ApplyPutsSnoc(old(t.rows), [], categoryItem);
    if HasParent(category) {
      var parentChildItem := ChildRow(category, createdAt);
      t.Put(parentChildItem);
      ApplyPutsSnoc(old(t.rows), [categoryItem], parentChildItem);
      assert [categoryItem] + [parentChildItem] == RowsFor(category, createdAt);
    } else {
      assert [] + [categoryItem] == RowsFor(category, createdAt);
    }
  }

  /**
   * `createCategoryHierarchy`: for each category in list order, its entity row and, when it
   * has a parent, its parent-to-child row. Every write reads the same clock value `createdAt`.
   */
  method CreateCategoryHierarchy(t: Table, createdAt: string)
    requires t.Valid()
    modifies t
    ensures t.Valid()
    ensures t.rows == ApplyAll(old(t.rows), PutRequests(HierarchyRows(SampleCategories, createdAt)))
  {
    var categories := SampleCategories;
    for i := 0 to |categories|
      invariant t.Valid()
      invariant t.rows == ApplyAll(old(t.rows), PutRequests(HierarchyRows(categories[..i], createdAt)))
    {
      ghost var written := HierarchyRows(categories[..i], createdAt);
      WriteCategory(t, categories[i], createdAt);
      HierarchyRowsPrefix(categories, i, createdAt);
      PutRequestsConcat(written, RowsFor(categories[i], createdAt));
      ApplyAllAppend(old(t.rows), PutRequests(written), PutRequests(RowsFor(categories[i], createdAt)));
    }
    assert categories[..|categories|] == categories;
  }

  // ---------------------------------------------------------------------------
  // Lookups
  // ---------------------------------------------------------------------------

  /** `c` is a parent-to-child row in the partition of category `categoryId`. */
  predicate ChildOf(c: Row, categoryId: string)
  {
    c.PK == "CATEGORY#" + categoryId && "CHILD#" <= c.SK
  }

  /** `getCategoryChildren`: the complete primary query for `CATEGORY#<id>` and the prefix `CHILD#`. */
  function GetCategoryChildren(rows: seq<Row>, categoryId: string): seq<Row>
  {
    QueryAll(rows, Primary, "CATEGORY#" + categoryId, "CHILD#")
  }

  /** The children lookup returns exactly the parent-to-child rows under the category. */
  lemma ChildrenLookup(rows: seq<Row>, categoryId: string)
    ensures forall x :: x in GetCategoryChildren(rows, categoryId) <==> x in rows && ChildOf(x, categoryId)
  {
    QueryAllMembers(rows, Primary, "CATEGORY#" + categoryId, "CHILD#");
  }

  /** Each matching row comes back once, in ascending order of the `CHILD#<id>` sort keys. */
  lemma ChildrenOrdered(rows: seq<Row>, categoryId: string)
    ensures var children := GetCategoryChildren(rows, categoryId);
      && multiset(children) == multiset(Matching(rows, Primary, "CATEGORY#" + categoryId, "CHILD#"))
      && Ascending(children, Primary)
  {
    QueryAllReads(rows, Primary, "CATEGORY#" + categoryId, "CHILD#");
  }

  /**
   * `getCategoryParent`: the first row of the GSI1 query for `CATEGORY#<id>` and the prefix
   * `PARENT#`, or none.
   */
  function GetCategoryParent(rows: seq<Row>, categoryId: string): Option<Row>
  {
    FirstMatch(rows, Gsi1, "CATEGORY#" + categoryId, "PARENT#")
  }

  /**
   * The parent lookup finds nothing exactly when no row is projected into GSI1 under the
   * category with a `PARENT#` sort key; otherwise it finds such a row, one whose GSI1 sort
   * key is the least among them.
   */
  lemma ParentLookup(rows: seq<Row>, categoryId: string)
    ensures var parent := GetCategoryParent(rows, categoryId);
      && (parent.None? <==> forall x :: x in rows ==> !Matches(x, Gsi1, "CATEGORY#" + categoryId, "PARENT#"))
      && (parent.Some? ==> parent.value in rows && Matches(parent.value, Gsi1, "CATEGORY#" + categoryId, "PARENT#"))
      && (parent.Some? ==> ReadFirst(rows, Gsi1, "CATEGORY#" + categoryId, "PARENT#", parent.value))
  {
    FirstMatchLeast(rows, Gsi1, "CATEGORY#" + categoryId, "PARENT#");
  }

  /** `parent.Data.parentCategoryId` of the parent lookup for the category named by `${v}`. */
  function ParentOf(rows: seq<Row>, v: Value): Option<Value>
  {
    match GetCategoryParent(rows, Interpolated(v))
    case None => None
    case Some(parent) => Some(Field(parent.Data, "parentCategoryId"))
  }

  // ---------------------------------------------------------------------------
  // Breadcrumb
  // ---------------------------------------------------------------------------

  /** Following parents from `v` reaches a category without a parent in exactly `depth` steps. */
  ghost predicate ReachesRoot(rows: seq<Row>, v: Value, depth: nat)
    decreases depth
  {
    match ParentOf(rows, v)
    case None => depth == 0
    case Some(p) => depth > 0 && ReachesRoot(rows, p, depth - 1)
  }

  /** The breadcrumb of `v`: its ancestors from the root down, then `v` itself. */
  ghost function Breadcrumb(rows: seq<Row>, v: Value, depth: nat): seq<Value>
    requires ReachesRoot(rows, v, depth)
    decreases depth
  {
    match ParentOf(rows, v)
    case None => [v]
    case Some(p) => Breadcrumb(rows, p, depth - 1) + [v]
  }

  /** Each category of `path` after the first has the one before it as its parent. */
  ghost predicate ParentChain(rows: seq<Row>, path: seq<Value>)
  {
    forall i :: 0 <= i < |path| - 1 ==> ParentOf(rows, path[i + 1]) == Some(path[i])
  }

  /** A chain extended at the end by a child of its last category is still a chain. */
  lemma ParentChainSnoc(rows: seq<Row>, path: seq<Value>, v: Value)
    requires ParentChain(rows, path) && path != [] && ParentOf(rows, v) == Some(path[|path| - 1])
    ensures ParentChain(rows, path + [v])
  {
    var longer := path + [v];
    forall i | 0 <= i < |longer| - 1
      ensures ParentOf(rows, longer[i + 1]) == Some(longer[i])
    {
      if i < |path| - 1 {
        assert longer[i + 1] == path[i + 1] && longer[i] == path[i];
      }
    }
  }

  /**
   * The breadcrumb has one entry per step plus one, ends with the category itself, starts
   * with a category that has no parent, and lists each entry's parent just before it.
   */
  lemma {:induction false} BreadcrumbShape(rows: seq<Row>, v: Value, depth: nat)
    requires ReachesRoot(rows, v, depth)
    ensures var path := Breadcrumb(rows, v, depth);
      && |path| == depth + 1
      && path[|path| - 1] == v
      && ParentOf(rows, path[0]).None?
      && ParentChain(rows, path)
    decreases depth
  {
    match ParentOf(rows, v)
    case None =>
    case Some(p) =>
      var above := Breadcrumb(rows, p, depth - 1);
      BreadcrumbShape(rows, p, depth - 1);
      ParentChainSnoc(rows, above, v);
      assert Breadcrumb(rows, v, depth)[0] == above[0];
  }

  /**
   * `getCategoryPath`: walk up through parents, putting each parent in front. The loop has
   * no bound of its own; it stops because the parent chain from `categoryId` reaches a root,
   * after `depth` steps.
   */
  method GetCategoryPath(rows: seq<Row>, categoryId: string, ghost depth: nat) returns (path: seq<Value>)
    requires ReachesRoot(rows, Str(categoryId), depth)
    ensures path == Breadcrumb(rows, Str(categoryId), depth)
  {
    path := [Str(categoryId)];
    var currentCategoryId := Str(categoryId);
    ghost var remaining := depth;
    while true
      invariant ReachesRoot(rows, currentCategoryId, remaining)
      invariant path != [] && path[0] == currentCategoryId
      invariant Breadcrumb(rows, Str(categoryId), depth) == Breadcrumb(rows, currentCategoryId, remaining) + path[1..]
      decreases remaining
    {
      var parent := GetCategoryParent(rows, Interpolated(currentCategoryId));
      if parent.None? {
        break;
      }
      var parentId := Field(parent.value.Data, "parentCategoryId");
      path := [parentId] + path;
      currentCategoryId := parentId;
      remaining := remaining - 1;
    }
  }

  /** A chain that comes back to where it started never reaches a root. */
  lemma {:induction false} CycleNeverReachesRoot(rows: seq<Row>, a: Value, b: Value, depth: nat)
    requires ParentOf(rows, a) == Some(b) && ParentOf(rows, b) == Some(a)
    ensures !ReachesRoot(rows, a, depth)
    decreases depth
  {
    if depth >= 2 {
      CycleNeverReachesRoot(rows, a, b, depth - 2);
    }
  }

  /** The number of steps to the root is determined by the start. */
  lemma {:induction false} ReachesRootUnique(rows: seq<Row>, v: Value, d1: nat, d2: nat)
    requires ReachesRoot(rows, v, d1) && ReachesRoot(rows, v, d2)
    ensures d1 == d2
    decreases d1
  {
    match ParentOf(rows, v)
    case None =>
    case Some(p) => ReachesRootUnique(rows, p, d1 - 1, d2 - 1);
  }

  // ---------------------------------------------------------------------------
  // Descendants
  // ---------------------------------------------------------------------------

  /** `child.Data.childCategoryId` of a parent-to-child row. */
  function ChildId(child: Row): Value
  {
    Field(child.Data, "childCategoryId")
  }

  /**
   * Every chain of children below the category named by `${v}` ends within `h` steps. The
   * recursion of `getAllCategoryDescendants` stops exactly when such an `h` exists.
   */
  ghost predicate Bounded(rows: seq<Row>, v: Value, h: nat)
    decreases h
  {
    forall c :: c in rows && ChildOf(c, Interpolated(v)) ==> h > 0 && Bounded(rows, ChildId(c), h - 1)
  }

  /** Below a bounded category, every child is bounded with one step less. */
  lemma ChildrenBounded(rows: seq<Row>, v: Value, h: nat)
    requires Bounded(rows, v, h)
    ensures var children := GetCategoryChildren(rows, Interpolated(v));
      (h > 0 || children == []) &&
      forall k :: 0 <= k < |children| ==> Bounded(rows, ChildId(children[k]), h - 1)
  {
    var children := GetCategoryChildren(rows, Interpolated(v));
    ChildrenLookup(rows, Interpolated(v));
    if children != [] {
      assert children[0] in children;
    }
    forall k | 0 <= k < |children|
      ensures Bounded(rows, ChildId(children[k]), h - 1)
    {
      assert children[k] in children;
    }
  }

  /**
   * The pre-order listing below `v`, looking at most `h` levels down: each child, then
   * everything below that child. When `Bounded(rows, v, h)` holds, `h` levels are all there is.
   */
  function Descendants(rows: seq<Row>, v: Value, h: nat): seq<Value>
    decreases h, 0
  {
    if h == 0 then []
    else
      var children := GetCategoryChildren(rows, Interpolated(v));
      DescendantsOf(rows, children, |children|, h - 1)
  }

  /** The listings for the first `n` of `children` in turn, each looking `h` levels below the child. */
  function DescendantsOf(rows: seq<Row>, children: seq<Row>, n: nat, h: nat): seq<Value>
    requires n <= |children|
    decreases h, 1, n
  {
    if n == 0 then []
    else DescendantsOf(rows, children, n - 1, h) + [ChildId(children[n - 1])] + Descendants(rows, ChildId(children[n - 1]), h)
  }

  /**
   * `getAllCategoryDescendants`: for each child in query order, the child's id, then the
   * child's own descendants, found by the recursive call.
   */
  method GetAllCategoryDescendants(rows: seq<Row>, categoryId: Value, ghost h: nat) returns (descendants: seq<Value>)
    requires Bounded(rows, categoryId, h)
    ensures descendants == Descendants(rows, categoryId, h)
    decreases h
  {
    var children := GetCategoryChildren(rows, Interpolated(categoryId));
    ChildrenBounded(rows, categoryId, h);
    ghost var below := if h > 0 then h - 1 else 0;
    descendants := [];
    for i := 0 to |children|
      invariant descendants == DescendantsOf(rows, children, i, below)
    {
      var childId := Field(children[i].Data, "childCategoryId");
      descendants := descendants + [childId];
      var grandchildren := GetAllCategoryDescendants(rows, childId, below);
      descendants := descendants + grandchildren;
    }
  }

  // ---------------------------------------------------------------------------
  // Properties of the lookups and the walks
  // ---------------------------------------------------------------------------

  /** The parent lookup returns the first row of the complete GSI1 query, or none when it is empty. */
  lemma ParentIsFirstRead(rows: seq<Row>, categoryId: string)
    ensures var q := QueryAll(rows, Gsi1, "CATEGORY#" + categoryId, "PARENT#");
      GetCategoryParent(rows, categoryId) == if q == [] then None else Some(q[0])
  {
    FirstMatchIsFirstRead(rows, Gsi1, "CATEGORY#" + categoryId, "PARENT#");
  }

  /** A bound on the height stays a bound when raised. */
  lemma {:induction false} BoundedMono(rows: seq<Row>, v: Value, h: nat)
    requires Bounded(rows, v, h)
    ensures Bounded(rows, v, h + 1)
    decreases h
  {
    forall c | c in rows && ChildOf(c, Interpolated(v))
      ensures Bounded(rows, ChildId(c), h)
    {
      BoundedMono(rows, ChildId(c), h - 1);
    }
  }

  /** Looking further down than a bound changes nothing. */
  lemma {:induction false} DescendantsHeight(rows: seq<Row>, v: Value, h1: nat, h2: nat)
    requires Bounded(rows, v, h1) && Bounded(rows, v, h2)
    ensures Descendants(rows, v, h1) == Descendants(rows, v, h2)
    decreases h1, 0
  {
    ChildrenBounded(rows, v, h1);
    ChildrenBounded(rows, v, h2);
    var children := GetCategoryChildren(rows, Interpolated(v));
    if h1 > 0 && h2 > 0 {
      DescendantsOfHeight(rows, children, |children|, h1 - 1, h2 - 1);
    }
  }

  lemma {:induction false} DescendantsOfHeight(rows: seq<Row>, children: seq<Row>, n: nat, h1: nat, h2: nat)
    requires n <= |children|
    requires forall k :: 0 <= k < |children| ==> Bounded(rows, ChildId(children[k]), h1)
    requires forall k :: 0 <= k < |children| ==> Bounded(rows, ChildId(children[k]), h2)
    ensures DescendantsOf(rows, children, n, h1) == DescendantsOf(rows, children, n, h2)
    decreases h1, 1, n
  {
    if n > 0 {
      DescendantsOfHeight(rows, children, n - 1, h1, h2);
      DescendantsHeight(rows, ChildId(children[n - 1]), h1, h2);
    }
  }

  /** Every child among the first `n`, and everything below it, is in their listing. */
  lemma {:induction false} DescendantsOfCovers(rows: seq<Row>, children: seq<Row>, n: nat, h: nat, k: nat)
    requires k < n <= |children|
    ensures ChildId(children[k]) in DescendantsOf(rows, children, n, h)
    ensures forall w :: w in Descendants(rows, ChildId(children[k]), h) ==> w in DescendantsOf(rows, children, n, h)
    decreases n
  {
    if k < n - 1 {
      DescendantsOfCovers(rows, children, n - 1, h, k);
    }
  }

  /** Everything in the listing of the first `n` children is one of them or below one of them. */
  lemma {:induction false} DescendantsOfFrom(rows: seq<Row>, children: seq<Row>, n: nat, h: nat, w: Value) returns (k: nat)
    requires n <= |children| && w in DescendantsOf(rows, children, n, h)
    ensures k < n && (w == ChildId(children[k]) || w in Descendants(rows, ChildId(children[k]), h))
    decreases n
  {
    var id := ChildId(children[n - 1]);
    var front := DescendantsOf(rows, children, n - 1, h);
    assert DescendantsOf(rows, children, n, h) == front + [id] + Descendants(rows, id, h);
    if w in front {
      k := DescendantsOfFrom(rows, children, n - 1, h, w);
    } else {
      k := n - 1;
    }
  }

  /**
   * The listing below `v` holds exactly the ids of `v`'s children and everything listed below
   * each of them.
   */
  lemma DescendantsMembers(rows: seq<Row>, v: Value, h: nat, w: Value)
    ensures w in Descendants(rows, v, h) <==>
      h > 0 && exists c ::
        c in rows && ChildOf(c, Interpolated(v)) && (w == ChildId(c) || w in Descendants(rows, ChildId(c), h - 1))
  {
    if h > 0 {
      var children := GetCategoryChildren(rows, Interpolated(v));
      ChildrenLookup(rows, Interpolated(v));
      if w in Descendants(rows, v, h) {
        var k := DescendantsOfFrom(rows, children, |children|, h - 1, w);
        assert children[k] in children;
      } else {
        forall c | c in rows && ChildOf(c, Interpolated(v))
          ensures !(w == ChildId(c) || w in Descendants(rows, ChildId(c), h - 1))
        {
          assert c in children;
          var k :| 0 <= k < |children| && children[k] == c;
          DescendantsOfCovers(rows, children, |children|, h - 1, k);
        }
      }
    }
  }

  /** Everything listed below a bounded category is itself bounded, one step lower. */
  lemma {:induction false} DescendantsBounded(rows: seq<Row>, v: Value, h: nat, w: Value)
    requires Bounded(rows, v, h) && w in Descendants(rows, v, h)
    ensures h > 0 && Bounded(rows, w, h - 1)
    decreases h
  {
    DescendantsMembers(rows, v, h, w);
    var c :| c in rows && ChildOf(c, Interpolated(v)) && (w == ChildId(c) || w in Descendants(rows, ChildId(c), h - 1));
    if w != ChildId(c) {
      DescendantsBounded(rows, ChildId(c), h - 1, w);
      BoundedMono(rows, w, h - 2);
    }
  }

  /** A category is never listed among its own descendants. */
  lemma {:induction false} DescendantsNotSelf(rows: seq<Row>, v: Value, h: nat)
    requires Bounded(rows, v, h)
    ensures v !in Descendants(rows, v, h)
    decreases h
  {
    if v in Descendants(rows, v, h) {
      DescendantsBounded(rows, v, h, v);
      DescendantsHeight(rows, v, h, h - 1);
      DescendantsNotSelf(rows, v, h - 1);
    }
  }
}
