/**
 * Facts about the category list `createCategoryHierarchy` writes (src/hierarchical-data.ts)
 * and about the table it builds: the list is a forest whose roots come first, the rows it
 * writes have distinct primary keys, and the parent lookup on those rows gives back each
 * category's recorded parent, so the breadcrumb of `headphones` is
 * electronics / audio / headphones.
 */
module SampleHierarchy {
  import opened Wrappers
  import opened Text
  import opened Store
  import opened Hierarchy

  /** No two categories of the list share an id. */
  predicate DistinctIds(cs: seq<CategorySpec>)
  {
    forall i, j :: 0 <= i < j < |cs| ==> cs[i].id != cs[j].id
  }

  /** Every parent is a category listed before its child, so following parents never loops. */
  predicate ParentsEarlier(cs: seq<CategorySpec>)
  {
    forall i {:trigger HasParent(cs[i])} :: 0 <= i < |cs| && HasParent(cs[i]) ==> exists j :: 0 <= j < i && cs[j].id == cs[i].parentId.value
  }

  /** The fixed list: 11 categories, of which the first two are the roots. */
  lemma SampleRoots()
    ensures |SampleCategories| == 11
    ensures forall i :: 0 <= i < |SampleCategories| ==> (HasParent(SampleCategories[i]) <==> i >= 2)
  {
  }

  /** No two sample categories share an id: their ids even start with different letters. */
  lemma SampleDistinct()
    ensures DistinctIds(SampleCategories)
  {
    var cs := SampleCategories;
    forall i, j | 0 <= i < j < |cs|
      ensures cs[i].id != cs[j].id
    {
      assert cs[i].id[0] != cs[j].id[0];
    }
  }

  /** Every sample category with a parent comes after that parent. */
  lemma SampleParentsEarlier()
    ensures ParentsEarlier(SampleCategories)
  {
    var cs := SampleCategories;
    forall i | 0 <= i < |cs| && HasParent(cs[i])
      ensures exists j :: 0 <= j < i && cs[j].id == cs[i].parentId.value
    {
      var j := if i <= 4 then 0 else if i <= 6 then 2 else if i <= 8 then 3 else 1;
      assert cs[j].id == cs[i].parentId.value;
    }
  }

  /** The ids and parents of the sample list, position by position. */
  ghost predicate SampleShape(cs: seq<CategorySpec>)
  {
    && |cs| == 11
    && cs[0].id == "electronics" && cs[0].parentId == None
    && cs[1].id == "books" && cs[1].parentId == None
    && cs[2].id == "computers" && cs[2].parentId == Some("electronics")
    && cs[3].id == "audio" && cs[3].parentId == Some("electronics")
    && cs[4].id == "mobile" && cs[4].parentId == Some("electronics")
    && cs[5].id == "laptops" && cs[5].parentId == Some("computers")
    && cs[6].id == "desktops" && cs[6].parentId == Some("computers")
    && cs[7].id == "headphones" && cs[7].parentId == Some("audio")
    && cs[8].id == "speakers" && cs[8].parentId == Some("audio")
    && cs[9].id == "fiction" && cs[9].parentId == Some("books")
    && cs[10].id == "technical" && cs[10].parentId == Some("books")
  }

  /** The sample list has that shape. */
  lemma SampleHasShape()
    ensures SampleShape(SampleCategories)
  {
  }

  // ---------------------------------------------------------------------------
  // Keys of the written rows
  // ---------------------------------------------------------------------------

  /** A key built from a fixed tag names one id only. */
  lemma TagInjective(tag: string, a: string, b: string)
    requires tag + a == tag + b
    ensures a == b
  {
    assert (tag + a)[|tag|..] == a && (tag + b)[|tag|..] == b;
  }

  /** An entity sort key is never a child sort key. */
  lemma EntityNotChild(a: string, b: string)
    ensures "CATEGORY#" + a != "CHILD#" + b
  {
    assert ("CATEGORY#" + a)[1] != ("CHILD#" + b)[1];
  }

  /** Each row a category writes is sorted under `CATEGORY#<id>` or `CHILD#<id>`. */
  lemma RowsForKeys(c: CategorySpec, createdAt: string, x: Row)
    requires x in RowsFor(c, createdAt)
    ensures x == CategoryRow(c, createdAt) <==> x.SK == "CATEGORY#" + c.id
    ensures x != CategoryRow(c, createdAt) <==> HasParent(c) && x == ChildRow(c, createdAt)
    ensures x != CategoryRow(c, createdAt) ==> x.SK == "CHILD#" + c.id
  {
    if x != CategoryRow(c, createdAt) {
      EntityNotChild(c.id, c.id);
    }
  }

  /** Every written row comes from one category of the list. */
  lemma {:induction false} WrittenRowSource(cs: seq<CategorySpec>, createdAt: string, x: Row) returns (i: nat)
    requires x in HierarchyRows(cs, createdAt)
    ensures i < |cs| && x in RowsFor(cs[i], createdAt)
  {
    var front := cs[..|cs| - 1];
    if x in RowsFor(cs[|cs| - 1], createdAt) {
      i := |cs| - 1;
    } else {
      i := WrittenRowSource(front, createdAt, x);
      assert cs[i] == front[i];
    }
  }

  /** Every category's rows are written. */
  lemma {:induction false} CategoryRowsWritten(cs: seq<CategorySpec>, createdAt: string, i: nat)
    requires i < |cs|
    ensures forall x :: x in RowsFor(cs[i], createdAt) ==> x in HierarchyRows(cs, createdAt)
  {
    var front := cs[..|cs| - 1];
    if i < |cs| - 1 {
      CategoryRowsWritten(front, createdAt, i);
      assert cs[i] == front[i];
    }
  }

  /** Rows of two categories with different ids have different primary keys. */
  lemma RowsForDisjoint(c: CategorySpec, d: CategorySpec, createdAt: string, x: Row, y: Row)
    requires c.id != d.id && x in RowsFor(c, createdAt) && y in RowsFor(d, createdAt)
    ensures KeyOf(x) != KeyOf(y)
  {
    RowsForKeys(c, createdAt, x);
    RowsForKeys(d, createdAt, y);
    if x.SK == y.SK {
      if x == CategoryRow(c, createdAt) && y == CategoryRow(d, createdAt) {
        TagInjective("CATEGORY#", c.id, d.id);
      } else if x == CategoryRow(c, createdAt) {
        EntityNotChild(c.id, d.id);
      } else if y == CategoryRow(d, createdAt) {
        EntityNotChild(d.id, c.id);
      } else {
        TagInjective("CHILD#", c.id, d.id);
      }
    }
  }

  /** Two row lists with distinct keys each and no key in common join into one with distinct keys. */
  lemma UniqueKeysJoin(a: seq<Row>, b: seq<Row>)
    requires UniqueKeys(a) && UniqueKeys(b)
    requires forall x, y :: x in a && y in b ==> KeyOf(x) != KeyOf(y)
    ensures UniqueKeys(a + b)
  {
    var s := a + b;
    forall i, j | 0 <= i < j < |s|
      ensures KeyOf(s[i]) != KeyOf(s[j])
    {
      if i < |a| && |a| <= j {
        assert s[i] in a && s[j] == b[j - |a|];
      } else if |a| <= i {
        assert s[i] == b[i - |a|] && s[j] == b[j - |a|];
      }
    }
  }

  /** With distinct category ids, the rows the hierarchy writes have distinct primary keys. */
  lemma {:induction false} HierarchyKeysUnique(cs: seq<CategorySpec>, createdAt: string)
    requires DistinctIds(cs)
    ensures UniqueKeys(HierarchyRows(cs, createdAt))
  {
    if cs != [] {
      var front, last := cs[..|cs| - 1], cs[|cs| - 1];
      HierarchyKeysUnique(front, createdAt);
      var mine := RowsFor(last, createdAt);
      if HasParent(last) {
        EntityNotChild(last.id, last.id);
      }
      forall x, y | x in HierarchyRows(front, createdAt) && y in mine
        ensures KeyOf(x) != KeyOf(y)
      {
        var i := WrittenRowSource(front, createdAt, x);
        RowsForDisjoint(front[i], last, createdAt, x, y);
      }
      UniqueKeysJoin(HierarchyRows(front, createdAt), mine);
    }
  }

  /** Writing the hierarchy into an empty table leaves exactly its rows, in write order. */
  lemma BuiltFromEmpty(createdAt: string)
    ensures ApplyAll([], PutRequests(HierarchyRows(SampleCategories, createdAt))) == HierarchyRows(SampleCategories, createdAt)
  {
    SampleDistinct();
    HierarchyKeysUnique(SampleCategories, createdAt);
    PutRequestsAppend([], HierarchyRows(SampleCategories, createdAt));
  }

  // ---------------------------------------------------------------------------
  // Parents and breadcrumbs on the written rows
  // ---------------------------------------------------------------------------

  /** The only written row a parent lookup for a listed category can find is its parent-to-child row. */
  lemma ParentRowUnique(cs: seq<CategorySpec>, createdAt: string, i: nat, x: Row)
    requires DistinctIds(cs) && i < |cs| && x in HierarchyRows(cs, createdAt)
    ensures Matches(x, Gsi1, "CATEGORY#" + cs[i].id, "PARENT#") ==> HasParent(cs[i]) && x == ChildRow(cs[i], createdAt)
  {
    var j := WrittenRowSource(cs, createdAt, x);
    RowsForKeys(cs[j], createdAt, x);
    if Matches(x, Gsi1, "CATEGORY#" + cs[i].id, "PARENT#") {
      TagInjective("CATEGORY#", cs[j].id, cs[i].id);
    }
  }

  /** A listed category with a parent has its parent-to-child row written, under its GSI1 key. */
  lemma ParentRowWritten(cs: seq<CategorySpec>, createdAt: string, i: nat)
    requires i < |cs| && HasParent(cs[i])
    ensures ChildRow(cs[i], createdAt) in HierarchyRows(cs, createdAt)
    ensures Matches(ChildRow(cs[i], createdAt), Gsi1, "CATEGORY#" + cs[i].id, "PARENT#")
  {
    CategoryRowsWritten(cs, createdAt, i);
    assert ChildRow(cs[i], createdAt) in RowsFor(cs[i], createdAt);
  }

  /**
   * On the rows a list with distinct ids writes, the parent lookup of a listed category gives
   * its recorded parent, and nothing for a root.
   */
  lemma ParentInHierarchy(cs: seq<CategorySpec>, createdAt: string, i: nat)
    requires DistinctIds(cs) && i < |cs|
    ensures ParentOf(HierarchyRows(cs, createdAt), Str(cs[i].id))
         == if HasParent(cs[i]) then Some(Str(cs[i].parentId.value)) else None
  {
    var rows := HierarchyRows(cs, createdAt);
    ParentLookup(rows, cs[i].id);
    forall x | x in rows
      ensures Matches(x, Gsi1, "CATEGORY#" + cs[i].id, "PARENT#") ==> HasParent(cs[i]) && x == ChildRow(cs[i], createdAt)
    {
      ParentRowUnique(cs, createdAt, i, x);
    }
    if HasParent(cs[i]) {
      ParentRowWritten(cs, createdAt, i);
    }
  }

  /** A category two parent steps below a root has the root, its parent and itself as breadcrumb. */
  lemma TwoStepBreadcrumb(rows: seq<Row>, root: Value, mid: Value, leaf: Value)
    requires ParentOf(rows, leaf) == Some(mid) && ParentOf(rows, mid) == Some(root)
    requires ParentOf(rows, root) == None
    ensures ReachesRoot(rows, leaf, 2) && Breadcrumb(rows, leaf, 2) == [root, mid, leaf]
  {
    assert ReachesRoot(rows, root, 0);
    assert ReachesRoot(rows, mid, 1);
  }

  /** On the sample table, the breadcrumb of `headphones` is electronics / audio / headphones. */
  lemma HeadphonesBreadcrumb(createdAt: string)
    ensures var rows := HierarchyRows(SampleCategories, createdAt);
      && ReachesRoot(rows, Str("headphones"), 2)
      && Breadcrumb(rows, Str("headphones"), 2) == [Str("electronics"), Str("audio"), Str("headphones")]
  {
    var cs := SampleCategories;
    SampleDistinct();
    SampleHasShape();
    ParentInHierarchy(cs, createdAt, 7);
    ParentInHierarchy(cs, createdAt, 3);
    ParentInHierarchy(cs, createdAt, 0);
    TwoStepBreadcrumb(HierarchyRows(cs, createdAt), Str("electronics"), Str("audio"), Str("headphones"));
  }

  // ---------------------------------------------------------------------------
  // Children and descendants on the written rows
  // ---------------------------------------------------------------------------

  /** A written row under a category's `CHILD#` prefix is the parent-to-child row of one of its children. */
  lemma ChildRowSource(cs: seq<CategorySpec>, createdAt: string, p: string, x: Row) returns (j: nat)
    requires x in HierarchyRows(cs, createdAt) && ChildOf(x, p)
    ensures j < |cs| && HasParent(cs[j]) && cs[j].parentId.value == p && x == ChildRow(cs[j], createdAt)
  {
    j := WrittenRowSource(cs, createdAt, x);
    RowsForKeys(cs[j], createdAt, x);
    assert x.SK[1] == 'H';
    TagInjective("CATEGORY#", cs[j].parentId.value, p);
  }

  /** In a parents-first list with distinct ids, the children of a category are listed after it. */
  lemma ChildrenLater(cs: seq<CategorySpec>, createdAt: string, i: nat, x: Row) returns (j: nat)
    requires DistinctIds(cs) && ParentsEarlier(cs) && i < |cs|
    requires x in HierarchyRows(cs, createdAt) && ChildOf(x, cs[i].id)
    ensures i < j < |cs| && ChildId(x) == Str(cs[j].id)
  {
    j := ChildRowSource(cs, createdAt, cs[i].id, x);
    var k :| 0 <= k < j && cs[k].id == cs[j].parentId.value;
    assert k == i;
  }

  /** A child row whose id has a bounded hierarchy below it has that bound, or any larger one. */
  lemma BoundedAt(rows: seq<Row>, c: Row, v: Value, h: nat, h2: nat)
    requires ChildId(c) == v && Bounded(rows, v, h) && h <= h2
    ensures Bounded(rows, ChildId(c), h2)
  {
    BoundedUp(rows, v, h, h2);
  }

  /** A bound on the height of the hierarchy below a category stays a bound when raised. */
  lemma {:induction false} BoundedUp(rows: seq<Row>, v: Value, h: nat, h2: nat)
    requires Bounded(rows, v, h) && h <= h2
    ensures Bounded(rows, v, h2)
    decreases h2 - h
  {
    if h < h2 {
      BoundedMono(rows, v, h);
      BoundedUp(rows, v, h + 1, h2);
    }
  }

  /** Every row under the `CHILD#` prefix of a listed category names a category listed after it. */
  ghost predicate ChildrenListedLater(rows: seq<Row>, cs: seq<CategorySpec>)
  {
    forall i, c {:trigger ChildOf(c, cs[i].id)} :: 0 <= i < |cs| && c in rows && ChildOf(c, cs[i].id) ==>
      exists j :: i < j < |cs| && ChildId(c) == Str(cs[j].id)
  }

  /** A parents-first list with distinct ids lists every child after its parent. */
  lemma ParentsFirstChildrenLater(cs: seq<CategorySpec>, createdAt: string)
    requires DistinctIds(cs) && ParentsEarlier(cs)
    ensures ChildrenListedLater(HierarchyRows(cs, createdAt), cs)
  {
    forall i, c | 0 <= i < |cs| && c in HierarchyRows(cs, createdAt) && ChildOf(c, cs[i].id)
      ensures exists j :: i < j < |cs| && ChildId(c) == Str(cs[j].id)
    {
      var j := ChildrenLater(cs, createdAt, i, c);
    }
  }

  /**
   * Writing a parents-first list with distinct ids gives an acyclic hierarchy: below the
   * category at position `i`, every chain of children ends within `|cs| - i` steps, so
   * `getAllCategoryDescendants` terminates on it.
   */
  lemma HierarchyBounded(cs: seq<CategorySpec>, createdAt: string, i: nat)
    requires DistinctIds(cs) && ParentsEarlier(cs) && i < |cs|
    ensures Bounded(HierarchyRows(cs, createdAt), Str(cs[i].id), |cs| - i)
  {
    ParentsFirstChildrenLater(cs, createdAt);
    LaterBounded(HierarchyRows(cs, createdAt), cs, i);
  }

  /** The position of the category a child row of the category at position `i` names. */
  lemma LaterChild(rows: seq<Row>, cs: seq<CategorySpec>, i: nat, c: Row) returns (j: nat)
    requires ChildrenListedLater(rows, cs) && i < |cs|
    requires c in rows && ChildOf(c, cs[i].id)
    ensures i < j < |cs| && ChildId(c) == Str(cs[j].id)
  {
    j :| i < j < |cs| && ChildId(c) == Str(cs[j].id);
  }

  /** When children are listed after their parents, position `i` bounds the height below it. */
  lemma {:induction false} LaterBounded(rows: seq<Row>, cs: seq<CategorySpec>, i: nat)
    requires ChildrenListedLater(rows, cs) && i < |cs|
    ensures Bounded(rows, Str(cs[i].id), |cs| - i)
    decreases |cs| - i
  {
    forall c | c in rows && ChildOf(c, Interpolated(Str(cs[i].id)))
      ensures Bounded(rows, ChildId(c), |cs| - i - 1)
    {
      var j := LaterChild(rows, cs, i, c);
      LaterBounded(rows, cs, j);
      BoundedAt(rows, c, Str(cs[j].id), |cs| - j, |cs| - i - 1);
    }
  }

  // ---------------------------------------------------------------------------
  // The exact children and descendant lists of the sample
  // ---------------------------------------------------------------------------

  /** Sort keys strictly increase along `s`. */
  predicate StrictlyAscending(s: seq<Row>)
  {
    forall i, j :: 0 <= i < j < |s| ==> Below(s[i].SK, s[j].SK) && s[i].SK != s[j].SK
  }

  /** A row list of distinct keys holds each row at most once. */
  lemma {:induction false} UniqueRowsOnce(rows: seq<Row>, x: Row)
    requires UniqueKeys(rows)
    ensures multiset(rows)[x] <= 1
  {
    if rows != [] {
      var rest := rows[1..];
      assert rows == [rows[0]] + rest;
      assert UniqueKeys(rest) by {
        forall i, j | 0 <= i < j < |rest|
          ensures KeyOf(rest[i]) != KeyOf(rest[j])
        {
          assert rest[i] == rows[i + 1] && rest[j] == rows[j + 1];
        }
      }
      UniqueRowsOnce(rest, x);
      forall j | 0 <= j < |rest|
        ensures rest[j] != rows[0]
      {
        assert rest[j] == rows[j + 1];
      }
    }
  }

  /** A list that holds no row is empty. */
  lemma NothingInEmpty(q: seq<Row>)
    ensures (forall x :: x !in q) ==> q == []
  {
    if q != [] {
      assert q[0] in q;
    }
  }

  /** Such lists start with the same row. */
  lemma SameFirst(s: seq<Row>, q: seq<Row>)
    requires StrictlyAscending(s) && Ascending(q, Primary) && s != []
    requires forall x :: x in s <==> x in q
    ensures q != [] && q[0] == s[0]
  {
    assert s[0] in q;
    var k :| 0 <= k < |q| && q[k] == s[0];
    assert q[0] in s;
    var m :| 0 <= m < |s| && s[m] == q[0];
    if k > 0 {
      assert Below(SortKey(q[0], Primary), SortKey(q[k], Primary));
    } else {
      BelowReflexive(s[0].SK);
    }
    if m > 0 {
      BelowAntisymmetric(s[0].SK, s[m].SK);
    }
  }

  /** Once the first rows agree, the rests of such lists are such lists again. */
  lemma SameRest(s: seq<Row>, q: seq<Row>)
    requires StrictlyAscending(s) && s != [] && q != [] && q[0] == s[0]
    requires forall x :: multiset(q)[x] <= 1
    requires forall x :: x in s <==> x in q
    ensures forall x :: multiset(q[1..])[x] <= 1
    ensures forall x :: x in s[1..] <==> x in q[1..]
  {
    assert q == [q[0]] + q[1..];
    assert multiset(q) == multiset{q[0]} + multiset(q[1..]);
    assert s == [s[0]] + s[1..];
    forall x
      ensures multiset(q[1..])[x] <= 1
    {
      assert multiset(q)[x] <= 1;
    }
    assert multiset(q)[q[0]] <= 1;
    assert q[0] !in multiset(q[1..]);
    forall x
      ensures x in s[1..] <==> x in q[1..]
    {
      if x in s[1..] {
        var i :| 1 <= i < |s| && s[i] == x;
        assert x.SK != s[0].SK;
        assert x in q && x != q[0];
      }
      if x in q[1..] {
        assert x in multiset(q[1..]);
        assert x in s && x != s[0];
      }
    }
  }

  /**
   * A list read in ascending sort-key order, holding each row at most once and the same rows
   * as a list whose sort keys strictly increase, is that list.
   */
  lemma {:induction false} AscendingDeterminate(s: seq<Row>, q: seq<Row>)
    requires StrictlyAscending(s) && Ascending(q, Primary)
    requires forall x :: multiset(q)[x] <= 1
    requires forall x :: x in s <==> x in q
    ensures q == s
    decreases |s|
  {
    if s == [] {
      NothingInEmpty(q);
    } else {
      SameFirst(s, q);
      SameRest(s, q);
      AscendingDeterminate(s[1..], q[1..]);
    }
  }

  /**
   * On rows with distinct keys, the children lookup of `p` returns the list of its children's
   * rows whose sort keys strictly increase.
   */
  lemma ChildrenExact(rows: seq<Row>, p: string, s: seq<Row>)
    requires UniqueKeys(rows) && StrictlyAscending(s)
    requires forall x :: x in s <==> x in rows && ChildOf(x, p)
    ensures GetCategoryChildren(rows, p) == s
  {
    var q := GetCategoryChildren(rows, p);
    ChildrenLookup(rows, p);
    ChildrenOrdered(rows, p);
    forall x
      ensures multiset(q)[x] <= 1
    {
      UniqueRowsOnce(rows, x);
    }
    AscendingDeterminate(s, q);
  }

  /** Keys under one tag keep the order of what follows the tag. */
  lemma {:induction false} BelowAfterTag(tag: string, a: string, b: string)
    requires Below(a, b)
    ensures Below(tag + a, tag + b)
  {
    if tag == [] {
      assert tag + a == a && tag + b == b;
    } else {
      BelowAfterTag(tag[1..], a, b);
      assert (tag + a)[1..] == tag[1..] + a && (tag + b)[1..] == tag[1..] + b;
    }
  }

  /** The parent-to-child rows of the categories at positions `js`, in that order. */
  ghost function ChildRows(cs: seq<CategorySpec>, createdAt: string, js: seq<nat>): seq<Row>
    requires forall k :: 0 <= k < |js| ==> js[k] < |cs| && HasParent(cs[js[k]])
  {
    seq(|js|, k requires 0 <= k < |js| => ChildRow(cs[js[k]], createdAt))
  }

  /** The rows of `ChildRows` name the categories at positions `js`, in that order. */
  lemma ChildRowsIds(cs: seq<CategorySpec>, createdAt: string, js: seq<nat>)
    requires forall k :: 0 <= k < |js| ==> js[k] < |cs| && HasParent(cs[js[k]])
    ensures |ChildRows(cs, createdAt, js)| == |js|
    ensures forall k :: 0 <= k < |js| ==> ChildId(ChildRows(cs, createdAt, js)[k]) == Str(cs[js[k]].id)
  {
  }

  /**
   * The positions `js` of a list are those of the categories with parent `p`, each once, in
   * the order of their ids.
   */
  ghost predicate ChildrenAt(cs: seq<CategorySpec>, p: string, js: seq<nat>)
  {
    && (forall k :: 0 <= k < |js| ==> js[k] < |cs| && HasParent(cs[js[k]]) && cs[js[k]].parentId.value == p)
    && (forall j :: 0 <= j < |cs| && HasParent(cs[j]) && cs[j].parentId.value == p ==> j in js)
    && (forall k, l :: 0 <= k < l < |js| ==> Below(cs[js[k]].id, cs[js[l]].id) && cs[js[k]].id != cs[js[l]].id)
  }

  /** The categories at positions `js` have the ids `ids`, in that order. */
  ghost predicate NamedAt(cs: seq<CategorySpec>, js: seq<nat>, ids: seq<string>)
  {
    |ids| == |js| && forall k :: 0 <= k < |js| ==> js[k] < |cs| && cs[js[k]].id == ids[k]
  }

  /**
   * On the rows a list with distinct ids writes, the children lookup of `p` returns the
   * parent-to-child rows of exactly the categories listed with parent `p`, in the order of
   * their ids.
   */
  lemma ListedChildren(cs: seq<CategorySpec>, createdAt: string, p: string, js: seq<nat>)
    requires DistinctIds(cs)
    requires ChildrenAt(cs, p, js)
    ensures GetCategoryChildren(HierarchyRows(cs, createdAt), p) == ChildRows(cs, createdAt, js)
  {
    var rows := HierarchyRows(cs, createdAt);
    var s := ChildRows(cs, createdAt, js);
    HierarchyKeysUnique(cs, createdAt);
    forall k, l | 0 <= k < l < |s|
      ensures Below(s[k].SK, s[l].SK) && s[k].SK != s[l].SK
    {
      BelowAfterTag("CHILD#", cs[js[k]].id, cs[js[l]].id);
      if s[k].SK == s[l].SK {
        TagInjective("CHILD#", cs[js[k]].id, cs[js[l]].id);
      }
    }
    forall x
      ensures x in s <==> x in rows && ChildOf(x, p)
    {
      if x in s {
        var k :| 0 <= k < |s| && s[k] == x;
        ParentRowWritten(cs, createdAt, js[k]);
      }
      if x in rows && ChildOf(x, p) {
        var j := ChildRowSource(cs, createdAt, p, x);
        var k :| 0 <= k < |js| && js[k] == j;
        assert s[k] == x;
      }
    }
    ChildrenExact(rows, p, s);
  }

  /** A category whose children are listed at positions `js`: the lookup names them in that order. */
  lemma ChildrenNamed(cs: seq<CategorySpec>, createdAt: string, p: string, js: seq<nat>, ids: seq<string>)
    requires DistinctIds(cs)
    requires ChildrenAt(cs, p, js)
    requires NamedAt(cs, js, ids)
    ensures var children := GetCategoryChildren(HierarchyRows(cs, createdAt), p);
      |children| == |ids| && forall k :: 0 <= k < |ids| ==> ChildId(children[k]) == Str(ids[k])
  {
    ListedChildren(cs, createdAt, p, js);
    ChildRowsIds(cs, createdAt, js);
  }

  /** In a list shaped like the sample, audio, computers and mobile are the children of `electronics`. */
  lemma ElectronicsPositions(cs: seq<CategorySpec>)
    requires SampleShape(cs)
    ensures ChildrenAt(cs, "electronics", [3, 2, 4])
    ensures NamedAt(cs, [3, 2, 4], ["audio", "computers", "mobile"])
  {
    forall j | 0 <= j < |cs| && HasParent(cs[j]) && cs[j].parentId.value == "electronics"
      ensures j in [3, 2, 4]
    {
      assert cs[j].parentId.value[0] == 'e';
    }
  }

  /** In a list shaped like the sample, headphones and speakers are the children of `audio`. */
  lemma AudioPositions(cs: seq<CategorySpec>)
    requires SampleShape(cs)
    ensures ChildrenAt(cs, "audio", [7, 8])
    ensures NamedAt(cs, [7, 8], ["headphones", "speakers"])
  {
    forall j | 0 <= j < |cs| && HasParent(cs[j]) && cs[j].parentId.value == "audio"
      ensures j in [7, 8]
    {
      assert cs[j].parentId.value[0] == 'a';
    }
  }

  /** In a list shaped like the sample, desktops and laptops are the children of `computers`. */
  lemma ComputersPositions(cs: seq<CategorySpec>)
    requires SampleShape(cs)
    ensures ChildrenAt(cs, "computers", [6, 5])
    ensures NamedAt(cs, [6, 5], ["desktops", "laptops"])
  {
    forall j | 0 <= j < |cs| && HasParent(cs[j]) && cs[j].parentId.value == "computers"
      ensures j in [6, 5]
    {
      assert cs[j].parentId.value[0] == 'c';
    }
  }

  /** In a list shaped like the sample, mobile, laptops, desktops, headphones and speakers are no one's parent. */
  lemma LeafPositions(cs: seq<CategorySpec>, i: nat)
    requires SampleShape(cs) && 4 <= i <= 8
    ensures ChildrenAt(cs, cs[i].id, [])
  {
    forall j | 0 <= j < |cs| && HasParent(cs[j])
      ensures cs[j].parentId.value != cs[i].id
    {
      assert cs[j].parentId.value[0] != cs[i].id[0];
    }
  }

  /** In the sample, `electronics` has the children audio, computers and mobile, in that order. */
  lemma ElectronicsChildren(createdAt: string)
    ensures var children := GetCategoryChildren(HierarchyRows(SampleCategories, createdAt), "electronics");
      && |children| == 3
      && ChildId(children[0]) == Str("audio") && ChildId(children[1]) == Str("computers")
      && ChildId(children[2]) == Str("mobile")
  {
    SampleDistinct();
    SampleHasShape();
    ElectronicsPositions(SampleCategories);
    ChildrenNamed(SampleCategories, createdAt, "electronics", [3, 2, 4], ["audio", "computers", "mobile"]);
  }

  /** In the sample, `audio` has the children headphones and speakers, in that order. */
  lemma AudioChildren(createdAt: string)
    ensures var children := GetCategoryChildren(HierarchyRows(SampleCategories, createdAt), "audio");
      && |children| == 2
      && ChildId(children[0]) == Str("headphones") && ChildId(children[1]) == Str("speakers")
  {
    SampleDistinct();
    SampleHasShape();
    AudioPositions(SampleCategories);
    ChildrenNamed(SampleCategories, createdAt, "audio", [7, 8], ["headphones", "speakers"]);
  }

  /** In the sample, `computers` has the children desktops and laptops, in that order. */
  lemma ComputersChildren(createdAt: string)
    ensures var children := GetCategoryChildren(HierarchyRows(SampleCategories, createdAt), "computers");
      && |children| == 2
      && ChildId(children[0]) == Str("desktops") && ChildId(children[1]) == Str("laptops")
  {
    SampleDistinct();
    SampleHasShape();
    ComputersPositions(SampleCategories);
    ChildrenNamed(SampleCategories, createdAt, "computers", [6, 5], ["desktops", "laptops"]);
  }

  /** In the sample, mobile, laptops, desktops, headphones and speakers have no children. */
  lemma SampleLeaf(createdAt: string, i: nat)
    requires 4 <= i <= 8
    ensures GetCategoryChildren(HierarchyRows(SampleCategories, createdAt), SampleCategories[i].id) == []
  {
    SampleDistinct();
    SampleHasShape();
    LeafPositions(SampleCategories, i);
    ListedChildren(SampleCategories, createdAt, SampleCategories[i].id, []);
  }

  /** The leaves of the sample by name. */
  lemma SampleLeaves(createdAt: string)
    ensures var rows := HierarchyRows(SampleCategories, createdAt);
      && GetCategoryChildren(rows, "mobile") == [] && GetCategoryChildren(rows, "laptops") == []
      && GetCategoryChildren(rows, "desktops") == [] && GetCategoryChildren(rows, "headphones") == []
      && GetCategoryChildren(rows, "speakers") == []
  {
    SampleHasShape();
    SampleLeaf(createdAt, 4);
    SampleLeaf(createdAt, 5);
    SampleLeaf(createdAt, 6);
    SampleLeaf(createdAt, 7);
    SampleLeaf(createdAt, 8);
  }

  /** The listing below a category without children is empty. */
  lemma LeafDescendants(rows: seq<Row>, v: Value, h: nat)
    requires GetCategoryChildren(rows, Interpolated(v)) == []
    ensures Descendants(rows, v, h) == []
  {
  }

  /** The listing below a category with two children: each child, then what is below it. */
  lemma ListingOfTwo(rows: seq<Row>, v: Value, h: nat, ids: seq<Value>, below0: seq<Value>, below1: seq<Value>)
    requires var children := GetCategoryChildren(rows, Interpolated(v));
      |children| == 2 && |ids| == 2 && ChildId(children[0]) == ids[0] && ChildId(children[1]) == ids[1]
    requires Descendants(rows, ids[0], h) == below0
    requires Descendants(rows, ids[1], h) == below1
    ensures Descendants(rows, v, h + 1) == [ids[0]] + below0 + [ids[1]] + below1
  {
    var children := GetCategoryChildren(rows, Interpolated(v));
    assert DescendantsOf(rows, children, 1, h) == [ids[0]] + below0;
  }

  /** The listing below a category with three children: each child, then what is below it. */
  lemma ListingOfThree(rows: seq<Row>, v: Value, h: nat, ids: seq<Value>,
                       below0: seq<Value>, below1: seq<Value>, below2: seq<Value>)
    requires var children := GetCategoryChildren(rows, Interpolated(v));
      && |children| == 3 && |ids| == 3
      && ChildId(children[0]) == ids[0] && ChildId(children[1]) == ids[1] && ChildId(children[2]) == ids[2]
    requires Descendants(rows, ids[0], h) == below0
    requires Descendants(rows, ids[1], h) == below1
    requires Descendants(rows, ids[2], h) == below2
    ensures Descendants(rows, v, h + 1) == [ids[0]] + below0 + [ids[1]] + below1 + [ids[2]] + below2
  {
    var children := GetCategoryChildren(rows, Interpolated(v));
    assert DescendantsOf(rows, children, 1, h) == [ids[0]] + below0;
    assert DescendantsOf(rows, children, 2, h) == [ids[0]] + below0 + [ids[1]] + below1;
  }

  /**
   * Any table whose children lookups have the sample's shape below `electronics` lists, with
   * at least two levels of room: audio, headphones, speakers, computers, desktops, laptops,
   * mobile.
   */
  lemma ElectronicsListing(rows: seq<Row>, h: nat)
    requires var children := GetCategoryChildren(rows, "electronics");
      && |children| == 3
      && ChildId(children[0]) == Str("audio") && ChildId(children[1]) == Str("computers")
      && ChildId(children[2]) == Str("mobile")
    requires var children := GetCategoryChildren(rows, "audio");
      && |children| == 2
      && ChildId(children[0]) == Str("headphones") && ChildId(children[1]) == Str("speakers")
    requires var children := GetCategoryChildren(rows, "computers");
      && |children| == 2
      && ChildId(children[0]) == Str("desktops") && ChildId(children[1]) == Str("laptops")
    requires GetCategoryChildren(rows, "mobile") == [] && GetCategoryChildren(rows, "laptops") == []
    requires GetCategoryChildren(rows, "desktops") == [] && GetCategoryChildren(rows, "headphones") == []
    requires GetCategoryChildren(rows, "speakers") == []
    ensures Descendants(rows, Str("electronics"), h + 2)
         == [Str("audio"), Str("headphones"), Str("speakers"), Str("computers"), Str("desktops"), Str("laptops"), Str("mobile")]
  {
    LeafDescendants(rows, Str("headphones"), h);
    LeafDescendants(rows, Str("speakers"), h);
    LeafDescendants(rows, Str("desktops"), h);
    LeafDescendants(rows, Str("laptops"), h);
    LeafDescendants(rows, Str("mobile"), h + 1);
    ListingOfTwo(rows, Str("audio"), h, [Str("headphones"), Str("speakers")], [], []);
    ListingOfTwo(rows, Str("computers"), h, [Str("desktops"), Str("laptops")], [], []);
    ListingOfThree(rows, Str("electronics"), h + 1, [Str("audio"), Str("computers"), Str("mobile")],
      [Str("headphones"), Str("speakers")], [Str("desktops"), Str("laptops")], []);
  }

  /** The hierarchy below `electronics` in the sample table is bounded, so the recursion ends. */
  lemma ElectronicsBounded(createdAt: string)
    ensures Bounded(HierarchyRows(SampleCategories, createdAt), Str("electronics"), 11)
  {
    SampleRoots();
    SampleDistinct();
    SampleParentsEarlier();
    SampleHasShape();
    HierarchyBounded(SampleCategories, createdAt, 0);
  }

  /**
   * On the sample table, `getAllCategoryDescendants('electronics')` lists its seven
   * descendants, each once, every child right before its own descendants: audio, headphones,
   * speakers, computers, desktops, laptops, mobile.
   */
  lemma ElectronicsDescendants(createdAt: string)
    ensures Descendants(HierarchyRows(SampleCategories, createdAt), Str("electronics"), 11)
         == [Str("audio"), Str("headphones"), Str("speakers"), Str("computers"), Str("desktops"), Str("laptops"), Str("mobile")]
  {
    ElectronicsChildren(createdAt);
    AudioChildren(createdAt);
    ComputersChildren(createdAt);
    SampleLeaves(createdAt);
    ElectronicsListing(HierarchyRows(SampleCategories, createdAt), 9);
  }
}
