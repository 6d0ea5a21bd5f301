/**
 * The single table, replaced by an in-memory model. A row is shaped like `BaseItem`
 * (src/types.ts): partition key `PK`, sort key `SK`, a `Type` tag, a `Data` payload, an
 * optional GSI1 projection and optional timestamps. Reads are pure functions of the
 * table's rows; writes go through the class `Table` at the end of this module.
 */
module Store {
  import opened Wrappers
  import opened Text

  // ---------------------------------------------------------------------------
  // Rows
  // ---------------------------------------------------------------------------

  /**
   * A payload value as the document client hands it back. `Data: any` holds strings,
   * numbers and null; reading a field that is not there yields `Undefined`.
   */
  datatype Value = Undefined | Null | Str(s: string) | Num(n: int)

  /** A payload object: field name to value. */
  type Document = map<string, Value>

  /** `d.name` in JavaScript. */
  function Field(d: Document, name: string): Value
  {
    if name in d then d[name] else Undefined
  }

  /** `${v}` in a template literal. */
  function Interpolated(v: Value): string
  {
    match v
    case Undefined => "undefined"
    case Null => "null"
    case Str(s) => s
    case Num(n) => IntToString(n)
  }

  datatype Row = Row(
    PK: string,
    SK: string,
    Type: string,
    Data: Document,
    GSI1PK: Option<string>,
    GSI1SK: Option<string>,
    CreatedAt: Option<string>,
    UpdatedAt: Option<string>)

  /** The primary key of a row, which is all a key-only scan projects. */
  datatype Key = Key(PK: string, SK: string)

  function KeyOf(r: Row): Key
  {
    Key(r.PK, r.SK)
  }

  /** No two rows share a primary key: the table's invariant. */
  predicate UniqueKeys(rows: seq<Row>)
  {
    forall i, j :: 0 <= i < j < |rows| ==> KeyOf(rows[i]) != KeyOf(rows[j])
  }

  // ---------------------------------------------------------------------------
  // Queries
  // ---------------------------------------------------------------------------

  /** The two orderings a query can read: the table itself and the index GSI1. */
  datatype Index = Primary | Gsi1

  /** The (partition, sort) pair a row is stored under in `idx`; none when it is not projected there. */
  function KeyIn(r: Row, idx: Index): Option<(string, string)>
  {
    match idx
    case Primary => Some((r.PK, r.SK))
    case Gsi1 =>
      if r.GSI1PK.Some? && r.GSI1SK.Some? then Some((r.GSI1PK.value, r.GSI1SK.value)) else None
  }

  /** The key condition `pk = :pk AND begins_with(sk, :sk)`. */
  predicate Matches(r: Row, idx: Index, pk: string, prefix: string)
  {
    KeyIn(r, idx).Some? && KeyIn(r, idx).value.0 == pk && prefix <= KeyIn(r, idx).value.1
  }

  function SortKey(r: Row, idx: Index): string
  {
    if KeyIn(r, idx).Some? then KeyIn(r, idx).value.1 else ""
  }

  /** The rows that satisfy a key condition, in table order. */
  function Matching(rows: seq<Row>, idx: Index, pk: string, prefix: string): (hits: seq<Row>)
    ensures forall x :: x in hits <==> x in rows && Matches(x, idx, pk, prefix)
    ensures forall x :: multiset(hits)[x] == if Matches(x, idx, pk, prefix) then multiset(rows)[x] else 0
  {
    if rows == [] then []
    else
      assert rows == [rows[0]] + rows[1..];
      (if Matches(rows[0], idx, pk, prefix) then [rows[0]] else []) + Matching(rows[1..], idx, pk, prefix)
  }

  /** The rows whose `Type` is `tag`, in their original order. */
  function OfType(items: seq<Row>, tag: string): (hits: seq<Row>)
    ensures forall x :: x in hits <==> x in items && x.Type == tag
    ensures forall x :: multiset(hits)[x] == if x.Type == tag then multiset(items)[x] else 0
  {
    if items == [] then []
    else
      assert items == [items[0]] + items[1..];
      (if items[0].Type == tag then [items[0]] else []) + OfType(items[1..], tag)
  }

  predicate Ascending(s: seq<Row>, idx: Index)
  {
    forall i, j :: 0 <= i < j < |s| ==> Below(SortKey(s[i], idx), SortKey(s[j], idx))
  }

  predicate Descending(s: seq<Row>, idx: Index)
  {
    forall i, j :: 0 <= i < j < |s| ==> Below(SortKey(s[j], idx), SortKey(s[i], idx))
  }

  /** `ScanIndexForward`: true reads the sort keys ascending, false descending. */
  predicate InOrder(s: seq<Row>, idx: Index, forward: bool)
  {
    if forward then Ascending(s, idx) else Descending(s, idx)
  }

  /** Places `r` before the first row whose sort key is not below its own. */
  function Insert(r: Row, s: seq<Row>, idx: Index): (t: seq<Row>)
    ensures multiset(t) == multiset(s) + multiset{r}
  {
    if s == [] then [r]
    else if Below(SortKey(r, idx), SortKey(s[0], idx)) then [r] + s
    else
      assert s == [s[0]] + s[1..];
      [s[0]] + Insert(r, s[1..], idx)
  }

  lemma AscendingTail(s: seq<Row>, idx: Index)
    requires s != [] && Ascending(s, idx)
    ensures Ascending(s[1..], idx)
  {
    forall i, j | 0 <= i < j < |s| - 1 ensures Below(SortKey(s[1..][i], idx), SortKey(s[1..][j], idx)) {
      assert s[1..][i] == s[i + 1] && s[1..][j] == s[j + 1];
    }
  }

  lemma AscendingCons(h: Row, t: seq<Row>, idx: Index)
    requires Ascending(t, idx)
    requires forall x :: x in t ==> Below(SortKey(h, idx), SortKey(x, idx))
    ensures Ascending([h] + t, idx)
  {
    var s := [h] + t;
    forall i, j | 0 <= i < j < |s| ensures Below(SortKey(s[i], idx), SortKey(s[j], idx)) {
      assert s[j] == t[j - 1];
      if i > 0 {
        assert s[i] == t[i - 1];
      }
    }
  }

  /** Filtering by type keeps the order of what it filters: an ascending read stays ascending. */
  lemma {:induction false} OfTypeAscending(s: seq<Row>, tag: string, idx: Index)
    requires Ascending(s, idx)
    ensures Ascending(OfType(s, tag), idx)
  {
    if s != [] {
      AscendingTail(s, idx);
      OfTypeAscending(s[1..], tag, idx);
      if s[0].Type == tag {
        forall x | x in OfType(s[1..], tag) ensures Below(SortKey(s[0], idx), SortKey(x, idx)) {
          var k :| 0 <= k < |s[1..]| && s[1..][k] == x;
          assert s[k + 1] == x;
        }
        AscendingCons(s[0], OfType(s[1..], tag), idx);
      }
    }
  }

  lemma InsertMembers(r: Row, s: seq<Row>, idx: Index)
    ensures forall x :: x in Insert(r, s, idx) ==> x == r || x in s
  {
    forall x | x in Insert(r, s, idx) ensures x == r || x in s {
      assert x in multiset(Insert(r, s, idx));
    }
  }

  lemma {:induction false} InsertAscending(r: Row, s: seq<Row>, idx: Index)
    requires Ascending(s, idx)
    ensures Ascending(Insert(r, s, idx), idx)
  {
    if s == [] {
    } else if Below(SortKey(r, idx), SortKey(s[0], idx)) {
      forall x | x in s ensures Below(SortKey(r, idx), SortKey(x, idx)) {
        var j :| 0 <= j < |s| && s[j] == x;
        if j > 0 {
          BelowTransitive(SortKey(r, idx), SortKey(s[0], idx), SortKey(x, idx));
        }
      }
      AscendingCons(r, s, idx);
    } else {
      AscendingTail(s, idx);
      InsertAscending(r, s[1..], idx);
      InsertMembers(r, s[1..], idx);
      BelowTotal(SortKey(r, idx), SortKey(s[0], idx));
      forall x | x in Insert(r, s[1..], idx) ensures Below(SortKey(s[0], idx), SortKey(x, idx)) {
        if x != r {
          var k :| 0 <= k < |s[1..]| && s[1..][k] == x;
          assert s[k + 1] == x;
        }
      }
      AscendingCons(s[0], Insert(r, s[1..], idx), idx);
    }
  }

  /** Orders rows by their sort key in `idx`; rows with equal keys keep their table order. */
  function SortRows(s: seq<Row>, idx: Index): (t: seq<Row>)
    ensures Ascending(t, idx)
    ensures multiset(t) == multiset(s)
  {
    if s == [] then []
    else
      assert s == [s[0]] + s[1..];
      InsertAscending(s[0], SortRows(s[1..], idx), idx);
      Insert(s[0], SortRows(s[1..], idx), idx)
  }

  function Reverse(s: seq<Row>): (t: seq<Row>)
    ensures |t| == |s| && forall i :: 0 <= i < |s| ==> t[i] == s[|s| - 1 - i]
    ensures multiset(t) == multiset(s)
  {
    if s == [] then []
    else
      assert s == [s[0]] + s[1..];
      Reverse(s[1..]) + [s[0]]
  }

  function Min(a: nat, b: nat): nat
  {
    if a <= b then a else b
  }

  /** `Limit`: the first `limit` rows read, or all of them. */
  function Take(s: seq<Row>, limit: Option<nat>): (t: seq<Row>)
    ensures limit.None? ==> t == s
    ensures limit.Some? ==> |t| == Min(limit.value, |s|)
    ensures t == s[..|t|]
  {
    if limit.Some? && limit.value < |s| then s[..limit.value] else s
  }

  /** Whether `x` is read before `y` in the direction of the query. */
  predicate ReadBefore(x: Row, y: Row, idx: Index, forward: bool)
  {
    if forward then Below(SortKey(x, idx), SortKey(y, idx)) else Below(SortKey(y, idx), SortKey(x, idx))
  }

  /** The rows matching a key condition in the order the query reads them. */
  function Ordered(rows: seq<Row>, idx: Index, pk: string, prefix: string, forward: bool): (s: seq<Row>)
    ensures InOrder(s, idx, forward)
    ensures multiset(s) == multiset(Matching(rows, idx, pk, prefix))
  {
    var sorted := SortRows(Matching(rows, idx, pk, prefix), idx);
    if forward then sorted else Reverse(sorted)
  }

  /** Cutting a read at a limit keeps its order and drops only rows read after the kept ones. */
  lemma TakeOrdered(s: seq<Row>, limit: Option<nat>, idx: Index, forward: bool)
    requires InOrder(s, idx, forward)
    ensures InOrder(Take(s, limit), idx, forward)
    ensures multiset(Take(s, limit)) <= multiset(s)
    ensures forall x, y :: x in Take(s, limit) && y in multiset(s) - multiset(Take(s, limit)) ==> ReadBefore(x, y, idx, forward)
  {
    var t := Take(s, limit);
    var rest := s[|t|..];
    assert s == t + rest;
    assert multiset(s) == multiset(t) + multiset(rest);
    forall x, y | x in t && y in multiset(s) - multiset(t)
      ensures ReadBefore(x, y, idx, forward)
    {
      assert y in multiset(rest);
      var i :| 0 <= i < |t| && t[i] == x;
      var j :| 0 <= j < |rest| && rest[j] == y;
      assert s[i] == x && s[|t| + j] == y;
    }
  }

  /**
   * A query: the rows of partition `pk` in `idx` whose sort key begins with `prefix`, in
   * sort-key order (reversed when `forward` is false), cut to the first `limit` rows.
   * The read is complete: paging is not modelled.
   */
  function Query(rows: seq<Row>, idx: Index, pk: string, prefix: string, forward: bool, limit: Option<nat>): seq<Row>
  {
    Take(Ordered(rows, idx, pk, prefix, forward), limit)
  }

  /**
   * A query reads only matching rows, in the requested order; without a limit it reads each
   * matching row once, and with one it reads as many as the limit allows, every unread
   * matching row coming after every read one.
   */
  lemma QueryReads(rows: seq<Row>, idx: Index, pk: string, prefix: string, forward: bool, limit: Option<nat>)
    ensures var r := Query(rows, idx, pk, prefix, forward, limit);
      && (forall x :: x in r ==> x in rows && Matches(x, idx, pk, prefix))
      && InOrder(r, idx, forward)
      && (limit.None? ==> multiset(r) == multiset(Matching(rows, idx, pk, prefix)))
      && (limit.Some? ==> |r| == Min(limit.value, |Matching(rows, idx, pk, prefix)|))
      && multiset(r) <= multiset(Matching(rows, idx, pk, prefix))
      && forall x, y :: x in r && y in multiset(Matching(rows, idx, pk, prefix)) - multiset(r) ==> ReadBefore(x, y, idx, forward)
  {
    var ordered := Ordered(rows, idx, pk, prefix, forward);
    TakeOrdered(ordered, limit, idx, forward);
    var r := Take(ordered, limit);
    assert |ordered| == |multiset(ordered)| == |Matching(rows, idx, pk, prefix)|;
    assert forall x :: x in r ==> x in multiset(Matching(rows, idx, pk, prefix)) by {
      forall x | x in r ensures x in multiset(Matching(rows, idx, pk, prefix)) {
        assert x in multiset(r);
      }
    }
  }

  /**
   * A complete query (no `Limit`) read forwards: each matching row, taken in table order, is
   * inserted into the rows already read, before the first one whose sort key is not below its own.
   */
  function QueryAll(rows: seq<Row>, idx: Index, pk: string, prefix: string): seq<Row>
  {
    if rows == [] then []
    else
      var rest := QueryAll(rows[1..], idx, pk, prefix);
      if Matches(rows[0], idx, pk, prefix) then Insert(rows[0], rest, idx) else rest
  }

  /** A complete query reads every matching row once, nothing else, in ascending sort-key order. */
  lemma {:induction false} QueryAllReads(rows: seq<Row>, idx: Index, pk: string, prefix: string)
    ensures var q := QueryAll(rows, idx, pk, prefix);
      && |q| == |Matching(rows, idx, pk, prefix)|
      && (forall x :: x in q <==> x in rows && Matches(x, idx, pk, prefix))
      && multiset(q) == multiset(Matching(rows, idx, pk, prefix))
      && Ascending(q, idx)
  {
    if rows != [] {
      var rest := QueryAll(rows[1..], idx, pk, prefix);
      QueryAllReads(rows[1..], idx, pk, prefix);
      assert rows == [rows[0]] + rows[1..];
      var q := QueryAll(rows, idx, pk, prefix);
      var hits := Matching(rows, idx, pk, prefix);
      if Matches(rows[0], idx, pk, prefix) {
        InsertAscending(rows[0], rest, idx);
        assert hits == [rows[0]] + Matching(rows[1..], idx, pk, prefix);
      } else {
        assert hits == Matching(rows[1..], idx, pk, prefix);
      }
      assert |q| == |multiset(q)| && |hits| == |multiset(hits)|;
      forall x
        ensures x in q <==> x in rows && Matches(x, idx, pk, prefix)
      {
        assert x in q <==> x in multiset(q);
      }
    }
  }

  /** What a complete query reads, without the count and the order. */
  lemma QueryAllMembers(rows: seq<Row>, idx: Index, pk: string, prefix: string)
    ensures forall x :: x in QueryAll(rows, idx, pk, prefix) <==> x in rows && Matches(x, idx, pk, prefix)
  {
    QueryAllReads(rows, idx, pk, prefix);
  }

  /** The complete query sorts the matching rows, equal keys in table order. */
  lemma {:induction false} QueryAllSorts(rows: seq<Row>, idx: Index, pk: string, prefix: string)
    ensures QueryAll(rows, idx, pk, prefix) == SortRows(Matching(rows, idx, pk, prefix), idx)
  {
    if rows != [] {
      QueryAllSorts(rows[1..], idx, pk, prefix);
      var hits := Matching(rows, idx, pk, prefix);
      if Matches(rows[0], idx, pk, prefix) {
        assert hits == [rows[0]] + Matching(rows[1..], idx, pk, prefix);
        assert hits[0] == rows[0] && hits[1..] == Matching(rows[1..], idx, pk, prefix);
      } else {
        assert hits == Matching(rows[1..], idx, pk, prefix);
      }
    }
  }

  /** `QueryAll` is the query with no `Limit`, read forwards. */
  lemma QueryAllIsQuery(rows: seq<Row>, idx: Index, pk: string, prefix: string)
    ensures QueryAll(rows, idx, pk, prefix) == Query(rows, idx, pk, prefix, true, None)
  {
    QueryAllSorts(rows, idx, pk, prefix);
  }

  /** The row a complete forward query reads first, found in one pass without sorting. */
  function FirstMatch(rows: seq<Row>, idx: Index, pk: string, prefix: string): Option<Row>
  {
    if rows == [] then None
    else
      var rest := FirstMatch(rows[1..], idx, pk, prefix);
      if !Matches(rows[0], idx, pk, prefix) then rest
      else if rest.None? || Below(SortKey(rows[0], idx), SortKey(rest.value, idx)) then Some(rows[0])
      else rest
  }

  /** `x` has the least sort key among the rows matching the key condition. */
  ghost predicate ReadFirst(rows: seq<Row>, idx: Index, pk: string, prefix: string, x: Row)
  {
    forall y :: y in rows && Matches(y, idx, pk, prefix) ==> Below(SortKey(x, idx), SortKey(y, idx))
  }

  /** The first row read exists exactly when some row matches, and no matching row sorts before it. */
  lemma {:induction false} FirstMatchLeast(rows: seq<Row>, idx: Index, pk: string, prefix: string)
    ensures FirstMatch(rows, idx, pk, prefix).None? <==> forall x :: x in rows ==> !Matches(x, idx, pk, prefix)
    ensures FirstMatch(rows, idx, pk, prefix).Some? ==>
      var first := FirstMatch(rows, idx, pk, prefix).value;
      first in rows && Matches(first, idx, pk, prefix) && ReadFirst(rows, idx, pk, prefix, first)
  {
    if rows != [] {
      var head := rows[0];
      var tail := rows[1..];
      FirstMatchLeast(tail, idx, pk, prefix);
      assert forall x :: x in rows <==> x == head || x in tail;
      var rest := FirstMatch(tail, idx, pk, prefix);
      var first := FirstMatch(rows, idx, pk, prefix);
      if Matches(head, idx, pk, prefix) {
        BelowReflexive(SortKey(head, idx));
        if rest.Some? {
          BelowReflexive(SortKey(rest.value, idx));
          if Below(SortKey(head, idx), SortKey(rest.value, idx)) {
            forall y | y in tail && Matches(y, idx, pk, prefix)
              ensures Below(SortKey(head, idx), SortKey(y, idx))
            {
              BelowTransitive(SortKey(head, idx), SortKey(rest.value, idx), SortKey(y, idx));
            }
          } else {
            BelowTotal(SortKey(head, idx), SortKey(rest.value, idx));
          }
        }
      }
    }
  }

  /** `FirstMatch` is the head of the complete query: `Items?.[0]`. */
  lemma {:induction false} FirstMatchIsFirstRead(rows: seq<Row>, idx: Index, pk: string, prefix: string)
    ensures var q := QueryAll(rows, idx, pk, prefix);
      FirstMatch(rows, idx, pk, prefix) == if q == [] then None else Some(q[0])
  {
    if rows != [] {
      FirstMatchIsFirstRead(rows[1..], idx, pk, prefix);
    }
  }

  /** A point read on the primary key: the row stored under (`pk`, `sk`), if any. */
  function Get(rows: seq<Row>, pk: string, sk: string): (found: Option<Row>)
    ensures found.Some? ==> found.value in rows && KeyOf(found.value) == Key(pk, sk)
    ensures found.None? <==> forall x :: x in rows ==> KeyOf(x) != Key(pk, sk)
  {
    if rows == [] then None
    else if KeyOf(rows[0]) == Key(pk, sk) then Some(rows[0])
    else
      assert forall x :: x in rows ==> x == rows[0] || x in rows[1..];
      Get(rows[1..], pk, sk)
  }

  /** A key-only scan (`ProjectionExpression: 'PK, SK'`): every row's primary key, in table order. */
  function ScanKeys(rows: seq<Row>): (keys: seq<Key>)
    ensures |keys| == |rows| && forall i :: 0 <= i < |rows| ==> keys[i] == KeyOf(rows[i])
  {
    if rows == [] then [] else [KeyOf(rows[0])] + ScanKeys(rows[1..])
  }

  // ---------------------------------------------------------------------------
  // Writes
  // ---------------------------------------------------------------------------

  /** The rows left after deleting primary key `k`; a delete of an absent key changes nothing. */
  function RemoveKey(rows: seq<Row>, k: Key): (rest: seq<Row>)
    ensures forall x :: x in rest <==> x in rows && KeyOf(x) != k
    ensures |rest| <= |rows|
  {
    if rows == [] then []
    else
      assert forall x :: x in rows ==> x == rows[0] || x in rows[1..];
      (if KeyOf(rows[0]) == k then [] else [rows[0]]) + RemoveKey(rows[1..], k)
  }

  /** A put replaces the row stored under the same primary key, or adds a new one. */
  function PutRow(rows: seq<Row>, item: Row): seq<Row>
  {
    RemoveKey(rows, KeyOf(item)) + [item]
  }

  /** One entry of a `BatchWriteCommand`'s `RequestItems`. */
  datatype WriteRequest = PutRequest(Item: Row) | DeleteRequest(Key: Key)

  function RequestKey(req: WriteRequest): Key
  {
    match req
    case PutRequest(item) => KeyOf(item)
    case DeleteRequest(k) => k
  }

  /** `{ PutRequest: { Item: item } }` for every item of a batch, in order. */
  function PutRequests(items: seq<Row>): seq<WriteRequest>
  {
    if items == [] then [] else [PutRequest(items[0])] + PutRequests(items[1..])
  }

  /** Request `i` of a batch of puts stores item `i`. */
  lemma {:induction false} PutRequestsIndex(items: seq<Row>)
    ensures |PutRequests(items)| == |items|
    ensures forall i :: 0 <= i < |items| ==> PutRequests(items)[i] == PutRequest(items[i])
  {
    if items != [] {
      PutRequestsIndex(items[1..]);
    }
  }

  /** `{ DeleteRequest: { Key: { PK, SK } } }` for every scanned key of a batch, in order. */
  function DeleteRequests(keys: seq<Key>): seq<WriteRequest>
  {
    if keys == [] then [] else [DeleteRequest(keys[0])] + DeleteRequests(keys[1..])
  }

  /** Request `i` of a batch of deletes removes key `i`. */
  lemma {:induction false} DeleteRequestsIndex(keys: seq<Key>)
    ensures |DeleteRequests(keys)| == |keys|
    ensures forall i :: 0 <= i < |keys| ==> DeleteRequests(keys)[i] == DeleteRequest(keys[i])
  {
    if keys != [] {
      DeleteRequestsIndex(keys[1..]);
    }
  }

  function Apply(rows: seq<Row>, req: WriteRequest): seq<Row>
  {
    match req
    case PutRequest(item) => PutRow(rows, item)
    case DeleteRequest(k) => RemoveKey(rows, k)
  }

  /** The table after the requests take effect one after another. */
  function ApplyAll(rows: seq<Row>, reqs: seq<WriteRequest>): seq<Row>
    decreases |reqs|
  {
    if reqs == [] then rows else ApplyAll(Apply(rows, reqs[0]), reqs[1..])
  }

  /** The most requests one `BatchWriteCommand` may carry. */
  const MaxBatchWrite := 25

  /** The store's validation of a batch: 1 to 25 requests, no primary key named twice. */
  predicate BatchAccepted(reqs: seq<WriteRequest>)
  {
    && 1 <= |reqs| <= MaxBatchWrite
    && forall i, j :: 0 <= i < j < |reqs| ==> RequestKey(reqs[i]) != RequestKey(reqs[j])
  }

  // ---------------------------------------------------------------------------
  // Facts about writes
  // ---------------------------------------------------------------------------

  lemma {:induction false} UniqueKeysCons(h: Row, t: seq<Row>)
    ensures UniqueKeys([h] + t) <==> (forall x :: x in t ==> KeyOf(x) != KeyOf(h)) && UniqueKeys(t)
  {
    var s := [h] + t;
    if UniqueKeys(s) {
      forall x | x in t ensures KeyOf(x) != KeyOf(h) {
        var j :| 0 <= j < |t| && t[j] == x;
        assert s[0] == h && s[j + 1] == x;
      }
      forall i, j | 0 <= i < j < |t| ensures KeyOf(t[i]) != KeyOf(t[j]) {
        assert s[i + 1] == t[i] && s[j + 1] == t[j];
      }
    }
    if (forall x :: x in t ==> KeyOf(x) != KeyOf(h)) && UniqueKeys(t) {
      forall i, j | 0 <= i < j < |s| ensures KeyOf(s[i]) != KeyOf(s[j]) {
        if i == 0 {
          assert s[j] in t;
        } else {
          assert s[i] == t[i - 1] && s[j] == t[j - 1];
        }
      }
    }
  }

  lemma {:induction false} RemoveKeyUnique(rows: seq<Row>, k: Key)
    requires UniqueKeys(rows)
    ensures UniqueKeys(RemoveKey(rows, k))
  {
    if rows != [] {
      assert rows == [rows[0]] + rows[1..];
      UniqueKeysCons(rows[0], rows[1..]);
      RemoveKeyUnique(rows[1..], k);
      if KeyOf(rows[0]) != k {
        UniqueKeysCons(rows[0], RemoveKey(rows[1..], k));
      }
    }
  }

  /** A put keeps the primary keys unique. */
  lemma PutRowUnique(rows: seq<Row>, item: Row)
    requires UniqueKeys(rows)
    ensures UniqueKeys(PutRow(rows, item))
  {
    var rest := RemoveKey(rows, KeyOf(item));
    RemoveKeyUnique(rows, KeyOf(item));
    var s := rest + [item];
    forall i, j | 0 <= i < j < |s| ensures KeyOf(s[i]) != KeyOf(s[j]) {
      if j == |rest| {
        assert s[i] in rest;
      } else {
        assert s[i] == rest[i] && s[j] == rest[j];
      }
    }
  }

  lemma {:induction false} ApplyAllUnique(rows: seq<Row>, reqs: seq<WriteRequest>)
    requires UniqueKeys(rows)
    ensures UniqueKeys(ApplyAll(rows, reqs))
    decreases |reqs|
  {
    if reqs != [] {
      match reqs[0] {
        case PutRequest(item) => PutRowUnique(rows, item);
        case DeleteRequest(k) => RemoveKeyUnique(rows, k);
      }
      ApplyAllUnique(Apply(rows, reqs[0]), reqs[1..]);
    }
  }

  /** Requests sent in two consecutive groups act as the whole sequence sent at once. */
  lemma {:induction false} ApplyAllAppend(rows: seq<Row>, a: seq<WriteRequest>, b: seq<WriteRequest>)
    ensures ApplyAll(rows, a + b) == ApplyAll(ApplyAll(rows, a), b)
    decreases |a|
  {
    if a == [] {
      assert a + b == b;
    } else {
      assert (a + b)[0] == a[0] && (a + b)[1..] == a[1..] + b;
      ApplyAllAppend(Apply(rows, a[0]), a[1..], b);
    }
  }

  /** Rows that do not carry the key do not change what a point read finds after them. */
  lemma {:induction false} GetSkip(front: seq<Row>, back: seq<Row>, pk: string, sk: string)
    requires forall x :: x in front ==> KeyOf(x) != Key(pk, sk)
    ensures Get(front + back, pk, sk) == Get(back, pk, sk)
  {
    if front == [] {
      assert front + back == back;
    } else {
      assert (front + back)[0] == front[0] && (front + back)[1..] == front[1..] + back;
      GetSkip(front[1..], back, pk, sk);
    }
  }

  /** After a put, a point read of the item's key returns the item. */
  lemma GetAfterPut(rows: seq<Row>, item: Row)
    ensures Get(PutRow(rows, item), item.PK, item.SK) == Some(item)
  {
    GetSkip(RemoveKey(rows, KeyOf(item)), [item], item.PK, item.SK);
  }

  /** A put leaves the rows stored under every other key as they were. */
  lemma {:induction false} GetOtherAfterPut(rows: seq<Row>, item: Row, pk: string, sk: string)
    requires Key(pk, sk) != KeyOf(item)
    ensures Get(PutRow(rows, item), pk, sk) == Get(rows, pk, sk)
  {
    if rows != [] {
      GetOtherAfterPut(rows[1..], item, pk, sk);
      var rest := RemoveKey(rows[1..], KeyOf(item));
      if KeyOf(rows[0]) == KeyOf(item) {
        assert PutRow(rows, item) == rest + [item];
      } else {
        assert PutRow(rows, item) == [rows[0]] + (rest + [item]);
      }
    }
  }

  /** Putting a row whose key the table does not hold appends it. */
  lemma PutFresh(rows: seq<Row>, item: Row)
    requires forall x :: x in rows ==> KeyOf(x) != KeyOf(item)
    ensures PutRow(rows, item) == rows + [item]
  {
    RemoveKeyAbsent(rows, KeyOf(item));
  }

  lemma AppendAssociative(a: seq<Row>, b: seq<Row>, c: seq<Row>)
    ensures a + b + c == a + (b + c)
  {
  }

  lemma ApplyPutRequestsCons(rows: seq<Row>, items: seq<Row>)
    requires items != []
    ensures ApplyAll(rows, PutRequests(items)) == ApplyAll(PutRow(rows, items[0]), PutRequests(items[1..]))
  {
    var reqs := PutRequests(items);
    assert reqs[0] == PutRequest(items[0]);
    assert reqs[1..] == PutRequests(items[1..]);
  }

  /** Putting rows with distinct keys into a table that holds none of their keys appends them. */
  lemma {:induction false} PutRequestsAppend(rows: seq<Row>, items: seq<Row>)
    requires UniqueKeys(items)
    requires forall x, y :: x in rows && y in items ==> KeyOf(x) != KeyOf(y)
    ensures ApplyAll(rows, PutRequests(items)) == rows + items
    decreases |items|
  {
    if items == [] {
      assert rows + items == rows;
    } else {
      var head, tail := items[0], items[1..];
      assert items == [head] + tail;
      var next := rows + [head];
      assert PutRow(rows, head) == next by {
        forall x | x in rows ensures KeyOf(x) != KeyOf(head) {
          assert head in items;
        }
        PutFresh(rows, head);
      }
      assert UniqueKeys(tail) && forall x, y :: x in next && y in tail ==> KeyOf(x) != KeyOf(y) by {
        UniqueKeysCons(head, tail);
        forall x, y | x in next && y in tail ensures KeyOf(x) != KeyOf(y) {
          if x != head {
            assert x in rows && y in items;
          }
        }
      }
      PutRequestsAppend(next, tail);
      ApplyPutRequestsCons(rows, items);
      AppendAssociative(rows, [head], tail);
    }
  }

  lemma PutRequestsConcat(a: seq<Row>, b: seq<Row>)
    ensures PutRequests(a + b) == PutRequests(a) + PutRequests(b)
  {
    PutRequestsIndex(a + b);
    PutRequestsIndex(a);
    PutRequestsIndex(b);
    assert |PutRequests(a + b)| == |PutRequests(a) + PutRequests(b)|;
  }

  /** Putting the items one after another, the last one on its own. */
  lemma ApplyPutsSnoc(rows: seq<Row>, items: seq<Row>, item: Row)
    ensures ApplyAll(rows, PutRequests(items + [item])) == PutRow(ApplyAll(rows, PutRequests(items)), item)
  {
    PutRequestsConcat(items, [item]);
    assert PutRequests([item]) == [PutRequest(item)];
    ApplyAllAppend(rows, PutRequests(items), [PutRequest(item)]);
  }

  lemma {:induction false} RemoveKeyAbsent(rows: seq<Row>, k: Key)
    requires forall x :: x in rows ==> KeyOf(x) != k
    ensures RemoveKey(rows, k) == rows
  {
    if rows != [] {
      RemoveKeyAbsent(rows[1..], k);
      assert rows == [rows[0]] + rows[1..];
    }
  }

  /** Deleting the key of the first row of a table with unique keys drops exactly that row. */
  lemma RemoveFirstKey(rows: seq<Row>)
    requires rows != [] && UniqueKeys(rows)
    ensures RemoveKey(rows, KeyOf(rows[0])) == rows[1..]
  {
    assert rows == [rows[0]] + rows[1..];
    UniqueKeysCons(rows[0], rows[1..]);
    RemoveKeyAbsent(rows[1..], KeyOf(rows[0]));
  }

  /**
   * Deleting, in order, the scanned keys of rows `lo` to `hi` from the part of the table that
   * starts at row `lo` leaves the part that starts at row `hi`.
   */
  lemma {:induction false} DeleteScannedRange(rows: seq<Row>, lo: nat, hi: nat)
    requires lo <= hi <= |rows| && UniqueKeys(rows)
    ensures ApplyAll(rows[lo..], DeleteRequests(ScanKeys(rows)[lo..hi])) == rows[hi..]
    decreases hi - lo
  {
    if lo < hi {
      var keys := ScanKeys(rows)[lo..hi];
      assert UniqueKeys(rows[lo..]) by {
        forall i, j | 0 <= i < j < |rows[lo..]| ensures KeyOf(rows[lo..][i]) != KeyOf(rows[lo..][j]) {
          assert rows[lo..][i] == rows[lo + i] && rows[lo..][j] == rows[lo + j];
        }
      }
      RemoveFirstKey(rows[lo..]);
      assert rows[lo..][1..] == rows[lo + 1..];
      assert DeleteRequests(keys)[0] == DeleteRequest(KeyOf(rows[lo]));
      assert DeleteRequests(keys)[1..] == DeleteRequests(ScanKeys(rows)[lo + 1..hi]);
      DeleteScannedRange(rows, lo + 1, hi);
    }
  }

  /** The scanned keys of a table with unique keys are distinct. */
  lemma ScanKeysDistinct(rows: seq<Row>, lo: nat, hi: nat)
    requires lo <= hi <= |rows| && UniqueKeys(rows)
    ensures forall i, j :: 0 <= i < j < hi - lo ==> ScanKeys(rows)[lo..hi][i] != ScanKeys(rows)[lo..hi][j]
  {
  }

  // ---------------------------------------------------------------------------
  // The table as mutable state
  // ---------------------------------------------------------------------------

  /** The store: a table whose rows the write calls replace. */
  class Table {
    var rows: seq<Row>

    ghost predicate Valid()
      reads this
    {
      UniqueKeys(rows)
    }

    constructor ()
      ensures Valid() && rows == []
    {
      rows := [];
    }

    /** `PutCommand`: store `item`, replacing any row with the same primary key. */
    method Put(item: Row)
      requires Valid()
      modifies this
      ensures Valid()
      ensures rows == PutRow(old(rows), item)
    {
      PutRowUnique(rows, item);
      rows := PutRow(rows, item);
    }

    /**
     * `BatchWriteCommand`: the store refuses a batch it does not accept and changes nothing;
     * otherwise every request takes effect.
     */
    method BatchWrite(reqs: seq<WriteRequest>) returns (accepted: bool)
      requires Valid()
      modifies this
      ensures Valid()
      ensures accepted == BatchAccepted(reqs)
      ensures rows == if accepted then ApplyAll(old(rows), reqs) else old(rows)
    {
      accepted := BatchAccepted(reqs);
      if accepted {
        ApplyAllUnique(rows, reqs);
        rows := ApplyAll(rows, reqs);
      }
    }
  }
}
