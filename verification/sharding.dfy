/**
 * Write sharding for a busy user (`WriteShardingExample`, src/write-sharding.ts). Each
 * activity goes to one of `numShards` partitions `USER#<id>#SHARD<k>`, picked at random; a
 * read queries every shard partition, concatenates the answers in shard order and sorts the
 * activities most recent first.
 *
 * `Math.random()` is the parameter `draw`, a real in [0, 1); each clock reading is a
 * parameter too.
 */
module Sharding {
  import opened Wrappers
  import opened Text
  import opened Store
  import opened Batching

  // ---------------------------------------------------------------------------
  // Shard keys
  // ---------------------------------------------------------------------------

  const ShardTag: string := "#SHARD"

  /** `Math.floor(Math.random() * numShards)` for the draw `draw`. */
  function ShardIndex(numShards: int, draw: real): int
  {
    (draw * numShards as real).Floor
  }

  /** With at least one shard the index names one of them; with none it is 0. */
  lemma ShardIndexRange(numShards: int, draw: real)
    requires 0.0 <= draw < 1.0
    ensures numShards >= 1 ==> 0 <= ShardIndex(numShards, draw) < numShards
    ensures numShards == 0 ==> ShardIndex(numShards, draw) == 0
  {
    var n := numShards as real;
    if numShards >= 1 {
      assert 0.0 <= draw * n;
      assert draw * n < n by {
        assert (1.0 - draw) * n > 0.0;
      }
    }
  }

  /** The partition key of shard `k` of `baseKey`: `${baseKey}#SHARD${k}`. */
  function ShardKeyAt(baseKey: string, k: int): string
  {
    baseKey + ShardTag + IntToString(k)
  }

  /** `getShardKey`: the partition key of the shard the draw picks. */
  function GetShardKey(baseKey: string, numShards: int, draw: real): (key: string)
    requires 0.0 <= draw < 1.0
    ensures exists k :: (numShards >= 1 ==> 0 <= k < numShards) && key == ShardKeyAt(baseKey, k)
  {
    ShardIndexRange(numShards, draw);
    ShardKeyAt(baseKey, ShardIndex(numShards, draw))
  }

  /**
   * `pk.split('#SHARD')`: when the base key does not contain `#SHARD`, a shard key splits into
   * the base key and the decimal shard number, which reads back as the shard index.
   */
  lemma SplitShardKey(baseKey: string, k: nat)
    requires forall j :: !OccursAt(baseKey, ShardTag, j)
    ensures Split(ShardKeyAt(baseKey, k), ShardTag) == [baseKey, IntToString(k)]
    ensures ParseNat(Split(ShardKeyAt(baseKey, k), ShardTag)[1]) == k
  {
    assert HeadUnique(ShardTag);
    SplitJoined(baseKey, ShardTag, IntToString(k));
    ParseNatToString(k);
  }

  /** Different shards of one base key have different partition keys. */
  lemma ShardKeysDistinct(baseKey: string, k1: int, k2: int)
    requires ShardKeyAt(baseKey, k1) == ShardKeyAt(baseKey, k2)
    ensures k1 == k2
  {
    var prefix := baseKey + ShardTag;
    assert IntToString(k1) == ShardKeyAt(baseKey, k1)[|prefix|..];
    assert IntToString(k2) == ShardKeyAt(baseKey, k2)[|prefix|..];
    IntToStringInjective(k1, k2);
  }

  // ---------------------------------------------------------------------------
  // Writing an activity
  // ---------------------------------------------------------------------------

  /**
   * The activity row: a shard of `USER#<userId>`, sort key `ACTIVITY#<now>`, and `Data` that is
   * `{userId, ...activity, timestamp}`: the activity's own fields override `userId`, and the
   * timestamp overrides both.
   */
  function ActivityRow(userId: string, activity: Document, numShards: int, draw: real, now: int, timestamp: int, createdAt: string): (r: Row)
    requires 0.0 <= draw < 1.0
    ensures exists k :: (numShards >= 1 ==> 0 <= k < numShards) && r.PK == ShardKeyAt("USER#" + userId, k)
    ensures "ACTIVITY#" <= r.SK && r.Type == "UserActivity"
    ensures Field(r.Data, "timestamp") == Num(timestamp)
    ensures "userId" !in activity ==> Field(r.Data, "userId") == Str(userId)
    ensures forall f :: f in activity && f != "timestamp" ==> Field(r.Data, f) == activity[f]
  {
    Row(GetShardKey("USER#" + userId, numShards, draw), "ACTIVITY#" + IntToString(now), "UserActivity",
      (map["userId" := Str(userId)] + activity)["timestamp" := Num(timestamp)],
      None, None, Some(createdAt), None)
  }

  /**
   * `writeUserActivity`: one put of the activity row. `now` is the `Date.now()` reading used in
   * the sort key, `timestamp` the reading stored in `Data.timestamp`, in milliseconds.
   */
  method WriteUserActivity(t: Table, userId: string, activity: Document, draw: real, now: int, timestamp: int, createdAt: string, numShards: int := 5)
    requires t.Valid() && 0.0 <= draw < 1.0
    modifies t
    ensures t.Valid()
    ensures t.rows == PutRow(old(t.rows), ActivityRow(userId, activity, numShards, draw, now, timestamp, createdAt))
  {
    var item := ActivityRow(userId, activity, numShards, draw, now, timestamp, createdAt);
    t.Put(item);
  }

  // ---------------------------------------------------------------------------
  // Reading all activities
  // ---------------------------------------------------------------------------

  /** The query of one shard: partition `USER#<userId>#SHARD<k>`, sort keys starting with `ACTIVITY#`. */
  function ShardQuery(rows: seq<Row>, userId: string, k: int): seq<Row>
  {
    QueryAll(rows, Primary, ShardKeyAt("USER#" + userId, k), "ACTIVITY#")
  }

  /** The answers of shards `0 .. n-1`, concatenated in shard order. */
  function FanOut(rows: seq<Row>, userId: string, n: int): seq<Row>
    decreases n
  {
    if n <= 0 then [] else FanOut(rows, userId, n - 1) + ShardQuery(rows, userId, n - 1)
  }

  /**
   * The fan-out returns exactly the table's activity rows stored under one of the user's
   * first `n` shards.
   */
  lemma {:induction false} FanOutMembers(rows: seq<Row>, userId: string, n: int, x: Row)
    ensures x in FanOut(rows, userId, n) <==>
      x in rows && "ACTIVITY#" <= x.SK && exists k :: 0 <= k < n && x.PK == ShardKeyAt("USER#" + userId, k)
    decreases n
  {
    if n > 0 {
      FanOutMembers(rows, userId, n - 1, x);
      var key := ShardKeyAt("USER#" + userId, n - 1);
      QueryAllMembers(rows, Primary, key, "ACTIVITY#");
      assert x in ShardQuery(rows, userId, n - 1) <==> x in rows && x.PK == key && "ACTIVITY#" <= x.SK;
      if x.PK == key && x in rows && "ACTIVITY#" <= x.SK {
        assert exists k :: 0 <= k < n && x.PK == ShardKeyAt("USER#" + userId, k);
      }
    }
  }

  /** `a.Data.timestamp` as a number; a missing or non-numeric timestamp counts as 0. */
  function TimeOf(x: Row): int
  {
    match Field(x.Data, "timestamp")
    case Num(n) => n
    case _ => 0
  }

  /** Most recent first: timestamps never increase along the sequence. */
  predicate MostRecentFirst(s: seq<Row>)
  {
    forall i, j :: 0 <= i < j < |s| ==> TimeOf(s[i]) >= TimeOf(s[j])
  }

  /** The queries the loop issues: shard `k` for each `k` from 0 up to `numShards - 1`. */
  method QueryShards(rows: seq<Row>, userId: string, numShards: int) returns (results: seq<seq<Row>>)
    ensures |results| == if numShards > 0 then numShards else 0
    ensures forall k :: 0 <= k < |results| ==> results[k] == ShardQuery(rows, userId, k)
  {
    results := [];
    var shardId := 0;
    while shardId < numShards
      invariant 0 <= shardId <= if numShards > 0 then numShards else 0
      invariant |results| == shardId
      invariant forall k :: 0 <= k < shardId ==> results[k] == ShardQuery(rows, userId, k)
    {
      var pk := "USER#" + userId + ShardTag + IntToString(shardId);
      results := results + [QueryAll(rows, Primary, pk, "ACTIVITY#")];
      shardId := shardId + 1;
    }
  }

  /** Concatenating the answers of the first `n` shards is the fan-out over `n` shards. */
  lemma {:induction false} FlattenShards(rows: seq<Row>, userId: string, results: seq<seq<Row>>, n: nat)
    requires n <= |results|
    requires forall k :: 0 <= k < |results| ==> results[k] == ShardQuery(rows, userId, k)
    ensures Flatten(results[..n]) == FanOut(rows, userId, n)
  {
    if n > 0 {
      FlattenShards(rows, userId, results, n - 1);
      assert results[..n][..n - 1] == results[..n - 1];
    }
  }

  /** Swaps the entry at `j` with its left neighbour; nothing else in the array changes. */
  method SwapDown(a: array<Row>, j: nat)
    requires 0 < j < a.Length
    modifies a
    ensures a[..] == old(a[..])[j - 1 := old(a[j])][j := old(a[j - 1])]
  {
    a[j - 1], a[j] := a[j], a[j - 1];
  }

  /** Sorting one more entry inserts it into the sort of those before it. */
  lemma SortByTimeSnoc(s: seq<Row>, i: nat)
    requires i < |s|
    ensures SortByTime(s[..i + 1]) == InsertByTime(s[i], SortByTime(s[..i]))
  {
    assert s[..i + 1][..i] == s[..i];
  }

  /** Places `x` before the first entry strictly older than it, so after every entry at least as recent. */
  function InsertByTime(x: Row, s: seq<Row>): seq<Row>
  {
    if s == [] then [x]
    else if TimeOf(s[0]) < TimeOf(x) then [x] + s
    else [s[0]] + InsertByTime(x, s[1..])
  }

  /** Placing `x` adds exactly `x` to the list. */
  lemma {:induction false} InsertByTimeCount(x: Row, s: seq<Row>)
    ensures multiset(InsertByTime(x, s)) == multiset(s) + multiset{x}
  {
    if s != [] && TimeOf(s[0]) >= TimeOf(x) {
      assert s == [s[0]] + s[1..];
      InsertByTimeCount(x, s[1..]);
    }
  }

  /**
   * The stable sort most recent first, as an insertion sort: each entry in turn, first to last,
   * placed after the entries already placed that are at least as recent.
   */
  function SortByTime(s: seq<Row>): (t: seq<Row>)
    ensures MostRecentFirst(t)
    ensures multiset(t) == multiset(s)
  {
    if s == [] then []
    else
      var front := s[..|s| - 1];
      assert s == front + [s[|s| - 1]];
      InsertByTimeSorted(s[|s| - 1], SortByTime(front));
      InsertByTimeCount(s[|s| - 1], SortByTime(front));
      InsertByTime(s[|s| - 1], SortByTime(front))
  }

  /** An entry at least as recent as every entry of a most-recent-first list can go in front. */
  lemma MostRecentCons(h: Row, t: seq<Row>)
    requires MostRecentFirst(t) && forall x :: x in t ==> TimeOf(h) >= TimeOf(x)
    ensures MostRecentFirst([h] + t)
  {
    var s := [h] + t;
    forall i, j | 0 <= i < j < |s| ensures TimeOf(s[i]) >= TimeOf(s[j]) {
      assert s[j] == t[j - 1];
      if i > 0 {
        assert s[i] == t[i - 1];
      }
    }
  }

  /** Dropping the first entry of a most-recent-first list leaves it most recent first. */
  lemma MostRecentTail(s: seq<Row>)
    requires s != [] && MostRecentFirst(s)
    ensures MostRecentFirst(s[1..])
  {
    forall i, j | 0 <= i < j < |s| - 1 ensures TimeOf(s[1..][i]) >= TimeOf(s[1..][j]) {
      assert s[1..][i] == s[i + 1] && s[1..][j] == s[j + 1];
    }
  }

  /** Inserting into a most-recent-first list keeps it most recent first. */
  lemma {:induction false} InsertByTimeSorted(x: Row, s: seq<Row>)
    requires MostRecentFirst(s)
    ensures MostRecentFirst(InsertByTime(x, s))
  {
    if s == [] {
    } else if TimeOf(s[0]) < TimeOf(x) {
      forall y | y in s ensures TimeOf(x) >= TimeOf(y) {
        var k :| 0 <= k < |s| && s[k] == y;
      }
      MostRecentCons(x, s);
    } else {
      MostRecentTail(s);
      InsertByTimeSorted(x, s[1..]);
      InsertByTimeCount(x, s[1..]);
      var rest := InsertByTime(x, s[1..]);
      forall y | y in rest ensures TimeOf(s[0]) >= TimeOf(y) {
        assert y in multiset(rest);
        if y != x {
          var k :| 0 <= k < |s[1..]| && s[1..][k] == y;
          assert s[k + 1] == y;
        }
      }
      MostRecentCons(s[0], rest);
    }
  }

  /** The entries of `s` whose timestamp is `t`, in their order in `s`. */
  function AtTime(s: seq<Row>, t: int): seq<Row>
  {
    if s == [] then [] else (if TimeOf(s[0]) == t then [s[0]] else []) + AtTime(s[1..], t)
  }

  lemma {:induction false} AtTimeAppend(a: seq<Row>, b: seq<Row>, t: int)
    ensures AtTime(a + b, t) == AtTime(a, t) + AtTime(b, t)
  {
    if a == [] {
      assert a + b == b;
    } else {
      var head := if TimeOf(a[0]) == t then [a[0]] else [];
      assert (a + b)[0] == a[0] && (a + b)[1..] == a[1..] + b;
      AtTimeAppend(a[1..], b, t);
      calc {
        AtTime(a + b, t);
        head + AtTime(a[1..] + b, t);
        head + (AtTime(a[1..], t) + AtTime(b, t));
        (head + AtTime(a[1..], t)) + AtTime(b, t);
      }
    }
  }

  /** A list none of whose entries has timestamp `t` has no entries at `t`. */
  lemma {:induction false} AtTimeNone(s: seq<Row>, t: int)
    requires forall k :: 0 <= k < |s| ==> TimeOf(s[k]) != t
    ensures AtTime(s, t) == []
  {
    if s != [] {
      AtTimeNone(s[1..], t);
    }
  }

  /** Inserting `x` puts it after every entry with the same timestamp. */
  lemma {:induction false} AtTimeInsert(x: Row, s: seq<Row>, t: int)
    requires MostRecentFirst(s)
    ensures AtTime(InsertByTime(x, s), t) == AtTime(s, t) + (if TimeOf(x) == t then [x] else [])
  {
    var only := if TimeOf(x) == t then [x] else [];
    if s == [] {
      assert [x][1..] == [];
    } else if TimeOf(s[0]) < TimeOf(x) {
      assert ([x] + s)[0] == x && ([x] + s)[1..] == s;
      if TimeOf(x) == t {
        forall k | 0 <= k < |s| ensures TimeOf(s[k]) != t {
          assert TimeOf(s[0]) >= TimeOf(s[k]);
        }
        AtTimeNone(s, t);
      }
    } else {
      var head := if TimeOf(s[0]) == t then [s[0]] else [];
      var rest := InsertByTime(x, s[1..]);
      MostRecentTail(s);
      AtTimeInsert(x, s[1..], t);
      assert ([s[0]] + rest)[0] == s[0] && ([s[0]] + rest)[1..] == rest;
      calc {
        AtTime(InsertByTime(x, s), t);
        AtTime([s[0]] + rest, t);
        head + AtTime(rest, t);
        head + (AtTime(s[1..], t) + only);
        (head + AtTime(s[1..], t)) + only;
        AtTime(s, t) + only;
      }
    }
  }

  /**
   * The sort is stable: the entries with any one timestamp come out in the order they went
   * in, as with the stable `Array.prototype.sort`.
   */
  lemma {:induction false} SortByTimeStable(s: seq<Row>, t: int)
    ensures AtTime(SortByTime(s), t) == AtTime(s, t)
  {
    if s != [] {
      var front, last := s[..|s| - 1], s[|s| - 1];
      var only := if TimeOf(last) == t then [last] else [];
      assert s == front + [last];
      assert AtTime([last], t) == only by {
        assert [last][1..] == [];
      }
      SortByTimeStable(front, t);
      AtTimeInsert(last, SortByTime(front), t);
      AtTimeAppend(front, [last], t);
      calc {
        AtTime(SortByTime(s), t);
        AtTime(InsertByTime(last, SortByTime(front)), t);
        AtTime(SortByTime(front), t) + only;
        AtTime(front, t) + only;
        AtTime(front + [last], t);
      }
    }
  }

  /**
   * `InsertByTime` places `x` after a run of entries at least as recent as `x` and before a
   * run of entries strictly older.
   */
  lemma {:induction false} InsertByTimeSplit(x: Row, p: seq<Row>, j: nat)
    requires j <= |p|
    requires forall k :: 0 <= k < j ==> TimeOf(p[k]) >= TimeOf(x)
    requires forall k :: j <= k < |p| ==> TimeOf(p[k]) < TimeOf(x)
    ensures InsertByTime(x, p) == p[..j] + [x] + p[j..]
  {
    if j == 0 {
      if p != [] {
        assert TimeOf(p[0]) < TimeOf(x);
      }
    } else {
      var tail := p[1..];
      assert TimeOf(p[0]) >= TimeOf(x);
      assert InsertByTime(x, p) == [p[0]] + InsertByTime(x, tail);
      forall k | 0 <= k < j - 1 ensures TimeOf(tail[k]) >= TimeOf(x) {
        assert tail[k] == p[k + 1];
      }
      forall k | j - 1 <= k < |tail| ensures TimeOf(tail[k]) < TimeOf(x) {
        assert tail[k] == p[k + 1];
      }
      InsertByTimeSplit(x, tail, j - 1);
      assert tail[..j - 1] == p[1..j] && tail[j - 1..] == p[j..];
      assert [p[0]] + p[1..j] == p[..j];
    }
  }

  /**
   * Where the sinking of `x` stops: after the entries of the sorted prefix `p` at least as
   * recent as `x`, before those strictly older, which is where `InsertByTime` places it.
   */
  lemma InsertByTimeAt(x: Row, p: seq<Row>, j: nat)
    requires MostRecentFirst(p) && j <= |p|
    requires j == 0 || TimeOf(p[j - 1]) >= TimeOf(x)
    requires forall k :: j <= k < |p| ==> TimeOf(p[k]) < TimeOf(x)
    ensures InsertByTime(x, p) == p[..j] + [x] + p[j..]
  {
    forall k | 0 <= k < j ensures TimeOf(p[k]) >= TimeOf(x) {
      assert TimeOf(p[k]) >= TimeOf(p[j - 1]);
    }
    InsertByTimeSplit(x, p, j);
  }

  /** One swap of the sinking entry `x` with the strictly older entry on its left. */
  lemma SinkStep(p: seq<Row>, x: Row, r: seq<Row>, j: nat)
    requires 0 < j <= |p|
    ensures (p[..j] + [x] + p[j..] + r)[j - 1 := x][j := p[j - 1]] == p[..j - 1] + [x] + p[j - 1..] + r
  {
    var before := (p[..j] + [x] + p[j..] + r)[j - 1 := x][j := p[j - 1]];
    var after := p[..j - 1] + [x] + p[j - 1..] + r;
    assert |before| == |after|;
    forall k | 0 <= k < |after| ensures before[k] == after[k] {
      if k < j - 1 {
      } else if k == j - 1 {
      } else if k == j {
      } else if k <= |p| {
        assert after[k] == p[k - 1];
      } else {
        assert after[k] == r[k - |p| - 1];
      }
    }
  }

  /**
   * One step of the insertion sort: the entry at `i` moves left past the entries strictly
   * older than it. The first `i + 1` entries become that entry inserted into the sorted prefix
   * before it; the entries after `i` stay where they are.
   */
  method InsertAt(a: array<Row>, i: nat)
    requires i < a.Length && MostRecentFirst(a[..i])
    modifies a
    ensures a[..i + 1] == InsertByTime(old(a[i]), old(a[..i]))
    ensures a[i + 1..] == old(a[i + 1..])
  {
    ghost var p, x, r := a[..i], a[i], a[i + 1..];
    assert a[..] == p[..i] + [x] + p[i..] + r;
    var j := i;
    while j > 0 && TimeOf(a[j - 1]) < TimeOf(a[j])
      invariant 0 <= j <= i
      invariant a[..] == p[..j] + [x] + p[j..] + r
      invariant forall k :: j <= k < i ==> TimeOf(p[k]) < TimeOf(x)
    {
      assert a[j - 1] == p[j - 1] && a[j] == x;
      SinkStep(p, x, r, j);
      SwapDown(a, j);
      j := j - 1;
    }
    assert a[j] == x && (j > 0 ==> a[j - 1] == p[j - 1]);
    InsertByTimeAt(x, p, j);
    ghost var placed := p[..j] + [x] + p[j..];
    assert |placed| == i + 1 && a[..] == placed + r;
    assert a[..i + 1] == a[..][..i + 1] == placed;
    assert a[i + 1..] == a[..][i + 1..] == r;
  }

  /**
   * The in-place sort `allActivities.sort((a, b) => timeB - timeA)`: the array ends as the
   * stable sort of its old contents, most recent first.
   */
  method SortMostRecentFirst(a: array<Row>)
    modifies a
    ensures a[..] == SortByTime(old(a[..]))
    ensures MostRecentFirst(a[..]) && multiset(a[..]) == multiset(old(a[..]))
  {
    ghost var s := a[..];
    for i := 0 to a.Length
      invariant a[..i] == SortByTime(s[..i])
      invariant a[i..] == s[i..]
    {
      assert a[i] == s[i];
      SortByTimeSnoc(s, i);
      InsertAt(a, i);
      assert s[i + 1..] == s[i..][1..];
    }
    assert a[..a.Length] == a[..] && s[..a.Length] == s;
  }

  /**
   * `getUserActivities`: query every shard, concatenate the answers in shard order, and sort
   * them most recent first. The result is the stable sort of the fan-out: it holds every
   * activity exactly as often as the fan-out does, and activities with the same timestamp keep
   * their fan-out order.
   */
  method GetUserActivities(rows: seq<Row>, userId: string, numShards: int := 5) returns (activities: seq<Row>)
    ensures activities == SortByTime(FanOut(rows, userId, numShards))
    ensures multiset(activities) == multiset(FanOut(rows, userId, numShards))
    ensures MostRecentFirst(activities)
    ensures forall t :: AtTime(activities, t) == AtTime(FanOut(rows, userId, numShards), t)
  {
    var results := QueryShards(rows, userId, numShards);
    var allActivities := Flatten(results);
    FlattenShards(rows, userId, results, |results|);
    assert results[..|results|] == results;
    assert allActivities == FanOut(rows, userId, numShards) by {
      if numShards <= 0 {
        assert results == [];
      }
    }
    var a := new Row[|allActivities|](i requires 0 <= i < |allActivities| => allActivities[i]);
    assert a[..] == allActivities;
    SortMostRecentFirst(a);
    activities := a[..];
    forall t ensures AtTime(activities, t) == AtTime(allActivities, t) {
      SortByTimeStable(allActivities, t);
    }
  }

  /**
   * An activity written for a user with `numShards` shards is among the activities a read for
   * that user with the same shard count returns.
   */
  lemma WrittenActivityIsRead(rows: seq<Row>, userId: string, activity: Document, numShards: int, draw: real,
                              now: int, timestamp: int, createdAt: string, activities: seq<Row>)
    requires 0.0 <= draw < 1.0 && numShards >= 1
    requires multiset(activities) ==
      multiset(FanOut(PutRow(rows, ActivityRow(userId, activity, numShards, draw, now, timestamp, createdAt)), userId, numShards))
    ensures ActivityRow(userId, activity, numShards, draw, now, timestamp, createdAt) in activities
  {
    var item := ActivityRow(userId, activity, numShards, draw, now, timestamp, createdAt);
    var after := PutRow(rows, item);
    assert item in after;
    FanOutMembers(after, userId, numShards, item);
    assert item in multiset(activities);
  }
}
