# DynamoDB adjacency list pattern, modelled in Dafny

This project models the core of a TypeScript example that stores a small e-commerce domain in a single DynamoDB table using the adjacency list pattern. Every row has a partition key `PK`, a sort key `SK`, a `Type` tag and a `Data` payload, and may also carry a projection into the secondary index `GSI1`.

- **Entity rows** have `PK == SK`, for example `USER#<id>` / `USER#<id>`.
- **Relationship rows** sit in the source entity's partition, sorted under the target (`PRODUCT#<id>` / `REVIEW#<id>`). Their GSI1 projection gives the reverse direction.

The model covers:

- the eight access patterns of `EcommerceQueries` (src/queries.ts);
- the category tree of `HierarchicalDataExample` (src/hierarchical-data.ts), with its children, parent, breadcrumb and descendants lookups;
- write sharding of user activity (src/write-sharding.ts);
- the two maintenance scripts that bulk-load the sample data and empty the table (scripts/).

## Modules

- `Wrappers`: `Option` and `Result`. They stand for JavaScript's `null` and for a thrown error.
- `Text`: the pieces of string handling that the keys rely on:
  - the character-by-character order the store sorts keys by;
  - `${n}` for numbers;
  - `String.prototype.split` with a non-empty separator.
- `Store`: the table as a sequence of rows. It holds:
  - the key condition `pk = :pk AND begins_with(sk, :prefix)` on the table or on GSI1;
  - a query as a stable sort by sort key, reversed for `ScanIndexForward: false` and cut at `Limit`;
  - point reads, key-only scans, puts and deletes;
  - the class `Table`, whose `Put` and `BatchWrite` replace its rows. `BatchWrite` is refused as a whole unless it holds 1 to 25 requests with distinct keys.
- `Queries`: the access patterns of src/queries.ts, as functions of the table's rows.
- `Hierarchy`: writing the category list, then the four lookups of src/hierarchical-data.ts. The breadcrumb loop and the recursive descendants walk are methods, each proved equal to a specification function.
- `SampleHierarchy`: facts about the fixed category list and the table it builds:
  - the rows have distinct keys;
  - every category's parent comes back from the parent lookup;
  - the tree is finite;
  - `headphones` has the breadcrumb electronics / audio / headphones;
  - the descendants of `electronics` are listed once each, in pre-order.
- `Sharding`: the shard key, the activity write, the fan-out read over all shards, and the in-place insertion sort that puts the most recent activity first, proved equal to a stable reference sort.
- `Batching`: the loop shared by both scripts that cuts a list into batches of 25.
- `LoadSampleData`, `CleanTable`: the two scripts, as methods on a `Table`.

Clocks, `Math.random()` and the JSON data files are parameters. The model does not read or write anything.

Keys are built with template literals, as the source builds them. An id containing `#` is not rejected, and apart from the shard number that `writeUserActivity` logs, no key is decoded.

## Model

| member | source | states |
|---|---|---|
| Text.BelowReflexive | src/queries.ts:143 | Every sort key sorts at or before itself. |
| Text.BelowTotal | src/queries.ts:143 | Any two sort keys are comparable. |
| Text.BelowTransitive | src/queries.ts:143 | The sort-key order is transitive. |
| Text.BelowAntisymmetric | src/queries.ts:143 | Two keys that sort at or before each other are equal, so the order is total and sorting is determined. |
| Text.NatToString | src/write-sharding.ts:15 | `${n}` for a natural number is a non-empty string of digits with no leading zero. |
| Text.IntToString | src/write-sharding.ts:23 | `${i}` is non-empty, all digits for a non-negative number, and never contains `#`. |
| Text.ParseNatToString | src/write-sharding.ts:44 | Reading back a printed shard number gives the number: printing and parsing are inverse. |
| Text.IntToStringInjective | src/write-sharding.ts:15 | Different integers print differently, so different shard numbers give different keys. |
| Text.IndexOf | src/write-sharding.ts:44 | Finds the first occurrence of the separator, and reports none exactly when there is no occurrence. |
| Text.Split | src/write-sharding.ts:44 | `split` always returns at least one piece. |
| Text.SplitJoined | src/write-sharding.ts:44 | Splitting `base + sep + tail` returns `[base, tail]` when neither part contains the separator: split inverts the join. |
| Store.Matching | src/queries.ts:138-142 | The key condition keeps exactly the matching rows, each as often as the table holds it. |
| Store.OfType | src/queries.ts:91-92 | `filter(Type === tag)` keeps exactly the rows with that tag, with their multiplicity. |
| Store.OfTypeAscending | src/queries.ts:91-92 | Filtering an ascending read by type leaves it ascending. |
| Store.Insert | src/queries.ts:143 | Inserting a row into a read adds exactly that row. |
| Store.SortRows | src/queries.ts:143 | The result is sorted by sort key and is a permutation of its input. |
| Store.Reverse | src/queries.ts:143 | `ScanIndexForward: false` reads the same rows, last first. |
| Store.Take | src/queries.ts:144 | `Limit` keeps a prefix of the read: all of it when there is no limit, otherwise `min(limit, count)` rows. |
| Store.Ordered | src/queries.ts:143 | The matching rows, each once, in the requested direction. |
| Store.TakeOrdered | src/queries.ts:143-144 | Cutting an ordered read keeps the order, and every dropped row comes after every kept one. |
| Store.QueryReads | src/queries.ts:136-145 | A query returns only matching rows, in the requested order. Without a limit it returns all of them once each. With one it returns `min(limit, count)` rows, and the rows it leaves out come after the ones it returns. |
| Store.QueryAllReads | src/queries.ts:42-50 | A complete query returns every matching row once, nothing else, in ascending sort-key order. |
| Store.QueryAllMembers | src/hierarchical-data.ts:93-100 | A row is in a complete query's answer exactly when it is in the table and matches the key condition. |
| Store.QueryAllSorts | src/queries.ts:42-50 | The complete query equals the stable sort of the matching rows. |
| Store.QueryAllIsQuery | src/queries.ts:42-50 | A query without `Limit`, read forwards, is the complete query. |
| Store.FirstMatchLeast | src/hierarchical-data.ts:136 | `Items?.[0]` is absent exactly when nothing matches. Otherwise it is a matching row with the least sort key. |
| Store.FirstMatchIsFirstRead | src/hierarchical-data.ts:136 | The one-pass first match is the head of the complete query. |
| Store.Get | src/queries.ts:12-21 | A point read returns a stored row with that key, and is absent exactly when no row has the key. |
| Store.ScanKeys | scripts/clean-table.ts:9-14 | The key-only scan returns each row's (`PK`, `SK`), in table order. |
| Store.RemoveKey | scripts/clean-table.ts:33-40 | A delete removes exactly the rows with that key and never adds one. |
| Store.PutRequestsIndex | scripts/load-sample-data.ts:39-43 | Put request `i` carries item `i`, and there is one request per item. |
| Store.DeleteRequestsIndex | scripts/clean-table.ts:33-40 | Delete request `i` carries scanned key `i`, and there is one request per key. |
| Store.UniqueKeysCons | scripts/clean-table.ts:9-14 | A table has distinct keys exactly when its first row's key is not repeated and the rest have distinct keys. |
| Store.RemoveKeyUnique | scripts/clean-table.ts:33-40 | Deleting keeps keys distinct. |
| Store.PutRowUnique | src/hierarchical-data.ts:54-57 | A put keeps keys distinct. |
| Store.ApplyAllUnique | scripts/load-sample-data.ts:51 | Any sequence of writes keeps keys distinct. |
| Store.ApplyAllAppend | scripts/load-sample-data.ts:37-58 | Sending writes in two consecutive groups has the same effect as sending them all at once. |
| Store.GetSkip | src/queries.ts:12-21 | Rows with other keys do not change what a point read finds. |
| Store.GetAfterPut | src/queries.ts:12-21 | After a put, reading the item's key returns the item. |
| Store.GetOtherAfterPut | src/queries.ts:12-21 | A put does not change a read of any other key. |
| Store.PutFresh | src/hierarchical-data.ts:54-57 | Putting a row with a new key appends it. |
| Store.PutRequestsAppend | scripts/load-sample-data.ts:37-58 | Putting items with distinct, new keys appends them in order. |
| Store.PutRequestsConcat | scripts/load-sample-data.ts:39-43 | The puts for two lists joined are the puts for each, joined. |
| Store.ApplyPutsSnoc | scripts/load-sample-data.ts:39-43 | Putting a list, then one more item, is putting the longer list. |
| Store.RemoveKeyAbsent | scripts/clean-table.ts:33-40 | Deleting a key the table does not hold changes nothing. |
| Store.RemoveFirstKey | scripts/clean-table.ts:33-40 | Deleting the first row's key drops exactly that row. |
| Store.DeleteScannedRange | scripts/clean-table.ts:31-55 | Deleting the scanned keys of rows `lo` to `hi` in order removes exactly those rows. |
| Store.ScanKeysDistinct | scripts/clean-table.ts:27-29 | The scanned keys of a table with distinct keys are distinct in every slice. |
| Store.Table.Put | src/hierarchical-data.ts:54-57 | `PutCommand` replaces the row with the item's key, or adds the item, and keeps keys distinct. |
| Store.Table.BatchWrite | scripts/load-sample-data.ts:51 | `BatchWriteCommand` applies every request in order, or refuses the whole batch and changes nothing. It is refused exactly when it has no requests, more than 25, or one key twice. |
| Batching.Chunk | scripts/load-sample-data.ts:28-33 | Joining the batches gives back the items. There are ⌈n/25⌉ batches, together reaching the last item, and batch `k` is `items.slice(25k, 25k+25)`. |
| Batching.ChunkSizes | scripts/clean-table.ts:24-29 | Each batch holds 1 to 25 items, and every batch but the last holds exactly 25. |
| Batching.FlattenSnoc | scripts/load-sample-data.ts:37-58 | Joining one more batch appends its items. |
| Batching.FlattenAppend | scripts/load-sample-data.ts:31-33 | Joining distributes over concatenation of batch lists. |
| Batching.FlattenPrefix | scripts/load-sample-data.ts:31-33 | The first `k` batches joined are the first `25k` items. |
| Queries.MapRows | src/queries.ts:54-55 | `items.map(f)` keeps length and order, and its values are exactly the images of the items. |
| Queries.FirstOfType | src/queries.ts:90 | `find(Type === tag)` gives the first row with the tag, and none exactly when no row has it. |
| Queries.ProjectedQueryAll | src/queries.ts:53-55 | Value `i` is built from row `i` of the complete query, whose rows are the matching ones in ascending sort-key order. |
| Queries.ProjectedQuery | src/queries.ts:148-159 | Value `i` is built from row `i` of the query, which reads in the requested direction. There are as many values as rows read: all matching rows, or `min(limit, count)`. |
| Queries.GetUserDetails | src/queries.ts:9-34 | Returns the `Data` of the row stored under `USER#<id>`/`USER#<id>`, and `null` exactly when there is none. |
| Queries.UserDetailsAfterPut | src/queries.ts:12-25 | After a user row is written, the details lookup returns its `Data`. |
| Queries.GetUserOrders | src/queries.ts:39-68 | Returns one order per GSI1 row under `USER#<id>` with an `ORDER#` sort key, in sort-key order, and nothing else. |
| Queries.GetProductWithRelationships | src/queries.ts:73-128 | `null` exactly when the partition has no `Product` row. Otherwise: the product is the first `Product` row read; review `i` is built from the `i`-th `ProductReview` row and category `i` from the `i`-th `ProductCategory` row, both in ascending sort-key order. |
| Queries.FirstIsLeast | src/queries.ts:90 | The row `find` picks has the least sort key among the partition's rows of that type. |
| Queries.TypeCountFiltered | src/queries.ts:91-92 | Filtering a partition read by type keeps as many rows as the partition holds of that type. |
| Queries.TypedItems | src/queries.ts:91-92 | Value `i` is built from the `i`-th row of the type in the partition, in ascending sort-key order. |
| Queries.LeadOfType | src/queries.ts:90-97 | The `find` result is absent exactly when the partition has no row of the type. |
| Queries.GetProductReviews | src/queries.ts:133-172 | Refused exactly when `limit < 1`. Otherwise returns `min(limit, number of reviews)` reviews, newest sort key first, each built from a `REVIEW#` row of the product. |
| Queries.RelationshipShapes | src/queries.ts:100-113 | Reviews built from relationship rows have empty customer, comment and date. Categories are named by their id and have an empty description. |
| Queries.GetProductsInCategory | src/queries.ts:177-208 | One `productId` per GSI1 row under `CATEGORY#<id>` with a `PRODUCT#` sort key, in sort-key order, and nothing else. |
| Queries.GetOrderWithItems | src/queries.ts:213-257 | `null` exactly when the order's partition has no `Order` row. Otherwise the order is the first one read, and item `i` is the payload of the `i`-th `OrderItem` row in ascending sort-key order. |
| Queries.GetUserReviews | src/queries.ts:262-288 | One `reviewId` per `REVIEW#` row in the user's partition, and nothing else: id `i` comes from the `i`-th such row in ascending sort-key order. |
| Queries.GetOrdersForProduct | src/queries.ts:293-320 | One `orderId` per GSI1 row under `PRODUCT#<id>` with an `ORDER#` sort key, in sort-key order, and nothing else. |
| Hierarchy.CategoryRow | src/hierarchical-data.ts:42-52 | The entity row has `PK == SK`, type `Category`, the category's id and parent, and no GSI1 projection. |
| Hierarchy.ChildRow | src/hierarchical-data.ts:61-73 | The parent-to-child row is a relationship row (`PK != SK`) of type `CategoryChild`, naming the parent and the child. |
| Hierarchy.HierarchyRowsPrefix | src/hierarchical-data.ts:40-84 | The rows for one more category are the rows so far, then that category's rows. |
| Hierarchy.WriteCategory | src/hierarchical-data.ts:42-78 | One loop turn puts the entity row, then the parent-to-child row when `parentId` is truthy. |
| Hierarchy.CreateCategoryHierarchy | src/hierarchical-data.ts:17-84 | The table ends as the old table with every category's rows put, in list order. |
| Hierarchy.ChildrenLookup | src/hierarchical-data.ts:90-116 | `getCategoryChildren` returns exactly the parent-to-child rows in the category's partition. |
| Hierarchy.ChildrenOrdered | src/hierarchical-data.ts:93-104 | Each child row comes back once, in ascending `CHILD#<id>` order. |
| Hierarchy.ParentLookup | src/hierarchical-data.ts:121-149 | `getCategoryParent` returns `null` exactly when no GSI1 row under the category has a `PARENT#` key. Otherwise it returns such a row with the least GSI1 sort key. |
| Hierarchy.ParentIsFirstRead | src/hierarchical-data.ts:135-136 | The parent lookup is the first item of the complete GSI1 query. |
| Hierarchy.ParentChainSnoc | src/hierarchical-data.ts:161-168 | Extending a chain of parents by a child of its last entry keeps it a chain. |
| Hierarchy.BreadcrumbShape | src/hierarchical-data.ts:154-172 | The breadcrumb has `depth + 1` entries, starts at a category with no parent, ends at the category itself, and each entry is the parent of the next. |
| Hierarchy.GetCategoryPath | src/hierarchical-data.ts:154-172 | The `unshift` loop returns the breadcrumb. |
| Hierarchy.CycleNeverReachesRoot | src/hierarchical-data.ts:161-168 | When two categories are each other's parent, no number of steps reaches a root, so the source's loop would not end. |
| Hierarchy.ReachesRootUnique | src/hierarchical-data.ts:161-168 | The number of steps to the root is determined by the category. |
| Hierarchy.ChildrenBounded | src/hierarchical-data.ts:181-189 | Below a category of bounded height, every child has a smaller bound, so the recursion ends. |
| Hierarchy.GetAllCategoryDescendants | src/hierarchical-data.ts:177-199 | The loop with its recursive call returns the pre-order listing: each child, then everything below it. |
| Hierarchy.BoundedMono | src/hierarchical-data.ts:177-199 | A height bound stays a bound when raised. |
| Hierarchy.DescendantsHeight | src/hierarchical-data.ts:177-199 | The listing does not depend on which valid height bound is used. |
| Hierarchy.DescendantsOfHeight | src/hierarchical-data.ts:184-191 | The same holds for the listing of a prefix of the children. |
| Hierarchy.DescendantsOfCovers | src/hierarchical-data.ts:184-191 | Every child processed, and everything below it, is in the listing. |
| Hierarchy.DescendantsOfFrom | src/hierarchical-data.ts:184-191 | Every entry of the listing is a processed child or lies below one. |
| Hierarchy.DescendantsMembers | src/hierarchical-data.ts:177-199 | A category is listed exactly when it is a child, or lies below a child, of the starting category. |
| Hierarchy.DescendantsBounded | src/hierarchical-data.ts:177-199 | Every listed descendant sits strictly lower in the tree. |
| Hierarchy.DescendantsNotSelf | src/hierarchical-data.ts:177-199 | In a bounded tree, a category is never its own descendant. |
| SampleHierarchy.SampleRoots | src/hierarchical-data.ts:17-38 | The list has 11 categories, and exactly the first two have no parent. |
| SampleHierarchy.SampleDistinct | src/hierarchical-data.ts:17-38 | No two categories share an id. |
| SampleHierarchy.SampleParentsEarlier | src/hierarchical-data.ts:17-38 | Every parent is listed before its children. |
| SampleHierarchy.SampleHasShape | src/hierarchical-data.ts:17-38 | The ids and parents of the list, position by position. |
| SampleHierarchy.RowsForKeys | src/hierarchical-data.ts:42-73 | A category's rows are its entity row, under `CATEGORY#<id>`, and its child row, under `CHILD#<id>`, the latter exactly when it has a parent. |
| SampleHierarchy.WrittenRowSource | src/hierarchical-data.ts:40-84 | Every written row comes from one listed category. |
| SampleHierarchy.CategoryRowsWritten | src/hierarchical-data.ts:40-84 | Every listed category's rows are written. |
| SampleHierarchy.RowsForDisjoint | src/hierarchical-data.ts:42-73 | Categories with different ids write rows with different keys. |
| SampleHierarchy.HierarchyKeysUnique | src/hierarchical-data.ts:40-84 | With distinct ids, the written rows have distinct keys, so no put overwrites another. |
| SampleHierarchy.BuiltFromEmpty | src/hierarchical-data.ts:40-84 | Written into an empty table, the hierarchy leaves exactly its rows, in write order. |
| SampleHierarchy.ParentRowUnique | src/hierarchical-data.ts:124-136 | On the written rows, the only row a category's parent lookup can match is that category's own parent-to-child row. |
| SampleHierarchy.ParentRowWritten | src/hierarchical-data.ts:61-78 | A category with a parent has its parent-to-child row written, findable by the GSI1 lookup. |
| SampleHierarchy.ParentInHierarchy | src/hierarchical-data.ts:121-149 | On the written rows, the parent lookup returns exactly the category's listed parent, or none for a root. |
| SampleHierarchy.TwoStepBreadcrumb | src/hierarchical-data.ts:154-172 | A category two steps below a root has the breadcrumb root, parent, itself. |
| SampleHierarchy.HeadphonesBreadcrumb | src/hierarchical-data.ts:222 | On the sample table, the breadcrumb of `headphones` is electronics, audio, headphones. |
| SampleHierarchy.ChildRowSource | src/hierarchical-data.ts:61-73 | A written row under `CHILD#` in a category's partition is the child row of a listed child. |
| SampleHierarchy.ChildrenLater | src/hierarchical-data.ts:17-38 | In a parents-first list, a category's children are listed after it. |
| SampleHierarchy.ParentsFirstChildrenLater | src/hierarchical-data.ts:17-84 | On the written rows, every child row names a category listed later. |
| SampleHierarchy.LaterBounded | src/hierarchical-data.ts:177-199 | When children are listed after their parents, the height below position `i` is at most `n - i`. |
| SampleHierarchy.HierarchyBounded | src/hierarchical-data.ts:177-199 | The written hierarchy has finite height below every category, so the descendants walk ends. |
| SampleHierarchy.AscendingDeterminate | src/hierarchical-data.ts:103-104 | A query result with no repeated row and the same members as a strictly ascending list is that list. |
| SampleHierarchy.ChildrenExact | src/hierarchical-data.ts:90-116 | The children lookup returns exactly a given strictly ascending list of the child rows. |
| SampleHierarchy.ListedChildren | src/hierarchical-data.ts:90-116 | On the written rows, the children lookup returns the child rows of the categories listed as its children. |
| SampleHierarchy.ChildrenNamed | src/hierarchical-data.ts:104-108 | Those children come back with the expected `childCategoryId`s, in order. |
| SampleHierarchy.ElectronicsChildren | src/hierarchical-data.ts:216 | `electronics` has the children audio, computers and mobile, in that order. |
| SampleHierarchy.AudioChildren | src/hierarchical-data.ts:90-116 | `audio` has the children headphones and speakers, in that order. |
| SampleHierarchy.ComputersChildren | src/hierarchical-data.ts:90-116 | `computers` has the children desktops and laptops, in that order. |
| SampleHierarchy.SampleLeaf | src/hierarchical-data.ts:90-116 | Mobile, laptops, desktops, headphones and speakers have no children. |
| SampleHierarchy.LeafDescendants | src/hierarchical-data.ts:181-198 | A category without children has no descendants. |
| SampleHierarchy.ListingOfTwo | src/hierarchical-data.ts:184-191 | Below a category with two children: the first child and its descendants, then the second child and its descendants. |
| SampleHierarchy.ListingOfThree | src/hierarchical-data.ts:184-191 | The same for three children. |
| SampleHierarchy.ElectronicsListing | src/hierarchical-data.ts:177-199 | Any table whose lookups have the sample's shape lists the seven categories below `electronics` in pre-order. |
| SampleHierarchy.ElectronicsBounded | src/hierarchical-data.ts:177-199 | The tree below `electronics` in the sample is finite. |
| SampleHierarchy.ElectronicsDescendants | src/hierarchical-data.ts:226 | On the sample table, the descendants of `electronics` are audio, headphones, speakers, computers, desktops, laptops, mobile, each once. |
| Sharding.ShardIndexRange | src/write-sharding.ts:14 | `Math.floor(Math.random() * n)` is a shard number in `[0, n)` for `n >= 1`, and 0 for `n = 0`. |
| Sharding.GetShardKey | src/write-sharding.ts:13-16 | The key is `<base>#SHARD<k>` for a valid shard number `k`. |
| Sharding.SplitShardKey | src/write-sharding.ts:44 | `pk.split('#SHARD')` recovers the base key and the shard number: the key can be decoded. |
| Sharding.ShardKeysDistinct | src/write-sharding.ts:15 | Different shard numbers give different keys. |
| Sharding.ActivityRow | src/write-sharding.ts:22-35 | The row lies in one of the user's shards, has an `ACTIVITY#` sort key and type `UserActivity`, and stores the timestamp. `Data` keeps every activity field except `timestamp`, and holds `userId` unless the activity overrides it. |
| Sharding.WriteUserActivity | src/write-sharding.ts:21-49 | The table gains the activity row, which replaces any row with the same key. The shard count defaults to 5. |
| Sharding.FanOutMembers | src/write-sharding.ts:60-77 | The joined shard answers hold exactly the user's `ACTIVITY#` rows from shards `0..n-1`. |
| Sharding.QueryShards | src/write-sharding.ts:57-73 | One query per shard number, in order. |
| Sharding.FlattenShards | src/write-sharding.ts:76-77 | `flatMap` over the answers is the fan-out over the shards. |
| Sharding.SwapDown | src/write-sharding.ts:80-84 | Swaps one entry with its left neighbour. Nothing else in the array changes. |
| Sharding.InsertByTimeCount | src/write-sharding.ts:80-84 | Placing an activity into a list adds exactly that activity. |
| Sharding.SortByTime | src/write-sharding.ts:80-84 | The reference sort: its result is most recent first and a permutation of its input. |
| Sharding.SortByTimeSnoc | src/write-sharding.ts:80-84 | Sorting one more activity inserts it into the sort of those before it. |
| Sharding.MostRecentCons | src/write-sharding.ts:80-84 | An activity at least as recent as a sorted list can go in front of it. |
| Sharding.MostRecentTail | src/write-sharding.ts:80-84 | Dropping the first activity of a sorted list leaves it sorted. |
| Sharding.InsertByTimeSorted | src/write-sharding.ts:80-84 | Inserting into a most-recent-first list keeps it most recent first. |
| Sharding.AtTimeAppend | src/write-sharding.ts:80-84 | The activities with one timestamp in a concatenation are those of each part, in turn. |
| Sharding.AtTimeNone | src/write-sharding.ts:80-84 | A list with no activity at a timestamp has none there. |
| Sharding.AtTimeInsert | src/write-sharding.ts:80-84 | An inserted activity lands after every activity with the same timestamp. |
| Sharding.SortByTimeStable | src/write-sharding.ts:80-84 | The sort is stable: activities with the same timestamp keep their input order, as `Array.prototype.sort` promises. |
| Sharding.InsertByTimeSplit | src/write-sharding.ts:80-84 | Between a run of activities at least as recent and a run strictly older is where the reference insertion puts the activity. |
| Sharding.InsertByTimeAt | src/write-sharding.ts:80-84 | Where the sinking stops, after the entries at least as recent and before the older ones, is where the reference insertion puts the activity. |
| Sharding.SinkStep | src/write-sharding.ts:80-84 | One swap with an older neighbour moves the sinking activity one place up and changes nothing else. |
| Sharding.InsertAt | src/write-sharding.ts:80-84 | The first `i + 1` entries become entry `i` inserted into the sorted prefix before it. The entries after `i` are unchanged. |
| Sharding.SortMostRecentFirst | src/write-sharding.ts:80-84 | The array ends as the stable sort of its old contents: most recent first, a permutation, equal timestamps in their old order. |
| Sharding.GetUserActivities | src/write-sharding.ts:54-94 | Returns the stable sort of the fan-out: exactly its activities, with their multiplicities, most recent first, and equal timestamps in fan-out order. The shard count defaults to 5. |
| Sharding.WrittenActivityIsRead | src/write-sharding.ts:21-94 | An activity written with `n >= 1` shards is returned by a read over the same `n` shards. |
| LoadSampleData.DistinctPutsAccepted | scripts/load-sample-data.ts:39-51 | Puts of 1 to 25 consecutive items with distinct keys form a batch the store accepts. |
| LoadSampleData.PutBatchAccepted | scripts/load-sample-data.ts:37-51 | Every batch of items with distinct keys is accepted. |
| LoadSampleData.LoadSampleData | scripts/load-sample-data.ts:6-88 | The table holds the puts of the first `done` batches. When every batch goes through, it holds all core entities, then all relationships. A stop happens only at a refused batch, and never when the keys are distinct. |
| LoadSampleData.WriteBatches | scripts/load-sample-data.ts:37-58 | Batches are written in order until one is refused, and the loop reports how far it got. |
| LoadSampleData.PutBatch | scripts/load-sample-data.ts:38-51 | One loop turn: the batch's puts are applied exactly when the batch is accepted. |
| LoadSampleData.PutsInSequence | scripts/load-sample-data.ts:37-58 | Writing `a`, then `b`, is writing `a + b`. |
| LoadSampleData.LoadedItemReadable | scripts/load-sample-data.ts:20-58 | After loading items with distinct keys, a point read of any item's key returns that item. |
| LoadSampleData.LoadKeepsOtherKeys | scripts/load-sample-data.ts:20-58 | Loading leaves every other key's row as it was. |
| CleanTable.DistinctDeletesAccepted | scripts/clean-table.ts:31-48 | Deletes of 1 to 25 consecutive scanned keys form an accepted batch. |
| CleanTable.DeleteBatch | scripts/clean-table.ts:31-55 | Batch `k` of deletes is accepted and removes exactly the rows it names. |
| CleanTable.CleanTable | scripts/clean-table.ts:4-63 | Reports as many items found as the table held. Afterwards the table is empty, including when it was already empty. |

## Left out

- Paging is not modelled. The store's 1 MB page limit, `LastEvaluatedKey` and `UnprocessedItems` of a batch write are absent. Every query and scan returns its whole answer, and a batch write is all or nothing.
- Thrown errors are modelled as return values. A store error that the source rethrows becomes a `Failure`, `None` or refused batch. Network and throttling errors have no model.
- `Promise.all` is modelled sequentially. The shard queries are issued one after another, and the concurrency is not modelled.
- The following are not modelled: `setTimeout` delays between batches and in the demos, console output, and the indentation that `getAllCategoryDescendants` logs by depth.
- The demo methods are not modelled. The calls they make are the subject of `SampleHierarchy.ElectronicsChildren`, `SampleHierarchy.HeadphonesBreadcrumb` and `SampleHierarchy.ElectronicsDescendants`.
- `Queries.GetOrderWithItems`: the `totalCalculated` sum of floating-point `totalPrice` values is only logged, so it is not modelled.
- Reading the JSON data files is not modelled. The core entities and relationships are parameters of `LoadSampleData.LoadSampleData`.
- src/index.ts, src/types.ts and src/config.ts are not part of this model, apart from the row shape taken from `BaseItem`.
- `Hierarchy.CreateCategoryHierarchy`: every row gets the same `createdAt` value. The source reads the clock once per row.
- `Sharding.ActivityRow`: `Data.timestamp` is an integer number of milliseconds, not the ISO-8601 string the source stores. `Date.now()` and `new Date()` are parameters.
- `Sharding.GetUserActivities`: sorting uses the millisecond value directly. Parsing the ISO string back with `new Date(...).getTime()` is not modelled. A missing or non-numeric timestamp counts as 0, where JavaScript would compare `NaN`.
- `Sharding.GetShardKey`: `Math.random()` is a real parameter in `[0, 1)`. Uniformity of the shard choice is not modelled.
- `Hierarchy.GetCategoryPath`: only categories whose parent chain reaches a root are modelled, with the number of steps as a ghost parameter. On a cycle the source loops forever. `Hierarchy.CycleNeverReachesRoot` shows only that a two-category cycle never reaches a root.
- `Hierarchy.GetAllCategoryDescendants`: a ghost height bound on the tree below the category is required. On a cyclic table the source recurses without end. `SampleHierarchy.HierarchyBounded` gives the bound for every written hierarchy whose list names parents first.
- `Hierarchy.GetAllCategoryDescendants`: that each descendant is listed exactly once is proved only for `electronics` on the sample table. For arbitrary tables, the contract states the pre-order listing, membership and the bound, not the absence of repeats.
- `Store.Value`: a payload value is `undefined`, `null`, a string or an integer. Booleans, fractional numbers, arrays and nested objects are absent, because the core only stores, copies and compares payloads and reads string and integer fields.
- `Queries.GetProductReviews`: `limit` is an integer. A fractional JavaScript number is not modelled.
