# atlasdb core in Dafny

A verified model of the storage and query core of atlasdb, a small C++
key/value database. The model follows the C++ headers one module per
file:

- **B-tree** (`btree_node.dfy`, `btree.dfy`).
  - `btree_node.dfy` models `btree_node`: its node sizing constants, the
    comparator adapters, the four in-node search loops with the
    kExactMatch flag, `set_child`, node initialisation and the iterator's
    fast paths.
  - `btree.dfy` models `btree` on the in-order sequence of its entries:
    lower/upper bound, equal_range, find, count_unique/count_multi,
    insert_unique/insert_multi and the erase family.
  - It also models the node tree as a value, for size, height,
    internal_stats and the child-ordering invariant that makes the
    traversal sorted.
- **Storage layer.**
  - `repository.dfy` is `basic_repository`: a B-tree map from primary
    key to value.
  - `index.dfy` is `basic_index`: a B-tree multimap from index key to
    primary key, with bounded range scans.
  - `indexer.dfy` is `basic_indexer`: the registry of named indexes, and
    the batch create/drop that call out to the storage environment.
  - `storehouse.dfy` is `basic_storehouse`: a repository plus its indexes.
    put/update/del keep every index entry pointing at a stored record.
  - `sts.dfy` is the stream-like status word `sts`: flag algebra on
    32-bit states, and the throw-on-mask behaviour of clear, setstate
    and exceptions.
- **Query layer.**
  - `ir.dfy` holds the query tree's node classes.
  - `algorithm.dfy` holds keyset_and and keyset_or.
  - `processor.dfy` holds the dispatcher, the initializer, the storage
    attacher and the query executor.
  - `stomanip.dfy` holds the paged table load.
- **Utilities.**
  - `buffer.dfy` is the water-mark byte buffer.
  - `message.dfy` is the fixed 4-byte decimal message header.
  - `codec.dfy` is the 8-byte big-endian length-prefix codec of the
    example chat server.
  - `task.dfy` is the task queue.
  - `id.dfy` is the per-type id generator.
  - `catalog.dfy` is the table catalog.
  - `ptree_printer.dfy` is the property-tree printer.

Keys and values are byte strings (`Keys.Bytes`), ordered byte-wise as
`std::less<std::string>` orders them. `Wrappers` holds Option and Result,
used for the error paths (a missing index, a non-callable task).

Where the C++ mutates an object, the model is a class whose methods state
the whole new state. Each such method is tied to a specification function
on values, and the lemmas are stated about those functions. Where the
C++ loops (the node searches, stomanip's load, the indexer's for_each, the
codec's receive loop, the tree printer), the model loops with invariants.

Several storage operations are declared in the headers without a body:
- repository put/get/exists;
- every basic_index operation;
- the storehouse's put, update and del;
- the indexer's close(index&) and close() (atlasdb/storage/basic_indexer.h:110, 115);
- the storehouse constructor that takes index names (atlasdb/storage/basic_storehouse.h:57).

Their behaviour is taken from their doc comments and from the B-tree they
sit on:
- a repository put is B-tree insert_unique;
- a del is erase_unique;
- an index is a btree_multimap;
- close(index&) unregisters that index. The model finds the index by its registry name, where the C++ takes an `index&`;
- close() empties the registry;
- the storehouse constructor with index names opens one empty index per name.

A storehouse put stores the record and then adds one (index key, primary
key) pair per listed index key. Its update replaces the value and
re-points the listed indexes. Its del removes the record and the listed
pairs.

`stomanip::load` writes `limit + 1` records, not `limit`: it loads while
`load_count <= limit`. The model states this as written.

The tree printer prints the root as `<data>`, as its code does, and not
as the bare `root` its header comment shows.

The seven places where the code evidently does not do what it was meant
to are under "## Findings". Each is modelled twice:
- once as written, with a lemma that exhibits the difference;
- once as intended, with the intended property proved.

The rest of the model uses the intended version.

## Model

| member | source | states |
|---|---|---|
| Keys.LessIrreflexive | atlasdb/storage/basic_repository.h:31 | no key is less than itself under the byte-wise `std::less` order |
| Keys.LessTransitive | atlasdb/storage/basic_repository.h:31 | the key order is transitive |
| Keys.LessTotal | atlasdb/storage/basic_repository.h:31 | any two distinct keys are ordered one way or the other |
| Keys.LessAsymmetric | atlasdb/storage/basic_repository.h:31 | a key is never both less and greater than another |
| Keys.LessEqTransitive | atlasdb/storage/basic_repository.h:31 | "not greater" is transitive |
| Keys.LessLessEqTransitive | atlasdb/storage/basic_repository.h:31 | less followed by not-greater is less |
| Keys.LessEqLessTransitive | atlasdb/storage/basic_repository.h:31 | not-greater followed by less is less |
| BTreeNode.NodeValues | atlasdb/storage/btree/btree.h:369-373 | the node capacity is the number of values that fit the byte budget, and never fewer than 3 |
| BTreeNode.DivisionBounds | atlasdb/storage/btree/btree.h:369 | the integer division that counts values per node is exact to within one value |
| BTreeNode.MinNodeValues | atlasdb/storage/btree/btree.h:722 | the minimum fill is half the capacity rounded down |
| BTreeNode.CompareKeys | atlasdb/storage/btree/btree.h:139-167 | a boolean comparator is used as is; a three-way comparator counts as "less" exactly when it returns a negative number |
| BTreeNode.UpperBoundAdapter | atlasdb/storage/btree/btree.h:245-253 | the upper-bound adapter is a boolean comparator |
| BTreeNode.UpperBoundCompareToAdapter | atlasdb/storage/btree/btree.h:254-262 | the upper-bound compare-to adapter calls the comparison with its arguments swapped |
| BTreeNode.UpperBoundAdaptersSwap | atlasdb/storage/btree/btree.h:245-262 | under the upper-bound adapter a comes before b exactly when b is not less than a; the compare-to adapter swaps its arguments |
| BTreeNode.StringCompareAgreesWithLess | atlasdb/storage/btree/btree.h:120-126 | `string::compare` is negative exactly for byte-wise smaller strings and zero exactly for equal ones |
| BTreeNode.StringAdaptersReadAsLess | atlasdb/storage/btree/btree.h:120-134 | the `less<string>` compare-to adapter reads as "less" and the `greater<string>` one as "greater" |
| BTreeNode.StringCompare | atlasdb/storage/btree/btree.h:119-125 | `a.compare(b)` is -1, 0 or 1, and 0 exactly when the strings are equal |
| BTreeNode.StringCompareOrders | atlasdb/storage/btree/btree.h:119-133 | for every pair of strings, `compare` is negative exactly for the byte-wise smaller one and zero exactly for equal ones |
| BTreeNode.LessStringCompareTo | atlasdb/storage/btree/btree.h:119-125 | the `less<string>` compare-to adapter is negative exactly when a comes byte-wise before b, and zero exactly when they are equal |
| BTreeNode.GreaterStringCompareTo | atlasdb/storage/btree/btree.h:127-133 | the `greater<string>` compare-to adapter is negative exactly when b comes byte-wise before a, and zero exactly when they are equal |
| BTreeNode.LowerBound | atlasdb/storage/btree/btree.h:458-467 | the lower-bound position lies in [s, e], every key before it is less than k, and the key at it (if any) is not |
| BTreeNode.LowerBoundUnique | atlasdb/storage/btree/btree.h:458-467 | those three facts determine the lower-bound position uniquely |
| BTreeNode.SortedKeysArePartitioned | atlasdb/storage/btree/btree.h:488-499 | ascending keys are partitioned around any k, as the binary search requires |
| BTreeNode.WithExactMatch | atlasdb/storage/btree/btree.h:375-376 | OR-ing kExactMatch onto a position keeps the position under kMatchMask and sets the flag |
| BTreeNode.ExactMatchBitArithmetic | atlasdb/storage/btree/btree.h:375-376 | for positions below 2^30, `p | kExactMatch` is p + 2^30 and masking with kMatchMask gives p back |
| BTreeNode.MatchPosition | atlasdb/storage/btree/btree.h:375-376 | masking with kMatchMask gives a position below 2^30, and a bare position below 2^30 comes back unchanged |
| BTreeNode.IsExactMatch | atlasdb/storage/btree/btree.h:375-376 | on a search result below 2^31 the kExactMatch flag is set exactly when the result is its masked position plus 2^30 |
| BTreeNode.Node.InitLeaf | atlasdb/storage/btree/btree.h:549-561 | a new leaf is a leaf at position 0, with no values, the given capacity and parent |
| BTreeNode.Node.InitInternal | atlasdb/storage/btree/btree.h:563-571 | a new internal node is not a leaf, has kNodeValues slots and room for kNodeValues + 1 children |
| BTreeNode.Node.SetChild | atlasdb/storage/btree/btree.h:442-446 | child slot i holds c, c records this node as parent and i as its position, and the other slots are unchanged |
| BTreeNode.Node.LinearSearchPlainCompare | atlasdb/storage/btree/btree.h:458-467 | the loop returns the first position in [s, e) whose key is not less than k, or e |
| BTreeNode.Node.LinearSearchCompareTo | atlasdb/storage/btree/btree.h:471-483 | masking off kExactMatch gives the lower-bound position, and the flag is set exactly when the key there equals k |
| BTreeNode.Node.BinarySearchPlainCompare | atlasdb/storage/btree/btree.h:488-499 | on partitioned keys the binary search returns the same position as the linear search |
| BTreeNode.Node.BinarySearchCompareTo | atlasdb/storage/btree/btree.h:504-523 | on ordered keys the masked result is the lower-bound position and the flag is set exactly when the key there equals k |
| BTreeNode.Node.NodeLowerBound | atlasdb/storage/btree/btree.h:264-310 | whichever search the node type selects, the masked result is the lower-bound position, and only compare-to searches set the flag |
| BTreeNode.Node.NodeUpperBound | atlasdb/storage/btree/btree.h:264-310 | every search strategy, through the upper-bound adapter, returns the first position whose key is greater than k |
| BTreeNode.Iterator.Default | atlasdb/storage/btree/btree.h:627 | the default iterator has no node and position -1 |
| BTreeNode.Iterator.constructor | atlasdb/storage/btree/btree.h:628 | an iterator holds the node and position it is given |
| BTreeNode.Iterator.Equals | atlasdb/storage/btree/btree.h:650 | `==` compares node and position, so an iterator equals itself |
| BTreeNode.Iterator.Increment | atlasdb/storage/btree/btree.h:632-637 | in a leaf the position moves up by one; the slow path is taken exactly when the node is not a leaf or the new position is past the last value |
| BTreeNode.Iterator.Decrement | atlasdb/storage/btree/btree.h:641-646 | in a leaf the position moves down by one; the slow path is taken exactly when the node is not a leaf or the new position is below 0 |
| BTreeNode.Iterator.NotEquals | atlasdb/storage/btree/btree.h:650-652 | `!=` is the negation of `==` (same node and same position) |
| BTree.StrictlySortedIsSorted | atlasdb/storage/btree/btree.h:386-388 | unique-key order implies non-decreasing order |
| BTree.LowerBound | atlasdb/storage/btree/btree.h:796-799 | lower_bound is the first entry whose key is not less than k, or end() |
| BTree.UpperBound | atlasdb/storage/btree/btree.h:802-805 | upper_bound is the first entry whose key is greater than k, or end() |
| BTree.BoundsDelimitKey | atlasdb/storage/btree/btree.h:807-816 | on sorted entries the two bounds enclose exactly the entries with key k |
| BTree.EqualRange | atlasdb/storage/btree/btree.h:807-816 | equal_range is (lower_bound, upper_bound): keys before it differ from k, inside it equal k, after it differ |
| BTree.Find | atlasdb/storage/btree/btree.h:880-890 | find returns the first entry with key k, or end() |
| BTree.FindMissesOnlyAbsent | atlasdb/storage/btree/btree.h:878-882 | find returns end() exactly when the key is absent |
| BTree.CountUnique | atlasdb/storage/btree/btree.h:893-901 | count_unique is 0 or 1 |
| BTree.CountUniqueIsPresence | atlasdb/storage/btree/btree.h:893-901 | count_unique is 1 exactly when the key is present and 0 exactly when it is not |
| BTree.CountMulti | atlasdb/storage/btree/btree.h:904 | count_multi (the distance between the bounds) is the number of entries with key k |
| BTree.OccurrencesAppend | atlasdb/storage/btree/btree.h:904 | counting and removing a key distribute over concatenation |
| BTree.SliceOccurrences | atlasdb/storage/btree/btree.h:904 | when the key's entries form one run, their number is the run's length and removing them leaves the rest in order |
| BTree.CountUniqueIsOccurrences | atlasdb/storage/btree/btree.h:893-904 | with unique keys, count_unique and count_multi agree |
| BTree.InsertUnique | atlasdb/storage/btree/btree.h:819-828 | insert_unique returns a position holding key k; when it reports false the entries are unchanged, otherwise exactly the new entry was added there |
| BTree.InsertBetweenKeepsOrder | atlasdb/storage/btree/btree.h:819-828 | inserting an entry between smaller and larger keys keeps the keys strictly ascending |
| BTree.InsertAtKeys | atlasdb/storage/btree/btree.h:819-828 | inserting an entry adds its key and exactly that entry to the contents |
| BTree.InsertUniqueKeepsOrder | atlasdb/storage/btree/btree.h:819-828 | insert_unique succeeds exactly when the key is absent, keeps unique order, and adds exactly the new entry or nothing |
| BTree.InsertMulti | atlasdb/storage/btree/btree.h:840-848 | insert_multi adds the entry at the returned position and shifts the later entries by one |
| BTree.InsertMultiKeepsOrder | atlasdb/storage/btree/btree.h:840-848 | the new entry goes after the existing entries with the same key, the order is kept, and the key occurs once more |
| BTree.EraseAt | atlasdb/storage/btree/btree.h:862-865 | erase(iter) removes exactly that entry and returns the position of the next one, which is end() exactly when the last entry was erased |
| BTree.EraseRange | atlasdb/storage/btree/btree.h:867-868 | erase(begin, end) removes that range, keeps the rest in order and returns the number removed |
| BTree.EraseUnique | atlasdb/storage/btree/btree.h:870-872 | erase_unique returns 0 and changes nothing, or returns 1 and removes the entry find locates |
| BTree.EraseUniqueRemovesKey | atlasdb/storage/btree/btree.h:870-872 | erase_unique returns 1 exactly when the key is present, and afterwards its entry is gone and nothing else |
| BTree.EraseMulti | atlasdb/storage/btree/btree.h:874-876 | erase_multi removes every entry with the key and returns how many there were |
| BTree.RemoveKeyRemoves | atlasdb/storage/btree/btree.h:870-876 | after removal the key is absent and exactly the entries with other keys remain |
| BTree.RemoveKeyKeepsOrder | atlasdb/storage/btree/btree.h:870-872 | removing a key keeps unique-key order |
| BTree.RemoveKeyKeepsSorted | atlasdb/storage/btree/btree.h:874-876 | removing a key keeps multi-key order |
| BTree.SortedAppend | atlasdb/storage/btree/btree.h:386-388 | two ordered runs separated by a key stay ordered when joined |
| BTree.OrderedFlattenSorted | atlasdb/storage/btree/btree.h:386-388 | the child-ordering invariant (keys of child i < key(i) < keys of child i+1) makes the in-order traversal strictly ascending |
| BTree.OrderedFlattenFromSorted | atlasdb/storage/btree/btree.h:386-388 | the traversal of children i.. of an ordered node is ascending and above key(i-1) |
| BTree.Size | atlasdb/storage/btree/btree.h:939-943 | size() is 0 for an empty tree and otherwise the number of stored entries |
| BTree.Height | atlasdb/storage/btree/btree.h:950-966 | height() is 0 exactly for an empty tree |
| BTree.HeightOfBalanced | atlasdb/storage/btree/btree.h:950-966 | on a tree whose leaves are all at depth h, height() is h |
| BTree.LeftmostDepthOfBalanced | atlasdb/storage/btree/btree.h:954-963 | the leftmost chain of such a tree has length h |
| BTree.MoreLeavesThanInternalNodes | atlasdb/storage/btree/btree.h:1153-1163 | when every internal node holds a value, a tree has more leaves than internal nodes |
| BTree.ChildStatsBound | atlasdb/storage/btree/btree.h:1157-1160 | the stats summed over the first m children have at least m more leaves than internal nodes |
| BTree.InternalStats | atlasdb/storage/btree/btree.h:1153-1163 | internal_stats of an empty tree is (0, 0) and otherwise that of its root |
| BTree.NodeInternalStats | atlasdb/storage/btree/btree.h:1153-1163 | the recursive loop over count + 1 children computes the leaf and internal node counts of the subtree |
| Repository.Lookup | atlasdb/storage/basic_repository.h:101-104 | get returns a value only when that record is stored |
| Repository.LookupIsMembership | atlasdb/storage/basic_repository.h:101-104 | with unique keys, get returns v exactly when (k, v) is stored and nothing exactly when k is absent |
| Repository.Repository.Get | atlasdb/storage/basic_repository.h:101-104 | get returns a value only when the record (key, value) is stored, and nothing when no record has the key |
| Repository.SameRecordsSameLookups | atlasdb/storage/basic_repository.h:101-104 | get depends only on which records hold the key |
| Repository.PutThenGet | atlasdb/storage/basic_repository.h:74-79 | after put, get(k) is the new value when the put succeeded and the old one otherwise; other keys are unaffected |
| Repository.DelThenGet | atlasdb/storage/basic_repository.h:149-155 | after del, get(k) finds nothing and other keys are unaffected |
| Repository.DelAbsentIsNoOp | atlasdb/storage/basic_repository.h:149-155 | deleting an absent key changes nothing and erases 0 records |
| Repository.CountAfterPutAndDel | atlasdb/storage/basic_repository.h:159-161 | put adds one record exactly when the key is new and del removes one exactly when it is present |
| Repository.Replace | atlasdb/storage/basic_repository.h:119-124 | replacing keeps every key in place, leaves other records alone and gives the key's record the new value |
| Repository.ReplaceKeepsOrder | atlasdb/storage/basic_repository.h:119-124 | replacing a value keeps the records in strictly ascending key order |
| Repository.ReplaceThenGet | atlasdb/storage/basic_repository.h:119-124 | after replacing, get(k) is the new value when k was present and nothing otherwise |
| Repository.ReplaceKeepsOthers | atlasdb/storage/basic_repository.h:119-124 | replacing k does not change get for any other key |
| Repository.UpdateAsWritten | atlasdb/storage/basic_repository.h:125-127 | update as written only looks the key up, so the stored records come back exactly as they were |
| Repository.UpdateAsWrittenLosesValue | atlasdb/storage/basic_repository.h:119-127 | a concrete store where get after update still returns the old value, while the documented replace returns the new one |
| Repository.ReverseTraversal | atlasdb/storage/basic_repository.h:195-209 | walking the reverse range [first, last) visits the records from the back, one per step |
| Repository.Repository.constructor | atlasdb/storage/basic_repository.h:45-50 | a repository opened on a table starts empty |
| Repository.Repository.Put | atlasdb/storage/basic_repository.h:74-79 | put succeeds exactly when the key is new, stores the B-tree insert_unique result and makes get(k) the new value on success |
| Repository.Repository.Exists | atlasdb/storage/basic_repository.h:117 | exists is true exactly when a record holds the key |
| Repository.Repository.Update | atlasdb/storage/basic_repository.h:125-127 | update as written leaves the store unchanged |
| Repository.Repository.ReplaceValue | atlasdb/storage/basic_repository.h:119-124 | the documented update: reports whether the key was present, replaces its value and makes get return it |
| Repository.Repository.Del | atlasdb/storage/basic_repository.h:149-155 | del erases the key's record (B-tree erase_unique) and nothing else, and get(k) then finds nothing |
| Repository.Repository.Count | atlasdb/storage/basic_repository.h:159-161 | count is the number of stored records |
| Repository.Repository.Empty | atlasdb/storage/basic_repository.h:175-177 | empty holds exactly when count is 0 |
| Repository.Repository.End | atlasdb/storage/basic_repository.h:187-193 | end is one past the last record |
| Repository.Repository.Begin | atlasdb/storage/basic_repository.h:179-185 | begin is a position of the traversal, before end exactly when records are stored |
| Repository.Repository.RBegin | atlasdb/storage/basic_repository.h:195-201 | rbegin is a position of the reverse traversal, before rend exactly when records are stored |
| Repository.Repository.REnd | atlasdb/storage/basic_repository.h:207-209 | the corrected rend is one past the last record in reverse order, as the const overload gives |
| Repository.Repository.REndAsWritten | atlasdb/storage/basic_repository.h:203-205 | the non-const rend, which returns rbegin, never passes the real rend and meets it only when no record is stored |
| Repository.Repository.Front | atlasdb/storage/basic_repository.h:211-217 | front is the value of the record whose key is smaller than every other key |
| Repository.Repository.Back | atlasdb/storage/basic_repository.h:219-225 | back is the value of the record whose key is larger than every other key |
| Repository.ForwardTraversalAscending | atlasdb/storage/basic_repository.h:165-193 | [begin, end) visits every record, in strictly ascending key order |
| Repository.ReverseTraversals | atlasdb/storage/basic_repository.h:195-209 | [rbegin, rend) visits every record in strictly descending key order, while the non-const rend as written gives an empty range |
| Index.InsertPair | atlasdb/storage/basic_index.h:43 | insert adds exactly one (index key, primary key) pair to the multimap, keeping every existing pair |
| Index.EraseKey | atlasdb/storage/basic_index.h:47 | del(key) removes exactly the pairs with that index key: every copy of such a pair goes, every other pair keeps its number of copies |
| Index.ErasePair | atlasdb/storage/basic_index.h:49 | del(key, data) removes every copy of that pair, and every other pair keeps its number of copies |
| Index.MovePair | atlasdb/storage/basic_index.h:45 | update(key, new_key, data) replaces every copy of the pair (key, data) by one pair (new_key, data) and keeps all other pairs with their counts; without that pair the index is unchanged |
| Index.GetPrimary | atlasdb/storage/basic_index.h:41 | get returns a primary key only when it is stored under the index key |
| Index.GetPrimaryNoneIffAbsent | atlasdb/storage/basic_index.h:41 | get returns nothing exactly when the index key is absent |
| Index.MultimapKeepsBoth | atlasdb/storage/basic_index.h:76 | the multimap keeps two primary keys inserted under the same index key, and all earlier pairs |
| Index.OperationsKeepOrder | atlasdb/storage/basic_index.h:43-49 | insert, both dels and update keep the pairs ordered by index key |
| Index.ErasePairKeepsOrder | atlasdb/storage/basic_index.h:49 | removing one pair keeps the order |
| Index.MovePairMoves | atlasdb/storage/basic_index.h:45 | update moves the primary key from the old index key to the new one and changes no other pair |
| Index.RangeStart | atlasdb/storage/basic_index.h:35 | the lower-bound position lies within the index |
| Index.RangeEnd | atlasdb/storage/basic_index.h:37 | the upper-bound position lies within the index |
| Index.PrimaryKeys | atlasdb/storage/basic_index.h:21-22 | a range yields the primary key of each pair, in order |
| Index.Scan | atlasdb/storage/basic_index.h:35-37 | a bounded scan yields at most one primary key per pair |
| Index.RangePositions | atlasdb/storage/basic_index.h:35-37 | on ordered pairs, position i is at or after the lower bound exactly when its key satisfies the (open or closed) lower bound, and likewise for the upper bound |
| Index.FilterIsKeep | atlasdb/storage/basic_index.h:35-37 | filtering by the range is keeping the pairs whose flag is set |
| Index.KeepWindow | atlasdb/storage/basic_index.h:35-37 | keeping the flags of one contiguous window yields that window's primary keys |
| Index.ScanIsFilter | atlasdb/storage/basic_index.h:35-37 | on ordered pairs, the scan between the two bound positions equals filtering every pair by the range predicate |
| Index.FullScan | atlasdb/storage/basic_index.h:61-64 | with no bounds the scan yields every primary key, begin to end |
| Index.PointScan | atlasdb/storage/basic_index.h:35-37 | a closed range [k, k] yields every primary key stored under k |
| Index.PointFilter | atlasdb/storage/basic_index.h:35-37 | the range predicate of [k, k] keeps every pair stored under k |
| Index.Index.constructor | atlasdb/storage/basic_index.h:29 | a named index starts empty |
| Index.Index.Insert | atlasdb/storage/basic_index.h:43 | insert stores the pair as InsertPair does and keeps the order |
| Index.Index.Del | atlasdb/storage/basic_index.h:47 | del(key) removes the key's pairs as EraseKey does and keeps the order |
| Index.Index.DelPair | atlasdb/storage/basic_index.h:49 | del(key, data) removes the pair as ErasePair does and keeps the order |
| Index.Index.Update | atlasdb/storage/basic_index.h:45 | update moves the pair as MovePair does and keeps the order |
| Index.Index.Get | atlasdb/storage/basic_index.h:41 | get returns a primary key stored under the index key, if any |
| Index.Index.Find | atlasdb/storage/basic_index.h:59-60 | find returns a position holding the key, and end() exactly when the key is absent |
| Index.Index.Empty | atlasdb/storage/basic_index.h:58 | empty holds exactly when no pair is stored |
| Indexer.Environment.constructor | atlasdb/storage/basic_indexer.h:50 | the storage environment starts with no create or drop calls recorded |
| Indexer.Environment.Create | atlasdb/storage/basic_indexer.h:50 | create(name) records exactly one create call for that name |
| Indexer.Environment.Drop | atlasdb/storage/basic_indexer.h:64 | drop(name) records exactly one drop call for that name |
| Indexer.CreateCalls | atlasdb/storage/basic_indexer.h:52-58 | the batch create issues one create call per name, in the iterator's order |
| Indexer.DropCalls | atlasdb/storage/basic_indexer.h:69-75 | the batch drop issues one drop call per name, in the iterator's order |
| Indexer.CreateCallsAppend | atlasdb/storage/basic_indexer.h:55-57 | one more name in the batch adds exactly one create call at the end |
| Indexer.DropCallsAppend | atlasdb/storage/basic_indexer.h:72-74 | one more name in the batch adds exactly one drop call at the end |
| Indexer.CreateCallsOncePerName | atlasdb/storage/basic_indexer.h:52-58 | each name gets as many create calls as it occurs in the batch |
| Indexer.CreateAll | atlasdb/storage/basic_indexer.h:52-58 | the for_each loop appends the create calls of the whole batch to the environment's log |
| Indexer.DropAll | atlasdb/storage/basic_indexer.h:69-75 | the for_each loop appends the drop calls of the whole batch to the environment's log |
| Indexer.RangeOf | atlasdb/storage/basic_indexer.h:84-101 | the lower bound is always given; the upper bound is unbounded exactly when it is nil |
| Indexer.RangeOpenSemantics | atlasdb/storage/basic_indexer.h:85-96 | a key equal to a bound is inside the range exactly when that bound is closed ("open" true means the interval is open) |
| Indexer.Indexer.constructor | atlasdb/storage/basic_indexer.h:44 | a named indexer starts with no indexes |
| Indexer.Indexer.Subscript | atlasdb/storage/basic_indexer.h:103 | operator[] returns the named index, registering an empty one first when there is none, and changes nothing else |
| Indexer.Indexer.At | atlasdb/storage/basic_indexer.h:105 | at returns the named index when it is registered and the out-of-range error otherwise |
| Indexer.Indexer.OpenRange | atlasdb/storage/basic_indexer.h:84-101 | the range open of a registered index yields the primary keys of exactly the pairs whose key lies in the range; an unregistered name is an error |
| Indexer.Indexer.UpdateIndex | atlasdb/storage/basic_indexer.h:103 | changing an index through operator[] replaces that index's contents and leaves the other indexes alone |
| Indexer.Indexer.CloseIndex | atlasdb/storage/basic_indexer.h:107-110 | close(index), which has no body in the C++, read as unregistering the index, found by its name: exactly that index goes |
| Indexer.Indexer.Close | atlasdb/storage/basic_indexer.h:112-115 | close(), which has no body in the C++, read as emptying the registry: no index is left open |
| Indexer.Indexer.Size | atlasdb/storage/basic_indexer.h:126 | size is the number of registered indexes |
| Indexer.Indexer.Empty | atlasdb/storage/basic_indexer.h:128 | empty holds exactly when no index is registered |
| Indexer.Indexer.End | atlasdb/storage/basic_indexer.h:136 | the corrected end is one past the last index, as the const overload gives |
| Indexer.Indexer.Begin | atlasdb/storage/basic_indexer.h:130-132 | begin is a position of the index range, before end exactly when an index is registered |
| Indexer.Indexer.EndAsWritten | atlasdb/storage/basic_indexer.h:134 | the non-const end, which returns begin, never passes the real end and meets it only when no index is registered |
| Indexer.ForwardRanges | atlasdb/storage/basic_indexer.h:130-136 | with an index registered, [begin, end) covers all of them, while the non-const end as written makes the range empty |
| Storehouse.Named | atlasdb/storage/basic_storehouse.h:49 | an index that is not registered reads as empty |
| Storehouse.Pairs | atlasdb/storage/basic_storehouse.h:48-49 | an ikeyset for a primary key stands for one (index key, primary key) pair per index key |
| Storehouse.InsertAll | atlasdb/storage/basic_storehouse.h:67-70 | inserting an ikeyset adds exactly its pairs to the index |
| Storehouse.EraseAll | atlasdb/storage/basic_storehouse.h:99-103 | erasing an ikeyset removes every copy of the pairs of that primary key under the listed index keys; every other pair keeps its number of copies |
| Storehouse.ErasePrimary | atlasdb/storage/basic_storehouse.h:86-89 | removing a primary key from an index drops every pair that points at it; every other pair keeps its number of copies |
| Storehouse.InsertAllMembers | atlasdb/storage/basic_storehouse.h:67-70 | after the insert a pair is in the index exactly when it was before or it is one of the new pairs |
| Storehouse.InsertAllKeepsOrder | atlasdb/storage/basic_storehouse.h:67-70 | inserting the ikeyset keeps the index ordered |
| Storehouse.EraseAllKeepsOrder | atlasdb/storage/basic_storehouse.h:99-103 | erasing the ikeyset keeps the index ordered |
| Storehouse.ErasePrimaryKeepsOrder | atlasdb/storage/basic_storehouse.h:86-89 | removing a primary key keeps the index ordered |
| Storehouse.PutIndexes | atlasdb/storage/basic_storehouse.h:67-70 | put touches exactly the named indexes (registering the missing ones) and leaves the others alone |
| Storehouse.DelIndexes | atlasdb/storage/basic_storehouse.h:99-103 | del touches exactly the named indexes and leaves the others alone |
| Storehouse.UpdateIndexes | atlasdb/storage/basic_storehouse.h:86-89 | update touches exactly the named indexes and leaves the others alone |
| Storehouse.PutKeepsRegistryOrder | atlasdb/storage/basic_storehouse.h:67-70 | put keeps every index ordered |
| Storehouse.DelKeepsRegistryOrder | atlasdb/storage/basic_storehouse.h:99-103 | del keeps every index ordered |
| Storehouse.UpdateKeepsRegistryOrder | atlasdb/storage/basic_storehouse.h:86-89 | update keeps every index ordered |
| Storehouse.PutIndexesRecords | atlasdb/storage/basic_storehouse.h:67-70 | after put, a named index holds its old pairs plus (ik, key) for each listed ik, and nothing else |
| Storehouse.DelIndexesRecords | atlasdb/storage/basic_storehouse.h:99-103 | after del, a named index holds its old pairs minus (ik, key) for each listed ik |
| Storehouse.UpdateIndexesRecords | atlasdb/storage/basic_storehouse.h:86-89 | after update, a named index points at the key from exactly the listed index keys, and its other pairs are unchanged |
| Storehouse.PutKeepsConsistent | atlasdb/storage/basic_storehouse.h:67-70 | put keeps every index pair pointing at a stored record |
| Storehouse.ReplaceKeepsKeys | atlasdb/storage/basic_storehouse.h:86-89 | replacing a value keeps the set of stored keys |
| Storehouse.UpdateKeepsConsistent | atlasdb/storage/basic_storehouse.h:86-89 | update of a stored key keeps every index pair pointing at a stored record |
| Storehouse.RemoveKeyKeys | atlasdb/storage/basic_storehouse.h:99-103 | deleting one key keeps every other stored key |
| Storehouse.DelKeepsConsistent | atlasdb/storage/basic_storehouse.h:99-103 | del keeps every index pair pointing at a stored record, given the ikeyset lists every index entry of the key |
| Storehouse.Storehouse.constructor | atlasdb/storage/basic_storehouse.h:55 | a new storehouse has an empty repository and no indexes |
| Storehouse.Storehouse.Open | atlasdb/storage/basic_storehouse.h:57 | the constructor with index names, which has no body in the C++, read as opening one empty index per name: exactly those indexes are registered, all empty |
| Storehouse.Storehouse.Put | atlasdb/storage/basic_storehouse.h:67-70 | put stores the record when the key is new and then updates the named indexes; a duplicate key changes nothing; the indexes stay consistent with the records |
| Storehouse.Storehouse.Update | atlasdb/storage/basic_storehouse.h:86-89 | update replaces the stored value and re-points the named indexes when the key exists, changes nothing otherwise, and keeps the indexes consistent |
| Storehouse.Storehouse.Del | atlasdb/storage/basic_storehouse.h:99-103 | del removes the record and its named index entries and keeps the indexes consistent |
| Storehouse.ReplaceAbsent | atlasdb/storage/basic_storehouse.h:86-89 | updating an absent key leaves the records unchanged |
| Storehouse.PutThenPointScan | atlasdb/storage/basic_storehouse.h:67-70 | after put, a point scan of any listed index key finds the new primary key |
| Stomanip.Values | atlasdb/query/stomanip.h:43 | writing no records writes nothing |
| Stomanip.ValuesAppend | atlasdb/query/stomanip.h:40-46 | the bytes written for two runs of records are the bytes of the first followed by those of the second |
| Stomanip.ValuesSnoc | atlasdb/query/stomanip.h:43 | writing one more record appends exactly its value bytes |
| Stomanip.PageStart | atlasdb/query/stomanip.h:36-41 | the first loaded record is the start-th one, or none when start is past the end |
| Stomanip.PageEnd | atlasdb/query/stomanip.h:42-45 | loading stops after at most limit + 1 records and never past the end |
| Stomanip.Page | atlasdb/query/stomanip.h:31-46 | the loaded records are the consecutive records from position start, at most limit + 1 of them, and none exactly when start is past the end |
| Stomanip.Count | atlasdb/query/stomanip.h:26-29 | count is the repository's record count |
| Stomanip.Load | atlasdb/query/stomanip.h:31-50 | the loop writes "0" followed by the value bytes of the page of records selected by start and limit |
| Stomanip.LoadDefault | atlasdb/query/stomanip.h:31 | load(table) with the defaults start = 0 and limit = 100 writes "0" followed by the values of the first 101 records, or of all when there are fewer |
| Stomanip.PageStep | atlasdb/query/stomanip.h:40-46 | one loop iteration adds the current record exactly when start records have been skipped and at most limit have been loaded |
| Stomanip.LoadEmitsPage | atlasdb/query/stomanip.h:31-46 | the page holds min(count - start, limit + 1) consecutive records from start, and is empty when start is past the end |
| Stomanip.PagesCompose | atlasdb/query/stomanip.h:31-46 | loading limit + 1 records and then the next limit2 + 1 gives the same bytes as one load of limit + limit2 + 2 records |
| Stomanip.ValuesIgnoreKeys | atlasdb/query/stomanip.h:43 | only the values, not the keys, reach the output |
| IR.Ordinal | atlasdb/query/ir.h:27-43 | each of the 15 operation kinds has an ordinal below 15 |
| IR.OrdinalBijection | atlasdb/query/ir.h:27-43 | ordinals and operation kinds correspond one to one |
| IR.Table.constructor | atlasdb/query/ir.h:58 | a new table node has no name, no keys and no repository |
| IR.Table.SetName | atlasdb/query/ir.h:62-64 | the name setter stores the name and nothing else, and the name getter then returns it |
| IR.LogicAnd.constructor | atlasdb/query/ir.h:84 | a new and-node has an empty keyset |
| IR.LogicOr.constructor | atlasdb/query/ir.h:100 | a new or-node has an empty keyset |
| IR.Operation.Default | atlasdb/query/ir.h:116 | the default operation kind is equal_to |
| IR.Operation.constructor | atlasdb/query/ir.h:116 | an operation node holds the kind it is given, with no name and no index |
| IR.Operation.SetName | atlasdb/query/ir.h:120-122 | the name setter stores the name and nothing else, and the name getter then returns it |
| IR.Operation.Op2Set | atlasdb/query/ir.h:124 | op2set stores the kind and nothing else |
| IR.Operation.SetKeyset | atlasdb/query/ir.h:126 | the keyset setter has an empty body, so the node is unchanged |
| IR.Operation.SetIndex | atlasdb/query/ir.h:128 | the index setter stores the index and nothing else |
| Algorithm.Seconds | atlasdb/query/algorithm.h:19-21 | the keys taken from a range are exactly the second components of its elements |
| Algorithm.SecondsSnoc | atlasdb/query/algorithm.h:19-21 | one more element of the range adds exactly its second component |
| Algorithm.KeysetOr | atlasdb/query/algorithm.h:24-30 | keyset_or leaves keys holding their union with the range's second components |
| Algorithm.KeysetAnd | atlasdb/query/algorithm.h:16-22 | keyset_and, as written, also leaves keys holding the union |
| Algorithm.KeysetIntersect | atlasdb/query/algorithm.h:16-22 | the corrected keyset_and keeps exactly the keys that are also second components of the range |
| Algorithm.KeysetAndIsNotIntersection | atlasdb/query/algorithm.h:16-22 | a concrete keyset and range on which the as-written keyset_and differs from the intersection |
| Algorithm.SecondsAppend | atlasdb/query/algorithm.h:16-30 | the primary keys of two consecutive ranges are those of the first range together with those of the second |
| Algorithm.FoldsCompose | atlasdb/query/algorithm.h:16-30 | or-folding a range in two consecutive pieces gives the same keyset as folding it whole; the intersection of the whole range is the union of the pieces' intersections |
| Processor.Dispatch | atlasdb/query/processor.h:36-75 | the corrected dispatch finds a processor exactly for the nine (parent, child) entries the processor trees list below the table (processor.h:139-170), and it is the processor at that same path |
| Processor.DispatchAsWritten | atlasdb/query/processor.h:42-74 | as written, a dispatched path keeps the parent, which is a table or logic node, and names an operation or logic child; below any parent but a table it agrees with the corrected dispatch |
| Processor.DispatchDiffers | atlasdb/query/processor.h:42-52 | the as-written dispatch differs from the corrected one exactly for a table parent with a table or logic_or child: (table, table) goes to (table, logic_or) and (table, logic_or) goes nowhere |
| Processor.AttacherAt | atlasdb/query/processor.h:153-159 | the attacher tree binds the repository exactly at (node, table) and an index exactly under an inner node at an operation |
| Processor.ExecutorAt | atlasdb/query/processor.h:161-167 | the executor tree acts only at an operation under an inner node: into the table keyset, an intersection under logic_and, a union under logic_or |
| Processor.Initializer.constructor | atlasdb/query/processor.h:81-93 | a fresh initializer has no table name and no index names |
| Processor.Initializer.VisitTable | atlasdb/query/processor.h:83-85 | visiting a table records its name |
| Processor.Initializer.VisitOperation | atlasdb/query/processor.h:87-89 | visiting an operation appends its name to the index list |
| Processor.Attacher.constructor | atlasdb/query/processor.h:97 | the attacher opens a storehouse on the table with exactly the listed indexes |
| Processor.Attacher.VisitTable | atlasdb/query/processor.h:99-101 | visiting a table binds the shared storehouse as its repository |
| Processor.Attacher.VisitOperation | atlasdb/query/processor.h:103-105 | visiting an operation binds the shared storehouse as its index |
| Processor.IndexRange | atlasdb/query/processor.h:113 | the range of an operation's index is the set of primary keys stored in the index named by the operation |
| Processor.ExecuteTable | atlasdb/query/processor.h:112-114 | executing an operation under a table adds the index range to the table's keyset |
| Processor.ExecuteAnd | atlasdb/query/processor.h:117-121 | executing under logic_and replaces the keyset with its intersection with the index range |
| Processor.ExecuteOr | atlasdb/query/processor.h:124-128 | executing under logic_or replaces the keyset with its union with the index range |
| Buffer.Buffer.constructor | atlasdb/utility/buffer.h:22-27 | a buffer whose low water ≤ high water < capacity starts with its indexes at the two water marks |
| Buffer.Buffer.Readable | atlasdb/utility/buffer.h:104-106 | the readable bytes start at peek() and number dirty_space_size() |
| Buffer.Buffer.DirtySpaceSize | atlasdb/utility/buffer.h:35 | the dirty space is the distance from the low index to the high index |
| Buffer.Buffer.AboveHighWaterSize | atlasdb/utility/buffer.h:37 | the space above the high index runs to the end of the array |
| Buffer.Buffer.UnderLowWaterSize | atlasdb/utility/buffer.h:39 | the space under the low index is the low index |
| Buffer.Buffer.RegionsPartition | atlasdb/utility/buffer.h:35-39 | the three regions add up to the capacity |
| Buffer.Buffer.Swap | atlasdb/utility/buffer.h:29-33 | swap exchanges the arrays and both indexes, and so the readable bytes, of the two buffers; swapping a buffer with itself leaves it as it was |
| Buffer.Buffer.Retrieve | atlasdb/utility/buffer.h:46-53 | retrieving fewer bytes than are readable drops exactly those bytes from the front; retrieving at least all of them empties the buffer and resets both indexes to 0 |
| Buffer.Buffer.RetrieveInt32 | atlasdb/utility/buffer.h:41-44 | retrieve<T>() retrieves sizeof(int32_t) = 4 bytes whatever T is |
| Buffer.Buffer.RetrieveAll | atlasdb/utility/buffer.h:55-58 | retrieve_all resets both indexes to 0 and leaves nothing readable |
| Buffer.Buffer.RetrieveAs | atlasdb/utility/buffer.h:63-70 | retrieve_as(len) returns the first len readable bytes and leaves exactly the rest readable |
| Buffer.Buffer.RetrieveAllAs | atlasdb/utility/buffer.h:60-61 | retrieve_as() returns every readable byte and empties the buffer |
| Buffer.Buffer.Append | atlasdb/utility/buffer.h:77-82 | append copies the bytes at the high index, moves it up by their length and so appends them to the readable bytes; nothing else in the array changes |
| Buffer.Buffer.Prepend | atlasdb/utility/buffer.h:84-88 | prepend moves the low index down by the length and copies the bytes there, so they come before the readable bytes |
| Buffer.Buffer.LowerLowWater | atlasdb/utility/buffer.h:116 | lower_low_water(len) moves the low index up by len, dropping len readable bytes |
| Buffer.Buffer.RaiseHighWater | atlasdb/utility/buffer.h:118 | raise_high_water(len) moves the high index up by len, making the next len array bytes readable |
| Message.Digits | atlasdb/net/message.h:59 | the decimal digits printed by %d: at least one, all of them digit characters |
| Message.DigitsLength | atlasdb/net/message.h:59 | a length below 10^k prints in at most k digits, so every allowed body length fits the 4-byte header |
| Message.Spaces | atlasdb/net/message.h:59 | the padding of a right-aligned %4d field is spaces only |
| Message.Format4 | atlasdb/net/message.h:57-61 | the header written for a length below 10000 is exactly header_length = 4 bytes |
| Message.TakeUntilNul | atlasdb/net/message.h:45-47 | strncat copies the header bytes up to the first NUL: a prefix with no NUL, stopped only by a NUL or the end |
| Message.Atoi | atlasdb/net/message.h:48 | atoi gives a negative value only after a minus sign, and 0 when the first non-blank character is neither a sign nor a digit |
| Message.SkipSpaces | atlasdb/net/message.h:48 | atoi skips the leading white space: what is left is no longer than the input and does not start with a blank |
| Message.LeadingDigits | atlasdb/net/message.h:48 | atoi reads the longest prefix of digit characters |
| Message.DigitsValueBelow | atlasdb/net/message.h:48 | the value atoi reads from k digits is below 10^k |
| Message.HeaderValue | atlasdb/net/message.h:44-48 | a 4-byte header decodes to a value between -999 and 9999 |
| Message.DigitsValueOfDigits | atlasdb/net/message.h:48-59 | reading back the printed digits of n gives n |
| Message.AllDigitsLeading | atlasdb/net/message.h:48 | a digits-only string is read whole |
| Message.SkipSpacesPrefix | atlasdb/net/message.h:48 | atoi skips exactly the leading spaces |
| Message.EncodeDecodeRoundTrip | atlasdb/net/message.h:44-61 | decoding the header encode_header writes for a body length of at most 1024 gives that length back |
| Message.NoNulKept | atlasdb/net/message.h:45-47 | a header without NUL bytes is copied whole |
| Message.DecodeNegative | atlasdb/net/message.h:48 | the header "-1" reads as -1 (which decode_header must reject) |
| Message.DecodeOversize | atlasdb/net/message.h:48-52 | the header "2000" reads as 2000, above max_body_length |
| Message.AllDigitsDecode | atlasdb/net/message.h:44-48 | a header of four digits reads as their decimal value |
| Message.ValueOf2000 | atlasdb/net/message.h:48 | the digits "2000" have the value 2000 |
| Message.Message.constructor | atlasdb/net/message.h:26 | a new message has body length 0 |
| Message.Message.Length | atlasdb/net/message.h:36 | length is header_length plus the body length and fits the data array |
| Message.Message.Body | atlasdb/net/message.h:33-34 | the body is the body_length bytes right after the 4-byte header |
| Message.Message.SetBodyLength | atlasdb/net/message.h:39-42 | the setter stores the length, capped at max_body_length = 1024 |
| Message.Message.DecodeHeader | atlasdb/net/message.h:44-55 | decode_header succeeds exactly when the header reads as a number in [0, 1024] and stores it; otherwise (negative, which wraps to a huge size_t, or too large) the body length becomes 0 |
| Message.Message.EncodeHeader | atlasdb/net/message.h:57-61 | encode_header writes the %4d form of the body length into the first 4 bytes, leaves the body alone, and the header then decodes to the body length |
| Codec.Pow256 | libs/test/examples/single/codec.h:30-31 | 256^k is positive |
| Codec.ToBigEndian | libs/test/examples/single/codec.h:55-57 | the big-endian encoding of a length in k bytes has exactly k bytes |
| Codec.BigEndian | libs/test/examples/single/codec.h:30-31 | networkToHost64 of k bytes is below 256^k |
| Codec.BigEndianSnoc | libs/test/examples/single/codec.h:30-31 | one more low-order byte multiplies the value by 256 and adds the byte |
| Codec.DivBound | libs/test/examples/single/codec.h:55 | dropping the last byte of a value below 256·p leaves a value below p |
| Codec.BigEndianRoundTrip | libs/test/examples/single/codec.h:30-57 | networkToHost64 undoes hostToNetwork64: decoding the k-byte encoding of n < 256^k gives n |
| Codec.Uint64IsPow | libs/test/examples/single/codec.h:82 | an 8-byte header holds exactly the uint64_t range |
| Codec.SplitLeavesSuffix | libs/test/examples/single/codec.h:28-48 | what the loop leaves unread is a suffix of the buffer |
| Codec.Split | libs/test/examples/single/codec.h:28-48 | the loop never leaves more than it was given, leaves the buffer untouched exactly when it delivers no frame, and every delivered length is at most reserved_buffer_size |
| Codec.SplitStopsAtBoundary | libs/test/examples/single/codec.h:28-48 | the loop stops on an invalid length (above reserved_buffer_size) or when the rest is shorter than a header or than its frame |
| Codec.SplitDeliver | libs/test/examples/single/codec.h:37-43 | a complete frame with a valid length is delivered and the loop goes on with the bytes after it |
| Codec.SplitStop | libs/test/examples/single/codec.h:33-47 | an invalid or incomplete frame delivers nothing and leaves the buffer as it is, and the stop counts as invalid exactly when the length is too large |
| Codec.Frame | libs/test/examples/single/codec.h:51-59 | send frames a message as an 8-byte length header followed by the message bytes |
| Codec.Lengths | libs/test/examples/single/codec.h:37-43 | each delivered frame is reported by its body length |
| Codec.SplitFrames | libs/test/examples/single/codec.h:25-59 | the receiver splits any concatenation of sent frames plus fewer than 8 trailing bytes into exactly those frames' lengths and the trailing bytes |
| Codec.FrameRoundTrip | libs/test/examples/single/codec.h:25-59 | a single sent frame is received as one message of the same length, with nothing left over |
| Codec.Inbox.constructor | libs/test/examples/single/codec.h:25 | an input buffer holds the bytes it is given |
| Codec.Inbox.Retrieve | libs/test/examples/single/codec.h:38-42 | retrieve drops exactly len bytes from the front of the readable bytes |
| Codec.Connection.constructor | libs/test/examples/single/codec.h:25 | a fresh connection has sent nothing and was never shut down |
| Codec.Connection.Shutdown | libs/test/examples/single/codec.h:35 | shutdown is recorded once per call |
| Codec.Connection.Send | libs/test/examples/single/codec.h:58 | send appends the bytes to what the connection has sent |
| Codec.StepOf | libs/test/examples/single/codec.h:28-47 | one loop iteration waits for more data exactly when there is no full header or the frame is valid but incomplete; it delivers a complete valid frame; it rejects a length above reserved_buffer_size |
| Codec.NextAsWritten | libs/test/examples/single/codec.h:33-44 | one pass as written leaves the buffer unchanged exactly on an invalid length; a delivered frame consumes its header and its body |
| Codec.OversizeLoopsForever | libs/test/examples/single/codec.h:33-36 | a header announcing reserved_buffer_size + 1 bytes is invalid and the as-written iteration leaves the buffer unchanged, so the while loop never ends |
| Codec.Reports | libs/test/examples/single/codec.h:41-43 | n delivered frames produce n "Received" callbacks |
| Codec.ReportsSnoc | libs/test/examples/single/codec.h:41-43 | one more delivered frame adds one "Received" callback at the end |
| Codec.Codec.constructor | libs/test/examples/single/codec.h:20-23 | a fresh codec has reported no messages |
| Codec.Codec.OnMessage | libs/test/examples/single/codec.h:25-49 | the corrected onMessage delivers every complete valid frame in order, reports one "Received" per frame, leaves exactly the unread suffix in the buffer, and shuts the connection down once (and stops) on an invalid length |
| Codec.Codec.Send | libs/test/examples/single/codec.h:51-59 | send writes the framed message to the connection |
| Sts.And | atlasdb/storage/sts.h:25-26 | & keeps a flag exactly when both operands have it |
| Sts.Or | atlasdb/storage/sts.h:28-29 | \| has a flag exactly when either operand has it |
| Sts.Xor | atlasdb/storage/sts.h:31-32 | ^ has a flag exactly when one operand has it and the other does not |
| Sts.Not | atlasdb/storage/sts.h:34-35 | ~ flips every flag |
| Sts.Sts.constructor | atlasdb/storage/sts.h:51 | a new status is good, with no exception mask |
| Sts.Sts.Good | atlasdb/storage/sts.h:89 | a good status has none of bad, eof and fail set |
| Sts.Sts.Eof | atlasdb/storage/sts.h:93 | a status at end of file is not good |
| Sts.Sts.Fail | atlasdb/storage/sts.h:96 | fail holds exactly when bad or fail is set |
| Sts.Sts.Bad | atlasdb/storage/sts.h:99 | a bad status is not good |
| Sts.Sts.RdState | atlasdb/storage/sts.h:104 | the state read back is zero exactly when good, and carries eof and bad exactly when eof() and bad() hold |
| Sts.Sts.Exceptions | atlasdb/storage/sts.h:123 | the mask read back is empty exactly when no state would throw under it |
| Sts.Sts.Failed | atlasdb/storage/sts.h:101 | operator! is fail() |
| Sts.Sts.Clear | atlasdb/storage/sts.h:109-115 | clear(f) sets the state to f and throws exactly when the exception mask shares a flag with f |
| Sts.Sts.ClearAll | atlasdb/storage/sts.h:109 | clear() with the default goodbit makes the status good and never throws |
| Sts.Sts.SetState | atlasdb/storage/sts.h:107 | setstate(f) adds f to the current flags and throws exactly when the mask meets the new state |
| Sts.Sts.SetExceptions | atlasdb/storage/sts.h:125-128 | exceptions(ex) stores the mask, keeps the state, and throws exactly when the new mask meets the current state |
| Sts.StatePredicates | atlasdb/storage/sts.h:89-99 | fail() means badbit or failbit is set; bad() implies fail(); a good status is neither eof, fail nor bad |
| Sts.SetStateKeepsFlags | atlasdb/storage/sts.h:107 | setstate never clears a flag, and setting badbit makes fail() true |
| Sts.SingleFlagMask | atlasdb/storage/sts.h:113 | a mask of one flag throws exactly when that flag is set, and the goodbit mask never throws |
| Task.AfterRun | atlasdb/system/task.h:59-72 | one do_run removes the front task, and puts it back at the end exactly when it is callable and paused |
| Task.RunTimes | atlasdb/system/task.h:59-72 | repeated do_run calls never lengthen the queue, and every task left was queued at least as often before |
| Task.RunResult | atlasdb/system/task.h:59-72 | do_run yields the front task's id exactly when the task is callable, and nothing (the returned 0) otherwise |
| Task.Usable | atlasdb/system/task.h:36 | a task converts to true exactly when it holds a callable |
| Task.PausedTasksRotate | atlasdb/system/task.h:59-72 | when every task is callable and paused, k runs rotate the queue by k |
| Task.RotateOnce | atlasdb/system/task.h:60-69 | one run on a queue of paused tasks moves the front task to the back, and all tasks stay paused |
| Task.RotateShift | atlasdb/system/task.h:60-69 | rotating by one and then by k - 1 is rotating by k |
| Task.DroppedTaskGone | atlasdb/system/task.h:60-63 | a front task that is not both callable and paused is gone after its run, and later runs never bring it back |
| Task.RunTimesSubset | atlasdb/system/task.h:59-72 | running never adds a task that was not queued |
| Task.TaskRunner.constructor | atlasdb/system/task.h:76 | a new runner has an empty queue |
| Task.TaskRunner.Enqueue | atlasdb/system/task.h:51-53 | enqueue pushes the task at the back |
| Task.TaskRunner.Suspend | atlasdb/system/task.h:55 | suspend pushes the task at the back too |
| Task.TaskRunner.DoRun | atlasdb/system/task.h:59-72 | do_run on a non-empty queue leaves the queue as AfterRun says and returns the id RunResult gives |
| Id.ToInt | atlasdb/utility/id.h:26 | converting the size_t counter to int keeps it in the 32-bit signed range, congruent modulo 2^32, and unchanged up to INT_MAX |
| Id.ToSize | atlasdb/utility/id.h:27 | returning an int as size_t yields a value below 2^64, congruent modulo 2^64, and unchanged for non-negative values |
| Id.IdGenerators.Counter | atlasdb/utility/id.h:24 | every per-target counter stays below 2^64 |
| Id.IdGenerators.constructor | atlasdb/utility/id.h:24 | every target's static counter starts at 0 |
| Id.IdGenerators.NextAsWritten | atlasdb/utility/id.h:23-28 | next as written returns the counter passed through int and back to size_t, and advances that target's counter by one modulo 2^64 |
| Id.IdGenerators.Next | atlasdb/utility/id.h:23-28 | the corrected next returns the target's counter, advances it by one modulo 2^64, and leaves other targets' counters alone |
| Id.AsWrittenBelowIntMax | atlasdb/utility/id.h:26-27 | up to INT_MAX the as-written next returns the counter unchanged |
| Id.AsWrittenWrapsPastIntMax | atlasdb/utility/id.h:26-27 | ids count from 0, so the call that should return 2^31 returns 2^64 - 2^31 |
| Id.FirstIds | atlasdb/utility/id.h:19-28 | ids count from 0 separately per target type: session, session, message, session give 0, 1, 0, 2 |
| Catalog.UpdateCount | atlasdb/db/catalog.h:43-49 | assigning a map entry adds one key exactly when the key was absent |
| Catalog.Catalog.constructor | atlasdb/db/catalog.h:53-56 | a new catalog has no tables, so es_count is 0 |
| Catalog.Catalog.Put | atlasdb/db/catalog.h:43-45 | put stores the table info under its name, replacing any earlier one, keeps every other table, and adds one to es_count exactly when the name is new |
| Catalog.Catalog.EsCache | atlasdb/db/catalog.h:19-21 | the cache returned maps every name to the description of that name, and has es_count entries |
| Catalog.Catalog.EsCount | atlasdb/db/catalog.h:47-49 | es_count is zero exactly when nothing is cached |
| Catalog.PutIdempotent | atlasdb/db/catalog.h:43-45 | putting the same table info twice is the same as putting it once, with the same count |
| PtreePrinter.Size | atlasdb/utility/ptree_printer.h:40-54 | a tree has at least one node, its root |
| PtreePrinter.Dashes | atlasdb/utility/ptree_printer.h:47-48 | the while (l--) loop prints exactly level dashes |
| PtreePrinter.Print | atlasdb/utility/ptree_printer.h:40-54 | print writes exactly the lines Lines(pt, level) gives: at level 0 the root line "<data>" followed by the level-1 output; at level n each child's dashed "<key, data>" line followed by that child's own output at level n + 1 |
| PtreePrinter.PrintDefault | atlasdb/utility/ptree_printer.h:40 | print(pt) with the default level 0 writes one line per node, the root line "<data>" first |
| PtreePrinter.ChildBelow | atlasdb/utility/ptree_printer.h:51 | each child subtree is smaller than its parent's children, so the recursion ends |
| PtreePrinter.Lines | atlasdb/utility/ptree_printer.h:40-54 | printing from level 0 writes one line per node of the tree, the root line first; from a deeper level, one line per node below the root |
| PtreePrinter.ChildrenLines | atlasdb/utility/ptree_printer.h:46-52 | the children loop writes one line per node in the children's subtrees |
| PtreePrinter.LinesIndented | atlasdb/utility/ptree_printer.h:40-54 | at level 0 the root line comes first and the rest is the level-1 output; at level n > 0 every line starts with at least n dashes |
| PtreePrinter.ChildrenLinesIndented | atlasdb/utility/ptree_printer.h:46-52 | every line of the children loop at level n starts with at least n dashes |
| PtreePrinter.ChildLineShape | atlasdb/utility/ptree_printer.h:48-49 | a child line is exactly level dashes followed by "<key, data>" |

## Left out

- B-tree node surgery (insert_value, remove_value, split, merge, rebalance_*, try_shrink, swap) and the iterators' slow paths (increment_slow, decrement_slow, increment_by): their bodies are not in the header. The tree-level operations are modelled on the in-order entry sequence, whose order and contents these routines only maintain.
- B-tree insert with hint, range insert, assign, clear, swap, verify, dump, max_size, rbegin/rend, and the floating-point statistics (fullness, overhead, average_bytes_per_value, bytes_used): allocator plumbing, floating point or output.
- The generic key and comparator types: keys are byte strings under the byte-wise order. The comparator adapters are modelled for that order and for a general three-way comparison. `btree_binary_search_compare_to::lower_bound` (atlasdb/storage/btree/btree.h:302-305) passes a default-constructed `CompareTo()` instead of the node's comparator; the model passes the node's comparator, and the two agree for the stateless `less<string>` and `greater<string>` adapters.
- BTreeNode.Iterator.Increment, BTreeNode.Iterator.Decrement: when the fast path fails they say that increment_slow or decrement_slow is called, but do not model the move into the neighbouring node.
- Repository open, close, lower_bound(key, open), upper_bound(key, open), the buffer-filling get, the raw-pointer and template put overloads, and the update overloads other than update(key, value): declared without a body or a documented result.
- Index lower_bound(lower, open) and upper_bound(upper, open), and its iterators: modelled through the bounded scan (Index.Scan) that the indexer's range open returns, not as cursor state.
- Indexer open(name): declared only. `operator[]` is modelled as Indexer.Indexer.Subscript. The C++ multimap has neither `operator[]` nor `at`, so both Indexer.Indexer.Subscript and Indexer.Indexer.At (atlasdb/storage/basic_indexer.h:103, 105) read the registry as a map from name to index contents, held by value.
- Indexer front, back, rbegin and rend: trivial forwards to the registry.
- Indexer.Indexer.OpenRange: an unregistered name is an error; the C++ declaration does not say what it does.
- Indexer create(name) and drop(name): storage-environment calls with no body. They are recorded as calls on Indexer.Environment.
- Storehouse.Storehouse.Del: keeps the indexes consistent only when the ikeyset names every index entry of the key. The C++ relies on its caller for the same thing.
- Storehouse put(node), the template put and update overloads, update(key, new_key, data), open and close: declared only, or delayed in the source. The constructor taking index names is modelled as Storehouse.Storehouse.Open, read as above.
- The stomanip load_by_* / update_by_* / insert / remove entry points: declared only. Opening the repository by table name is modelled by passing the repository.
- Algorithm.KeysetAnd, Algorithm.KeysetOr: the lambdas of keyset_and and keyset_or take `It& it` (atlasdb/query/algorithm.h:19, 27), but std::for_each passes the element `*it`, so neither compiles once instantiated. The model reads each lambda as taking the element.
- The algorithm keyset_and_in, keyset_and_not_in, keyset_or_in, keyset_or_not_in, keyset_and_like and keyset_or_like: they do not compile (an `interator` typo, lambdas that capture the wrong variables, an undefined `like`).
- The processor's initializer tree: every slot holds no processor, so dispatching through it does nothing. The fusion-map lookup `at_path` is modelled as the path itself (Processor.Dispatch, AttacherAt, ExecutorAt).
- Processor.ExecuteTable: `std::copy` into `t.keyset().begin()` writes through a set iterator, which does not compile for std::set. It is modelled as inserting the index range.
- Processor.ExecuteAnd, Processor.ExecuteOr: `set_intersection` and `set_union` into `keyset.begin()` are modelled as set intersection and union. The index range is taken to be the set of primary keys of the operation's index.
- Buffer.Buffer.Append, Buffer.Buffer.RaiseHighWater: require room above the high index. The C++ would write past the end of its std::array.
- Buffer.Buffer.Prepend: requires len ≤ the low index. The C++ would wrap its size_t index and write out of bounds.
- Buffer.Buffer.LowerLowWater: requires the low index to stay at or below the high index. Otherwise the C++ dirty_space_size wraps around.
- The buffer's POD read, peek and append templates (`read<T>`, `peek<T>`, `append(const T&)`) and the raw low_water/high_water pointers: type punning over raw memory. The byte-level forms are modelled.
- Message data() and body() as raw pointers: modelled as the Message.Message.Body bytes.
- The codec's send(vector) and send(Buffer&) overloads: they depend on muduo's Buffer::swap with a vector and on a prepended gap.
- The codec's logging and receive timestamp, and the message callback's payload: the callback is modelled by the "Received" reports it makes.
- Codec.Codec.Send: requires the message length to fit a uint64_t, as size_t does.
- Sts: the `failure` exception class. A throw is modelled as the `thrown` result of Clear, SetState and SetExceptions, with the state already updated, as in the C++.
- Task run(): it schedules do_run on a thread-pool singleton.
- Task operator(): do_run never invokes the task.
- Task paused() and id(): declared only, so they are modelled as fields of Task.Task.
- Task.TaskRunner.DoRun: requires a non-empty queue, because front() on an empty std::queue is undefined. The `0` it returns for a non-callable task is modelled as None.
- Task do_run result: do_run (atlasdb/system/task.h:59-72) is declared to return a `const uuid&`, but it returns the local `task_id` (task.h:65, 71), so the reference dangles once do_run returns. `return 0;` (task.h:63) does not type-check against that return type. run() (task.h:46-49) discards the result anyway. The model returns the id by value, as an Option.
- Id: the lock/atomic TODO. Id.IdGenerators keeps one counter per target type, as the function-local static does per template instance.
- Catalog setters es_cache and cluster_info: both assign `_datanode_info` instead of their own member (atlasdb/db/catalog.h:31-36), and the es_cache setter names its parameter type after itself, which does not type-check. The datanode_info setter (atlasdb/db/catalog.h:39-40) assigns the right member; it is left out with the cluster and datanode records, which nothing else in the model reads.
- Catalog cluster_info and datanode_info getters: trivial accessors of records the model does not otherwise use.
- PtreePrinter.Print: a negative level is ruled out by the level's type (nat); every call passes 0 or a deeper level. In the C++ a negative level makes `while (l--)` run until `l` overflows, which is undefined behaviour, and the recursion then climbs towards level 0. Output to std::cout is modelled as the returned sequence of lines.
- Networking, the V8 bindings, threads and file I/O: outside this core.

## Findings

| source | as written | input that shows it | evidently intended | confidence | as-written member | corrected member |
|---|---|---|---|---|---|---|
| atlasdb/storage/basic_repository.h:203-205 | non-const rend() returns `_container.rbegin()` | any repository with at least one record: [rbegin, rend) is empty | rend() returns `_container.rend()`, as the const overload does | high; not executed | Repository.ReverseTraversals | Repository.Repository.REnd |
| atlasdb/storage/basic_indexer.h:134 | non-const end() returns `_indexes.begin()` | any indexer with one index registered: [begin, end) is empty | end() returns `_indexes.end()`, as the const overload does | high; not executed | Indexer.ForwardRanges | Indexer.Indexer.End |
| atlasdb/storage/basic_repository.h:119-127 | update(key, new_value) only calls `find_unique(key)` | store ([1], [1]), update [1] to [2], then get [1]: still [1] | replace the stored value, as the doc comment says | high; not executed | Repository.UpdateAsWrittenLosesValue | Repository.Repository.ReplaceValue |
| atlasdb/query/processor.h:49-51 | a table child under a table goes to the (table, logic_or) processor, and a logic_or child under a table goes nowhere | parent table, current logic_or: no processor runs | test for `logic_or` and call (table, logic_or), as the other two parents do | high; not executed | Processor.DispatchDiffers | Processor.Dispatch |
| atlasdb/query/algorithm.h:16-22 | if its lambda is read as taking the element (as written it takes `It&` and does not compile), keyset_and inserts every second component, so it is a union (the same as keyset_or) | keys {[1]}, range [([7], [2])]: the result is {[1], [2]}, not {} | keep only the keys that also occur in the range | medium; not executed | Algorithm.KeysetAndIsNotIntersection | Algorithm.KeysetIntersect |
| libs/test/examples/single/codec.h:33-36 | on an invalid length the loop shuts down the connection but neither consumes nor breaks | a header announcing reserved_buffer_size + 1 bytes: the while loop repeats forever | leave the loop after shutting down | high; not executed | Codec.OversizeLoopsForever | Codec.Codec.OnMessage |
| atlasdb/utility/id.h:26 | the size_t counter passes through `int current_id` | the call that should return 2^31 returns 2^64 - 2^31 | keep the id as size_t | medium; not executed | Id.AsWrittenWrapsPastIntMax | Id.IdGenerators.Next |
