/**
 * A storehouse: the repository of a table together with the indexer of the
 * same table. put, update and del change the record and every index the
 * caller names, with the index keys the caller derives for that record.
 *
 * The index side of each operation is a function on the name -> index
 * contents registry; the storehouse methods apply it.
 */
module Storehouse {
  import opened Keys
  import opened Wrappers
  import BTree
  import Index
  import Repository
  import Indexer

  type Registry = map<string, seq<Index.IndexEntry>>

  /** named_ikeyset: for each index name, the index keys of one record. */
  type NamedIkeyset = map<string, seq<Key>>

  /** The contents of a named index; a missing one reads as empty, as the
    * indexer's operator[] creates it. */
  function Named(ix: Registry, n: string): (r: seq<Index.IndexEntry>)
    ensures n !in ix ==> r == []
  {
    if n in ix then ix[n] else []
  }

  /** The (index key, primary key) pairs of one record in one index. */
  function Pairs(iks: seq<Key>, pk: Key): (r: seq<Index.IndexEntry>)
    ensures |r| == |iks|
    ensures forall i :: 0 <= i < |iks| ==> r[i] == BTree.Entry(iks[i], pk)
  {
    if |iks| == 0 then [] else [BTree.Entry(iks[0], pk)] + Pairs(iks[1..], pk)
  }

  /** Inserts the pair (ik, pk) for every ik, in order. */
  function InsertAll(es: seq<Index.IndexEntry>, iks: seq<Key>, pk: Key): (r: seq<Index.IndexEntry>)
    ensures |r| == |es| + |iks|
    ensures multiset(r) == multiset(es) + multiset(Pairs(iks, pk))
    decreases |iks|
  {
    if |iks| == 0 then es
    else
      var r := InsertAll(Index.InsertPair(es, iks[0], pk), iks[1..], pk);
      assert Pairs(iks, pk) == [BTree.Entry(iks[0], pk)] + Pairs(iks[1..], pk);
      r
  }

  /** Erases the pair (ik, pk) for every ik. */
  function EraseAll(es: seq<Index.IndexEntry>, iks: seq<Key>, pk: Key): (r: seq<Index.IndexEntry>)
    ensures forall e :: e in r <==> e in es && !(e.value == pk && e.key in iks)
    ensures forall e :: multiset(r)[e] == if e.value == pk && e.key in iks then 0 else multiset(es)[e]
    decreases |iks|
  {
    if |iks| == 0 then es
    else EraseAll(Index.ErasePair(es, iks[0], pk), iks[1..], pk)
  }

  /** Erases every pair whose primary key is pk. */
  function ErasePrimary(es: seq<Index.IndexEntry>, pk: Key): (r: seq<Index.IndexEntry>)
    ensures forall e :: e in r <==> e in es && e.value != pk
    ensures forall e :: multiset(r)[e] == if e.value == pk then 0 else multiset(es)[e]
  {
    if |es| == 0 then []
    else
      assert es == [es[0]] + es[1..];
      (if es[0].value == pk then [] else [es[0]]) + ErasePrimary(es[1..], pk)
  }

  lemma InsertAllMembers(es: seq<Index.IndexEntry>, iks: seq<Key>, pk: Key)
    ensures forall e :: e in InsertAll(es, iks, pk) <==> e in es || (e.value == pk && e.key in iks)
  {
    var r := InsertAll(es, iks, pk);
    forall e
      ensures e in r <==> e in es || (e.value == pk && e.key in iks)
    {
      assert (e in r) == (e in multiset(r));
      assert (e in es) == (e in multiset(es));
      assert (e in Pairs(iks, pk)) == (e in multiset(Pairs(iks, pk)));
      if e.value == pk && e.key in iks {
        var i :| 0 <= i < |iks| && iks[i] == e.key;
        assert Pairs(iks, pk)[i] == e;
      }
    }
  }

  lemma {:induction false} InsertAllKeepsOrder(es: seq<Index.IndexEntry>, iks: seq<Key>, pk: Key)
    requires BTree.Sorted(es)
    ensures BTree.Sorted(InsertAll(es, iks, pk))
    decreases |iks|
  {
    if |iks| > 0 {
      Index.OperationsKeepOrder(es, iks[0], iks[0], pk);
      InsertAllKeepsOrder(Index.InsertPair(es, iks[0], pk), iks[1..], pk);
    }
  }

  lemma {:induction false} EraseAllKeepsOrder(es: seq<Index.IndexEntry>, iks: seq<Key>, pk: Key)
    requires BTree.Sorted(es)
    ensures BTree.Sorted(EraseAll(es, iks, pk))
    decreases |iks|
  {
    if |iks| > 0 {
      Index.ErasePairKeepsOrder(es, iks[0], pk);
      EraseAllKeepsOrder(Index.ErasePair(es, iks[0], pk), iks[1..], pk);
    }
  }

  lemma {:induction false} ErasePrimaryKeepsOrder(es: seq<Index.IndexEntry>, pk: Key)
    requires BTree.Sorted(es)
    ensures BTree.Sorted(ErasePrimary(es, pk))
  {
    if |es| > 0 {
      ErasePrimaryKeepsOrder(es[1..], pk);
      var rest := ErasePrimary(es[1..], pk);
      if es[0].value != pk {
        var r := [es[0]] + rest;
        forall i, j | 0 <= i < j < |r|
          ensures LessEq(r[i].key, r[j].key)
        {
          if i == 0 {
            assert rest[j - 1] in es[1..];
            var m :| 0 <= m < |es[1..]| && es[1..][m] == rest[j - 1];
            assert es[m + 1] == r[j];
          }
        }
      }
    }
  }

  /** The registry after put: each named index gains the record's pairs. */
  function PutIndexes(ix: Registry, ikeys: NamedIkeyset, pk: Key): (r: Registry)
    ensures r.Keys == ix.Keys + ikeys.Keys
    ensures forall n :: n in ix && n !in ikeys ==> r[n] == ix[n]
  {
    map n | n in ix.Keys + ikeys.Keys :: if n in ikeys then InsertAll(Named(ix, n), ikeys[n], pk) else ix[n]
  }

  /** The registry after del: each named index loses the record's pairs. */
  function DelIndexes(ix: Registry, ikeys: NamedIkeyset, pk: Key): (r: Registry)
    ensures r.Keys == ix.Keys + ikeys.Keys
    ensures forall n :: n in ix && n !in ikeys ==> r[n] == ix[n]
  {
    map n | n in ix.Keys + ikeys.Keys :: if n in ikeys then EraseAll(Named(ix, n), ikeys[n], pk) else ix[n]
  }

  /** The registry after update: each named index drops whatever pairs it
    * had for the record and gains the record's new pairs. */
  function UpdateIndexes(ix: Registry, ikeys: NamedIkeyset, pk: Key): (r: Registry)
    ensures r.Keys == ix.Keys + ikeys.Keys
    ensures forall n :: n in ix && n !in ikeys ==> r[n] == ix[n]
  {
    map n | n in ix.Keys + ikeys.Keys :: if n in ikeys then InsertAll(ErasePrimary(Named(ix, n), pk), ikeys[n], pk) else ix[n]
  }

  ghost predicate AllSorted(ix: Registry) {
    forall n :: n in ix ==> BTree.Sorted(ix[n])
  }

  lemma PutKeepsRegistryOrder(ix: Registry, ikeys: NamedIkeyset, pk: Key)
    requires AllSorted(ix)
    ensures AllSorted(PutIndexes(ix, ikeys, pk))
  {
    var r := PutIndexes(ix, ikeys, pk);
    forall n | n in r
      ensures BTree.Sorted(r[n])
    {
      if n in ikeys {
        InsertAllKeepsOrder(Named(ix, n), ikeys[n], pk);
      }
    }
  }

  lemma DelKeepsRegistryOrder(ix: Registry, ikeys: NamedIkeyset, pk: Key)
    requires AllSorted(ix)
    ensures AllSorted(DelIndexes(ix, ikeys, pk))
  {
    var r := DelIndexes(ix, ikeys, pk);
    forall n | n in r
      ensures BTree.Sorted(r[n])
    {
      if n in ikeys {
        EraseAllKeepsOrder(Named(ix, n), ikeys[n], pk);
      }
    }
  }

  lemma UpdateKeepsRegistryOrder(ix: Registry, ikeys: NamedIkeyset, pk: Key)
    requires AllSorted(ix)
    ensures AllSorted(UpdateIndexes(ix, ikeys, pk))
  {
    var r := UpdateIndexes(ix, ikeys, pk);
    forall n | n in r
      ensures BTree.Sorted(r[n])
    {
      if n in ikeys {
        ErasePrimaryKeepsOrder(Named(ix, n), pk);
        InsertAllKeepsOrder(ErasePrimary(Named(ix, n), pk), ikeys[n], pk);
      }
    }
  }

  /** After put, every named index holds (ik, key) for each of the record's
    * index keys, and keeps every pair it had. */
  lemma PutIndexesRecords(ix: Registry, ikeys: NamedIkeyset, pk: Key, n: string, e: Index.IndexEntry)
    requires n in ikeys
    ensures e in PutIndexes(ix, ikeys, pk)[n] <==> e in Named(ix, n) || (e.value == pk && e.key in ikeys[n])
  {
    InsertAllMembers(Named(ix, n), ikeys[n], pk);
  }

  /** After del, no named index holds a pair (ik, key) for the record's
    * index keys, and every other pair stays. */
  lemma DelIndexesRecords(ix: Registry, ikeys: NamedIkeyset, pk: Key, n: string, e: Index.IndexEntry)
    requires n in ikeys
    ensures e in DelIndexes(ix, ikeys, pk)[n] <==> e in Named(ix, n) && !(e.value == pk && e.key in ikeys[n])
  {
  }

  /** After update, the record's pairs in a named index are exactly the new
    * index keys, and the pairs of other records stay. */
  lemma UpdateIndexesRecords(ix: Registry, ikeys: NamedIkeyset, pk: Key, n: string, e: Index.IndexEntry)
    requires n in ikeys
    ensures e.value == pk ==> (e in UpdateIndexes(ix, ikeys, pk)[n] <==> e.key in ikeys[n])
    ensures e.value != pk ==> (e in UpdateIndexes(ix, ikeys, pk)[n] <==> e in Named(ix, n))
  {
    InsertAllMembers(ErasePrimary(Named(ix, n), pk), ikeys[n], pk);
  }

  /** Every pair of every index points at a stored record. */
  ghost predicate Consistent(records: seq<Repository.Record>, ix: Registry) {
    forall n, e :: n in ix && e in ix[n] ==> BTree.HasKey(records, e.value)
  }

  /** The index keys name every pair the indexes hold for the record. */
  ghost predicate Covers(ix: Registry, ikeys: NamedIkeyset, pk: Key) {
    forall n, e :: n in ix && e in ix[n] && e.value == pk ==> n in ikeys && e.key in ikeys[n]
  }

  lemma PutKeepsConsistent(records: seq<Repository.Record>, ix: Registry, ikeys: NamedIkeyset, pk: Key, v: Value)
    requires BTree.StrictlySorted(records) && Consistent(records, ix)
    ensures Consistent(BTree.InsertUnique(records, pk, v).entries, PutIndexes(ix, ikeys, pk))
  {
    BTree.InsertUniqueKeepsOrder(records, pk, v);
    var r := PutIndexes(ix, ikeys, pk);
    forall n: string, e: Index.IndexEntry | n in r && e in r[n]
      ensures BTree.HasKey(BTree.InsertUnique(records, pk, v).entries, e.value)
    {
      if n in ikeys {
        PutIndexesRecords(ix, ikeys, pk, n, e);
      }
    }
  }

  lemma ReplaceKeepsKeys(records: seq<Repository.Record>, pk: Key, v: Value, x: Key)
    ensures BTree.HasKey(Repository.Replace(records, pk, v), x) <==> BTree.HasKey(records, x)
  {
    var r := Repository.Replace(records, pk, v);
    if BTree.HasKey(records, x) {
      var i :| 0 <= i < |records| && records[i].key == x;
      assert r[i].key == x;
    }
    if BTree.HasKey(r, x) {
      var i :| 0 <= i < |r| && r[i].key == x;
      assert records[i].key == x;
    }
  }

  lemma UpdateKeepsConsistent(records: seq<Repository.Record>, ix: Registry, ikeys: NamedIkeyset, pk: Key, v: Value)
    requires Consistent(records, ix) && BTree.HasKey(records, pk)
    ensures Consistent(Repository.Replace(records, pk, v), UpdateIndexes(ix, ikeys, pk))
  {
    var r := UpdateIndexes(ix, ikeys, pk);
    forall n: string, e: Index.IndexEntry | n in r && e in r[n]
      ensures BTree.HasKey(Repository.Replace(records, pk, v), e.value)
    {
      ReplaceKeepsKeys(records, pk, v, e.value);
      if n in ikeys {
        UpdateIndexesRecords(ix, ikeys, pk, n, e);
        if e.value != pk {
          assert e in ix[n];
        }
      } else {
        assert e in ix[n];
      }
    }
  }

  lemma RemoveKeyKeys(records: seq<Repository.Record>, pk: Key, x: Key)
    requires BTree.HasKey(records, x) && x != pk
    ensures BTree.HasKey(BTree.RemoveKey(records, pk), x)
  {
    BTree.RemoveKeyRemoves(records, pk);
    var i :| 0 <= i < |records| && records[i].key == x;
    assert records[i] in BTree.RemoveKey(records, pk);
  }

  /** del keeps every index pointing at stored records when the index keys
    * name all the record's pairs. */
  lemma DelKeepsConsistent(records: seq<Repository.Record>, ix: Registry, ikeys: NamedIkeyset, pk: Key)
    requires Consistent(records, ix) && Covers(ix, ikeys, pk)
    ensures Consistent(BTree.RemoveKey(records, pk), DelIndexes(ix, ikeys, pk))
  {
    var r := DelIndexes(ix, ikeys, pk);
    forall n: string, e: Index.IndexEntry | n in r && e in r[n]
      ensures BTree.HasKey(BTree.RemoveKey(records, pk), e.value)
    {
      if n in ikeys {
        DelIndexesRecords(ix, ikeys, pk, n, e);
      }
      RemoveKeyKeys(records, pk, e.value);
    }
  }

  /** A storehouse is the repository and the indexer of one table. */
  class Storehouse {
    const name: string
    const repository: Repository.Repository
    const indexer: Indexer.Indexer

    ghost predicate Valid()
      reads this, repository, indexer
    {
      repository.Valid() && indexer.Valid()
      && repository.name == name && indexer.name == name
    }

    /** A storehouse with an empty repository and no open index. */
    constructor (name: string)
      ensures Valid() && this.name == name
      ensures repository.container == [] && indexer.indexes == map[]
      ensures Consistent(repository.container, indexer.indexes)
    {
      this.name := name;
      repository := new Repository.Repository(name);
      indexer := new Indexer.Indexer(name);
    }

    /** The constructor taking index names has no body in the C++; it is
      * read as a storehouse with an empty repository and an empty index
      * open under each of the given names. */
    constructor Open(name: string, indexNames: seq<string>)
      ensures Valid() && this.name == name
      ensures repository.container == []
      ensures indexer.indexes.Keys == set n | n in indexNames
      ensures forall n :: n in indexer.indexes ==> indexer.indexes[n] == []
      ensures Consistent(repository.container, indexer.indexes)
    {
      this.name := name;
      repository := new Repository.Repository(name);
      var x := new Indexer.Indexer(name);
      x.Assign(map n | n in indexNames :: []);
      indexer := x;
    }

    /** put(key, value, ikeys): stores the record and, when it was stored,
      * adds (ik, key) to each named index for each of its index keys. */
    method Put(key: Key, value: Value, ikeys: NamedIkeyset) returns (ok: bool)
      requires Valid()
      modifies repository`container, indexer`indexes
      ensures Valid()
      ensures ok <==> !BTree.HasKey(old(repository.container), key)
      ensures repository.container == BTree.InsertUnique(old(repository.container), key, value).entries
      ensures indexer.indexes == if ok then PutIndexes(old(indexer.indexes), ikeys, key) else old(indexer.indexes)
      ensures old(Consistent(repository.container, indexer.indexes)) ==>
                Consistent(repository.container, indexer.indexes)
    {
      ghost var records := repository.container;
      ghost var ix := indexer.indexes;
      ok := repository.Put(key, value);
      if ok {
        PutKeepsRegistryOrder(ix, ikeys, key);
        indexer.Assign(PutIndexes(indexer.indexes, ikeys, key));
        if Consistent(records, ix) {
          PutKeepsConsistent(records, ix, ikeys, key, value);
        }
      } else {
        BTree.InsertUniqueKeepsOrder(records, key, value);
      }
    }

    /** update(key, value, ikeys): replaces the record's value and, when the
      * record is stored, re-derives its pairs in each named index. */
    method Update(key: Key, value: Value, ikeys: NamedIkeyset) returns (found: bool)
      requires Valid()
      modifies repository`container, indexer`indexes
      ensures Valid()
      ensures found <==> BTree.HasKey(old(repository.container), key)
      ensures repository.container == Repository.Replace(old(repository.container), key, value)
      ensures indexer.indexes == if found then UpdateIndexes(old(indexer.indexes), ikeys, key) else old(indexer.indexes)
      ensures old(Consistent(repository.container, indexer.indexes)) ==>
                Consistent(repository.container, indexer.indexes)
    {
      ghost var records := repository.container;
      found := repository.ReplaceValue(key, value);
      if found {
        if Consistent(records, indexer.indexes) {
          UpdateKeepsConsistent(records, indexer.indexes, ikeys, key, value);
        }
        UpdateKeepsRegistryOrder(indexer.indexes, ikeys, key);
        indexer.Assign(UpdateIndexes(indexer.indexes, ikeys, key));
      } else {
        ReplaceAbsent(records, key, value);
      }
    }

    /** del(key, ikeys): erases the record and its pairs (ik, key) from each
      * named index. */
    method Del(key: Key, ikeys: NamedIkeyset)
      requires Valid()
      modifies repository`container, indexer`indexes
      ensures Valid()
      ensures repository.container == BTree.RemoveKey(old(repository.container), key)
      ensures indexer.indexes == DelIndexes(old(indexer.indexes), ikeys, key)
      ensures old(Consistent(repository.container, indexer.indexes) && Covers(indexer.indexes, ikeys, key)) ==>
                Consistent(repository.container, indexer.indexes)
    {
      ghost var records := repository.container;
      ghost var ix := indexer.indexes;
      repository.Del(key);
      DelKeepsRegistryOrder(indexer.indexes, ikeys, key);
      indexer.Assign(DelIndexes(indexer.indexes, ikeys, key));
      if Consistent(records, ix) && Covers(ix, ikeys, key) {
        DelKeepsConsistent(records, ix, ikeys, key);
      }
    }
  }

  /** Replacing the value of an absent key changes nothing. */
  lemma {:induction false} ReplaceAbsent(records: seq<Repository.Record>, pk: Key, v: Value)
    requires !BTree.HasKey(records, pk)
    ensures Repository.Replace(records, pk, v) == records
  {
    if |records| > 0 {
      assert records[0].key != pk;
      ReplaceAbsent(records[1..], pk, v);
      assert records == [records[0]] + records[1..];
    }
  }

  /** After put, a closed point scan of a named index at one of the
    * record's index keys finds the record's key. */
  lemma PutThenPointScan(ix: Registry, ikeys: NamedIkeyset, pk: Key, n: string, ik: Key)
    requires AllSorted(ix) && n in ikeys && ik in ikeys[n]
    ensures pk in Index.Scan(PutIndexes(ix, ikeys, pk)[n], Index.Bounded(ik, false), Index.Bounded(ik, false))
  {
    PutKeepsRegistryOrder(ix, ikeys, pk);
    PutIndexesRecords(ix, ikeys, pk, n, BTree.Entry(ik, pk));
    Index.PointScan(PutIndexes(ix, ikeys, pk)[n], ik, pk);
  }
}
