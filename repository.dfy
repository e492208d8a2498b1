/**
 * The primary store of a table: a unique-key map from primary key to
 * record, held in a B-tree map. Every operation is a thin call into the
 * container, so the state is the container's sorted entry sequence and
 * the operations are the container functions of module BTree applied to
 * it.
 */
module Repository {
  import opened Keys
  import opened Wrappers
  import BTree

  type Record = BTree.Entry<Value>

  /** The value stored under key k, if any (find, then read the value). */
  function Lookup(es: seq<Record>, k: Key): (r: Option<Value>)
    ensures r.Some? ==> BTree.Entry(k, r.value) in es
  {
    var i := BTree.Find(es, k);
    if i < |es| then Some(es[i].value) else None
  }

  /** On a unique-key map, the lookup yields v exactly when (k, v) is
    * stored, and nothing exactly when no entry has key k. */
  lemma LookupIsMembership(es: seq<Record>, k: Key, v: Value)
    requires BTree.StrictlySorted(es)
    ensures Lookup(es, k) == Some(v) <==> BTree.Entry(k, v) in es
    ensures Lookup(es, k) == None <==> !BTree.HasKey(es, k)
  {
    BTree.StrictlySortedIsSorted(es);
    BTree.FindMissesOnlyAbsent(es, k);
    if BTree.Entry(k, v) in es {
      var j :| 0 <= j < |es| && es[j] == BTree.Entry(k, v);
      var i := BTree.Find(es, k);
      LessIrreflexive(k);
    }
  }

  /** Two unique-key maps with the same stored pairs answer every lookup
    * alike. */
  lemma SameRecordsSameLookups(a: seq<Record>, b: seq<Record>, k: Key)
    requires BTree.StrictlySorted(a) && BTree.StrictlySorted(b)
    requires forall v :: BTree.Entry(k, v) in a <==> BTree.Entry(k, v) in b
    ensures Lookup(a, k) == Lookup(b, k)
  {
    if Lookup(a, k).Some? {
      LookupIsMembership(a, k, Lookup(a, k).value);
      LookupIsMembership(b, k, Lookup(a, k).value);
    } else if Lookup(b, k).Some? {
      LookupIsMembership(b, k, Lookup(b, k).value);
      LookupIsMembership(a, k, Lookup(b, k).value);
    }
  }

  /** put then get: the new value is found when the key was absent; when it
    * was present, put fails and the old value stays. Other keys are not
    * affected. */
  lemma PutThenGet(es: seq<Record>, k: Key, v: Value, other: Key)
    requires BTree.StrictlySorted(es)
    ensures var r := BTree.InsertUnique(es, k, v);
            Lookup(r.entries, k) == (if r.inserted then Some(v) else Lookup(es, k))
    ensures other != k ==> Lookup(BTree.InsertUnique(es, k, v).entries, other) == Lookup(es, other)
  {
    var r := BTree.InsertUnique(es, k, v);
    BTree.InsertUniqueKeepsOrder(es, k, v);
    if r.inserted {
      assert BTree.Entry(k, v) in r.entries;
      LookupIsMembership(r.entries, k, v);
      if other != k {
        forall w
          ensures BTree.Entry(other, w) in r.entries <==> BTree.Entry(other, w) in es
        {
          var e := BTree.Entry(other, w);
          assert (e in r.entries) == (e in multiset(r.entries));
          assert (e in es) == (e in multiset(es));
        }
        SameRecordsSameLookups(r.entries, es, other);
      }
    }
  }

  /** del then get: the key is gone, other keys keep their values. */
  lemma DelThenGet(es: seq<Record>, k: Key, other: Key)
    requires BTree.StrictlySorted(es)
    ensures Lookup(BTree.EraseUnique(es, k).0, k) == None
    ensures other != k ==> Lookup(BTree.EraseUnique(es, k).0, other) == Lookup(es, other)
  {
    var after := BTree.EraseUnique(es, k).0;
    BTree.EraseUniqueRemovesKey(es, k);
    BTree.RemoveKeyRemoves(es, k);
    BTree.RemoveKeyKeepsOrder(es, k);
    LookupIsMembership(after, k, []);
    if other != k {
      SameRecordsSameLookups(after, es, other);
    }
  }

  /** Deleting an absent key changes nothing. */
  lemma DelAbsentIsNoOp(es: seq<Record>, k: Key)
    requires BTree.StrictlySorted(es) && !BTree.HasKey(es, k)
    ensures BTree.EraseUnique(es, k) == (es, 0)
  {
    BTree.EraseUniqueRemovesKey(es, k);
  }

  /** The number of records after put and after del. */
  lemma CountAfterPutAndDel(es: seq<Record>, k: Key, v: Value)
    requires BTree.StrictlySorted(es)
    ensures |BTree.InsertUnique(es, k, v).entries| == |es| + (if BTree.HasKey(es, k) then 0 else 1)
    ensures |BTree.EraseUnique(es, k).0| == |es| - (if BTree.HasKey(es, k) then 1 else 0)
  {
    BTree.InsertUniqueKeepsOrder(es, k, v);
    BTree.EraseUniqueRemovesKey(es, k);
  }

  /** update as the repository writes it: the key is looked up and the
    * result discarded, so the stored records stay as they were. */
  function UpdateAsWritten(es: seq<Record>, k: Key, newValue: Value): (r: seq<Record>)
    ensures |r| == |es|
    ensures r == es
  {
    var _ := BTree.Find(es, k);
    es
  }

  /** The replacement update is meant to perform: the record with key k,
    * if there is one, gets newValue; everything else stays. */
  function Replace(es: seq<Record>, k: Key, newValue: Value): (r: seq<Record>)
    ensures |r| == |es|
    ensures forall i :: 0 <= i < |es| ==> r[i].key == es[i].key
    ensures forall i :: 0 <= i < |es| && es[i].key != k ==> r[i] == es[i]
    ensures forall i :: 0 <= i < |es| && es[i].key == k ==> r[i].value == newValue
  {
    if |es| == 0 then []
    else [if es[0].key == k then BTree.Entry(k, newValue) else es[0]] + Replace(es[1..], k, newValue)
  }

  /** Replacing a value keeps the map a unique-key map. */
  lemma ReplaceKeepsOrder(es: seq<Record>, k: Key, v: Value)
    requires BTree.StrictlySorted(es)
    ensures BTree.StrictlySorted(Replace(es, k, v))
  {
    var r := Replace(es, k, v);
    forall i, j | 0 <= i < j < |r|
      ensures Less(r[i].key, r[j].key)
    {
      assert r[i].key == es[i].key && r[j].key == es[j].key;
    }
  }

  /** After a replacement, get(k) sees the new value exactly when the key
    * was present. */
  lemma ReplaceThenGet(es: seq<Record>, k: Key, v: Value)
    requires BTree.StrictlySorted(es)
    ensures Lookup(Replace(es, k, v), k) == (if BTree.HasKey(es, k) then Some(v) else None)
  {
    var r := Replace(es, k, v);
    ReplaceKeepsOrder(es, k, v);
    if BTree.HasKey(es, k) {
      var i :| 0 <= i < |es| && es[i].key == k;
      assert r[i] == BTree.Entry(k, v);
      LookupIsMembership(r, k, v);
    } else {
      assert forall i :: 0 <= i < |r| ==> r[i].key != k;
      LookupIsMembership(r, k, v);
    }
  }

  /** A replacement leaves every other key's value alone. */
  lemma ReplaceKeepsOthers(es: seq<Record>, k: Key, v: Value, other: Key)
    requires BTree.StrictlySorted(es) && other != k
    ensures Lookup(Replace(es, k, v), other) == Lookup(es, other)
  {
    var r := Replace(es, k, v);
    ReplaceKeepsOrder(es, k, v);
    forall w
      ensures BTree.Entry(other, w) in r <==> BTree.Entry(other, w) in es
    {
      if BTree.Entry(other, w) in r {
        var i :| 0 <= i < |r| && r[i] == BTree.Entry(other, w);
        assert es[i] == r[i];
      }
      if BTree.Entry(other, w) in es {
        var i :| 0 <= i < |es| && es[i] == BTree.Entry(other, w);
        assert r[i] == es[i];
      }
    }
    SameRecordsSameLookups(r, es, other);
  }

  /** The as-written update loses the new value: on a map holding ([1], [1]),
    * updating key [1] to [2] and reading it back still gives [1]. */
  lemma UpdateAsWrittenLosesValue()
    ensures var es := [BTree.Entry([1], [1])];
            Lookup(UpdateAsWritten(es, [1], [2]), [1]) == Some([1])
            && Lookup(Replace(es, [1], [2]), [1]) == Some([2])
  {
    var es: seq<Record> := [BTree.Entry([1], [1])];
    LessIrreflexive([1]);
    assert BTree.LowerBound(es, [1]) == 0;
  }

  /** A position of a reverse iterator counts from the last record: reverse
    * position p designates record |es| - 1 - p, and rend() is |es|. */
  function ReverseTraversal(es: seq<Record>, first: nat, last: nat): (r: seq<Record>)
    requires first <= last <= |es|
    decreases last - first
    ensures |r| == last - first
    ensures forall i :: 0 <= i < |r| ==> r[i] == es[|es| - 1 - (first + i)]
  {
    if first == last then [] else [es[|es| - 1 - first]] + ReverseTraversal(es, first + 1, last)
  }

  /** The stored records of a table. */
  class Repository {
    var name: string
    /** The btree_map holding the records, as its sorted entry sequence. */
    var container: seq<Record>

    ghost predicate Valid()
      reads this
    {
      BTree.StrictlySorted(container)
    }

    constructor (table: string)
      ensures name == table && container == [] && Valid()
    {
      name := table;
      container := [];
    }

    /** put(key, data): stores the record unless the key is present;
      * reports whether it did. Only the primary storage is touched. */
    method Put(key: Key, data: Value) returns (ok: bool)
      requires Valid()
      modifies this`container
      ensures Valid()
      ensures ok <==> !BTree.HasKey(old(container), key)
      ensures container == BTree.InsertUnique(old(container), key, data).entries
      ensures Get(key) == (if ok then Some(data) else old(Get(key)))
    {
      var r := BTree.InsertUnique(container, key, data);
      BTree.InsertUniqueKeepsOrder(container, key, data);
      PutThenGet(container, key, data, key);
      container := r.entries;
      ok := r.inserted;
    }

    /** get(key): the stored value, or nothing when the key is absent. */
    function Get(key: Key): (r: Option<Value>)
      reads this
      ensures r.Some? ==> BTree.Entry(key, r.value) in container
      ensures !BTree.HasKey(container, key) ==> r.None?
    {
      Lookup(container, key)
    }

    /** exists(key). */
    function Exists(key: Key): (r: bool)
      requires Valid()
      reads this
      ensures r <==> BTree.HasKey(container, key)
    {
      BTree.StrictlySortedIsSorted(container);
      BTree.FindMissesOnlyAbsent(container, key);
      BTree.Find(container, key) < |container|
    }

    /** update(key, new_value) as written: only looks the key up. */
    method Update(key: Key, newValue: Value)
      requires Valid()
      modifies this`container
      ensures Valid()
      ensures container == UpdateAsWritten(old(container), key, newValue)
      ensures container == old(container)
    {
      container := UpdateAsWritten(container, key, newValue);
    }

    /** The replacement update: the record with the key, if present, gets
      * the new value; the result says whether the key was present. */
    method ReplaceValue(key: Key, newValue: Value) returns (found: bool)
      requires Valid()
      modifies this`container
      ensures Valid()
      ensures found <==> BTree.HasKey(old(container), key)
      ensures container == Replace(old(container), key, newValue)
      ensures Get(key) == (if found then Some(newValue) else None)
    {
      found := Exists(key);
      ReplaceKeepsOrder(container, key, newValue);
      ReplaceThenGet(container, key, newValue);
      container := Replace(container, key, newValue);
    }

    /** del(key): erases the record with the key; an absent key is no-op. */
    method Del(key: Key)
      requires Valid()
      modifies this`container
      ensures Valid()
      ensures container == BTree.EraseUnique(old(container), key).0
      ensures container == BTree.RemoveKey(old(container), key)
      ensures Get(key) == None
    {
      BTree.EraseUniqueRemovesKey(container, key);
      BTree.RemoveKeyKeepsOrder(container, key);
      DelThenGet(container, key, key);
      container := BTree.EraseUnique(container, key).0;
    }

    /** count(): the number of stored records. */
    function Count(): (r: nat)
      reads this
      ensures r == |container|
    {
      |container|
    }

    /** empty(): no records stored. */
    predicate Empty()
      reads this
      ensures Empty() <==> Count() == 0
    {
      |container| == 0
    }

    /** begin() and end(): positions 0 and |container| of the traversal,
      * which visits the records in ascending key order. */
    function Begin(): (r: nat)
      reads this
      ensures r <= End() && (r < End() <==> !Empty())
    {
      0
    }

    function End(): (r: nat)
      reads this
      ensures r == Count()
    {
      |container|
    }

    /** rbegin(): reverse position 0, the last record. */
    function RBegin(): (r: nat)
      reads this
      ensures r <= REnd() && (r < REnd() <==> !Empty())
    {
      0
    }

    /** rend() as the non-const overload writes it: it returns rbegin(). */
    function REndAsWritten(): (r: nat)
      reads this
      ensures r <= REnd() && (r == REnd() <==> Empty())
    {
      RBegin()
    }

    /** rend() as the const overload writes it: one past the first record. */
    function REnd(): (r: nat)
      reads this
      ensures r == Count()
    {
      |container|
    }

    /** front() and back(): the values of the records with the smallest and
      * the largest key. */
    function Front(): (r: Value)
      requires Valid() && |container| > 0
      reads this
      ensures exists i :: 0 <= i < |container| && container[i].value == r &&
                forall j :: 0 <= j < |container| && j != i ==> Less(container[i].key, container[j].key)
    {
      assert forall j :: 0 < j < |container| ==> Less(container[0].key, container[j].key);
      container[0].value
    }

    function Back(): (r: Value)
      requires Valid() && |container| > 0
      reads this
      ensures exists i :: 0 <= i < |container| && container[i].value == r &&
                forall j :: 0 <= j < |container| && j != i ==> Less(container[j].key, container[i].key)
    {
      var last := |container| - 1;
      assert forall j :: 0 <= j < last ==> Less(container[j].key, container[last].key);
      container[last].value
    }
  }

  /** The forward traversal [begin(), end()) visits every record, in
    * strictly ascending key order. */
  lemma ForwardTraversalAscending(r: Repository)
    requires r.Valid()
    ensures r.container[r.Begin()..r.End()] == r.container
    ensures forall i :: r.Begin() <= i < r.End() - 1 ==> Less(r.container[i].key, r.container[i + 1].key)
  {
  }

  /** The reverse traversal [rbegin(), rend()) of the const overloads visits
    * every record in strictly descending key order; with the non-const
    * rend() the reverse range is empty, whatever is stored. */
  lemma ReverseTraversals(r: Repository)
    requires r.Valid()
    ensures var rev := ReverseTraversal(r.container, r.RBegin(), r.REnd());
            |rev| == r.Count() && forall i :: 0 <= i < |rev| - 1 ==> Less(rev[i + 1].key, rev[i].key)
    ensures ReverseTraversal(r.container, r.RBegin(), r.REndAsWritten()) == []
  {
    var rev := ReverseTraversal(r.container, r.RBegin(), r.REnd());
    forall i | 0 <= i < |rev| - 1
      ensures Less(rev[i + 1].key, rev[i].key)
    {
      assert rev[i] == r.container[|r.container| - 1 - i];
      assert rev[i + 1] == r.container[|r.container| - 2 - i];
    }
  }
}
