/**
 * The indexer of a table: a registry from index name to index, plus the
 * static batch create/drop helpers and the range open of an index.
 *
 * Indexes are held by value in the registry, so the registry maps a name
 * to the contents of that index (its sorted pairs). Creating and dropping
 * an index is done by the storage environment; the model records those
 * calls in an Environment object, in the order they are made.
 */
module Indexer {
  import opened Keys
  import opened Wrappers
  import BTree
  import Index

  /** A call made on the storage environment. */
  datatype Call = Create(name: string) | Drop(name: string)

  /** The storage environment, as the sequence of create/drop calls it has
    * received. */
  class Environment {
    var calls: seq<Call>

    constructor ()
      ensures calls == []
    {
      calls := [];
    }

    /** create(name): one create call. */
    method Create(name: string)
      modifies this
      ensures calls == old(calls) + [Call.Create(name)]
    {
      calls := calls + [Call.Create(name)];
    }

    /** drop(name): one drop call. */
    method Drop(name: string)
      modifies this
      ensures calls == old(calls) + [Call.Drop(name)]
    {
      calls := calls + [Call.Drop(name)];
    }
  }

  /** The create calls for a batch of names, in the batch's order. */
  function CreateCalls(names: seq<string>): (r: seq<Call>)
    ensures |r| == |names|
    ensures forall i :: 0 <= i < |names| ==> r[i] == Call.Create(names[i])
  {
    if |names| == 0 then [] else [Call.Create(names[0])] + CreateCalls(names[1..])
  }

  /** The drop calls for a batch of names, in the batch's order. */
  function DropCalls(names: seq<string>): (r: seq<Call>)
    ensures |r| == |names|
    ensures forall i :: 0 <= i < |names| ==> r[i] == Call.Drop(names[i])
  {
    if |names| == 0 then [] else [Call.Drop(names[0])] + DropCalls(names[1..])
  }

  lemma CreateCallsAppend(names: seq<string>, n: string)
    ensures CreateCalls(names + [n]) == CreateCalls(names) + [Call.Create(n)]
  {
  }

  lemma DropCallsAppend(names: seq<string>, n: string)
    ensures DropCalls(names + [n]) == DropCalls(names) + [Call.Drop(n)]
  {
  }

  /** The names a batch of calls creates, each counted once per call. */
  lemma {:induction false} CreateCallsOncePerName(names: seq<string>, n: string)
    ensures multiset(CreateCalls(names))[Call.Create(n)] == multiset(names)[n]
  {
    if |names| > 0 {
      CreateCallsOncePerName(names[1..], n);
      assert names == [names[0]] + names[1..];
      assert CreateCalls(names) == [Call.Create(names[0])] + CreateCalls(names[1..]);
    }
  }

  /** create(first, last): create is called once per name, in order. */
  method CreateAll(env: Environment, names: seq<string>)
    modifies env
    ensures env.calls == old(env.calls) + CreateCalls(names)
  {
    var i := 0;
    while i < |names|
      invariant 0 <= i <= |names|
      invariant env.calls == old(env.calls) + CreateCalls(names[..i])
    {
      env.Create(names[i]);
      CreateCallsAppend(names[..i], names[i]);
      assert names[..i + 1] == names[..i] + [names[i]];
      i := i + 1;
    }
    assert names[..i] == names;
  }

  /** drop(first, last): drop is called once per name, in order. */
  method DropAll(env: Environment, names: seq<string>)
    modifies env
    ensures env.calls == old(env.calls) + DropCalls(names)
  {
    var i := 0;
    while i < |names|
      invariant 0 <= i <= |names|
      invariant env.calls == old(env.calls) + DropCalls(names[..i])
    {
      env.Drop(names[i]);
      DropCallsAppend(names[..i], names[i]);
      assert names[..i + 1] == names[..i] + [names[i]];
      i := i + 1;
    }
    assert names[..i] == names;
  }

  /** Why an index lookup failed. */
  datatype IndexError = OutOfRange(name: string)

  /** The range of a range open: the lower key and whether it is open
    * (default: open), the upper key or nil for none (default: nil) and
    * whether it is open (default: open). */
  function RangeOf(lower: Key, lowerOpen: bool, upper: Option<Key>, upperOpen: bool): (r: (Index.Bound, Index.Bound))
    ensures r.0 == Index.Bounded(lower, lowerOpen)
    ensures r.1.Unbounded? <==> upper.None?
  {
    (Index.Bounded(lower, lowerOpen),
     if upper.Some? then Index.Bounded(upper.value, upperOpen) else Index.Unbounded)
  }

  /** A range open excludes an open bound and includes a closed one. */
  lemma RangeOpenSemantics(lower: Key, lowerOpen: bool, upper: Key, upperOpen: bool, k: Key)
    ensures var (lo, hi) := RangeOf(lower, lowerOpen, Some(upper), upperOpen);
            (k == lower ==> (Index.AboveLower(k, lo) <==> !lowerOpen))
            && (k == upper ==> (Index.BelowUpper(k, hi) <==> !upperOpen))
  {
    LessIrreflexive(lower);
    LessIrreflexive(upper);
  }

  class Indexer {
    var name: string
    /** The name -> index registry. */
    var indexes: map<string, seq<Index.IndexEntry>>

    ghost predicate Valid()
      reads this
    {
      forall n :: n in indexes ==> BTree.Sorted(indexes[n])
    }

    constructor (name: string)
      ensures this.name == name && indexes == map[] && Valid()
    {
      this.name := name;
      indexes := map[];
    }

    /** operator[](name): the index registered under the name, registering
      * an empty one first when there is none. */
    method Subscript(n: string) returns (contents: seq<Index.IndexEntry>)
      requires Valid()
      modifies this`indexes
      ensures Valid()
      ensures indexes == if n in old(indexes) then old(indexes) else old(indexes)[n := []]
      ensures contents == indexes[n]
    {
      if n !in indexes {
        indexes := indexes[n := []];
      }
      contents := indexes[n];
    }

    /** at(name): the index registered under the name, or an out-of-range
      * failure when there is none. */
    function At(n: string): (r: Result<seq<Index.IndexEntry>, IndexError>)
      reads this
      ensures r.Ok? <==> n in indexes
      ensures r.Ok? ==> r.value == indexes[n]
    {
      if n in indexes then Ok(indexes[n]) else Err(OutOfRange(n))
    }

    /** open(name, lower, open, upper, open2): the primary keys the range
      * selects in the named index. */
    function OpenRange(n: string, lower: Key, lowerOpen: bool, upper: Option<Key>, upperOpen: bool)
      : (r: Result<seq<Key>, IndexError>)
      requires Valid()
      reads this
      ensures r.Ok? <==> n in indexes
      ensures r.Ok? ==> var (lo, hi) := RangeOf(lower, lowerOpen, upper, upperOpen);
                        r.value == Index.ScanByFilter(indexes[n], lo, hi)
    {
      if n in indexes then
        var (lo, hi) := RangeOf(lower, lowerOpen, upper, upperOpen);
        Index.ScanIsFilter(indexes[n], lo, hi);
        Ok(Index.Scan(indexes[n], lo, hi))
      else Err(OutOfRange(n))
    }

    /** Applies an index operation to the named index, creating the index
      * first when it is not registered (as operator[] does). */
    method UpdateIndex(n: string, contents: seq<Index.IndexEntry>)
      requires Valid() && BTree.Sorted(contents)
      modifies this`indexes
      ensures Valid() && indexes == old(indexes)[n := contents]
    {
      indexes := indexes[n := contents];
    }

    /** Replaces the whole registry. No C++ member corresponds to it: it is
      * how the storehouse's registry functions (insert, erase, update over
      * every index) write their result back into the indexer's map. */
    method Assign(ix: map<string, seq<Index.IndexEntry>>)
      requires forall n :: n in ix ==> BTree.Sorted(ix[n])
      modifies this`indexes
      ensures Valid() && indexes == ix
    {
      indexes := ix;
    }

    /** close(index&) has no body in the C++; it is read as unregistering
      * the index, which the model finds by its registry name. */
    method CloseIndex(n: string)
      requires Valid()
      modifies this`indexes
      ensures Valid() && indexes == old(indexes) - {n}
    {
      indexes := indexes - {n};
    }

    /** close() has no body in the C++; it is read as closing every open
      * index, leaving the registry empty. The destructor calls it. */
    method Close()
      modifies this`indexes
      ensures Valid() && indexes == map[] && Empty()
    {
      indexes := map[];
    }

    /** size(): the number of registered indexes. */
    function Size(): (r: nat)
      reads this
      ensures r == |indexes.Keys|
    {
      |indexes|
    }

    /** empty(). */
    predicate Empty()
      reads this
      ensures Empty() <==> indexes == map[]
    {
      |indexes| == 0
    }

    /** begin(): the position of the first registered index. */
    function Begin(): (r: nat)
      reads this
      ensures r <= End() && (r < End() <==> !Empty())
    {
      0
    }

    /** end() as the non-const overload writes it: it returns begin(), so
      * it meets end() only when nothing is registered. */
    function EndAsWritten(): (r: nat)
      reads this
      ensures r <= End() && (r == End() <==> Empty())
    {
      Begin()
    }

    /** end() as the const overload writes it: one past the last index. */
    function End(): (r: nat)
      reads this
      ensures r == Size()
    {
      |indexes|
    }
  }

  /** The const forward range [begin(), end()) covers every registered
    * index; the non-const one is empty even when indexes are registered. */
  lemma ForwardRanges(x: Indexer, n: string)
    requires n in x.indexes
    ensures x.End() - x.Begin() == x.Size() > 0
    ensures x.EndAsWritten() - x.Begin() == 0
  {
    assert n in x.indexes.Keys;
  }
}
