/**
 * A secondary index: a multimap from index key to primary key, kept in a
 * B-tree multimap ordered by index key. Several primary keys may share an
 * index key; entries with equal index keys stay in insertion order.
 *
 * The operations are functions on the sorted entry sequence; the Index
 * class applies them to its container. The indexer and the storehouse
 * hold index contents by value and use the same functions.
 */
module Index {
  import opened Keys
  import opened Wrappers
  import BTree

  /** (index key, primary key). */
  type IndexEntry = BTree.Entry<Key>

  /** insert(key, data): adds the pair after every pair with the same index
    * key. */
  function InsertPair(es: seq<IndexEntry>, ik: Key, pk: Key): (r: seq<IndexEntry>)
    ensures |r| == |es| + 1
    ensures multiset(r) == multiset(es) + multiset{BTree.Entry(ik, pk)}
  {
    var (ns, p) := BTree.InsertMulti(es, ik, pk);
    assert ns == es[..p] + [BTree.Entry(ik, pk)] + es[p..];
    assert es == es[..p] + es[p..];
    ns
  }

  /** del(key): removes every pair with that index key. */
  function EraseKey(es: seq<IndexEntry>, ik: Key): (r: seq<IndexEntry>)
    requires BTree.Sorted(es)
    ensures forall e :: e in r <==> e in es && e.key != ik
    ensures forall e :: multiset(r)[e] == if e.key == ik then 0 else multiset(es)[e]
  {
    BTree.RemoveKeyRemoves(es, ik);
    BTree.EraseMulti(es, ik).0
  }

  /** del(key, data): removes the pair (key, data), and only it. */
  function ErasePair(es: seq<IndexEntry>, ik: Key, pk: Key): (r: seq<IndexEntry>)
    ensures forall e :: e in r <==> e in es && e != BTree.Entry(ik, pk)
    ensures |r| <= |es|
    ensures multiset(r) == multiset(es)[BTree.Entry(ik, pk) := 0]
  {
    if |es| == 0 then []
    else
      assert es == [es[0]] + es[1..];
      (if es[0] == BTree.Entry(ik, pk) then [] else [es[0]]) + ErasePair(es[1..], ik, pk)
  }

  /** update(key, new_key, data): moves the pair for data from key to
    * new_key; without such a pair nothing changes. */
  function MovePair(es: seq<IndexEntry>, ik: Key, newIk: Key, pk: Key): (r: seq<IndexEntry>)
    ensures BTree.Entry(ik, pk) in es ==>
      multiset(r) == multiset(es)[BTree.Entry(ik, pk) := 0] + multiset{BTree.Entry(newIk, pk)}
    ensures BTree.Entry(ik, pk) !in es ==> r == es
  {
    if BTree.Entry(ik, pk) in es then InsertPair(ErasePair(es, ik, pk), newIk, pk) else es
  }

  /** get(key): the primary key of the first pair with that index key. */
  function GetPrimary(es: seq<IndexEntry>, ik: Key): (r: Option<Key>)
    ensures r.Some? ==> BTree.Entry(ik, r.value) in es
  {
    var i := BTree.Find(es, ik);
    if i < |es| then Some(es[i].value) else None
  }

  /** get yields nothing exactly when no pair has the index key. */
  lemma GetPrimaryNoneIffAbsent(es: seq<IndexEntry>, ik: Key)
    requires BTree.Sorted(es)
    ensures GetPrimary(es, ik) == None <==> !BTree.HasKey(es, ik)
  {
    BTree.FindMissesOnlyAbsent(es, ik);
  }

  /** The index is a multimap: after inserting (ik, p1) and (ik, p2) both
    * pairs are there, and the earlier pairs too. */
  lemma MultimapKeepsBoth(es: seq<IndexEntry>, ik: Key, p1: Key, p2: Key)
    ensures var r := InsertPair(InsertPair(es, ik, p1), ik, p2);
            BTree.Entry(ik, p1) in r && BTree.Entry(ik, p2) in r
            && forall e :: e in es ==> e in r
  {
    var r1 := InsertPair(es, ik, p1);
    var r := InsertPair(r1, ik, p2);
    assert multiset(r) == multiset(es) + multiset{BTree.Entry(ik, p1)} + multiset{BTree.Entry(ik, p2)};
    assert multiset(r)[BTree.Entry(ik, p1)] > 0;
    assert multiset(r)[BTree.Entry(ik, p2)] > 0;
    forall e | e in es
      ensures e in r
    {
      assert multiset(es)[e] > 0;
      assert multiset(r)[e] > 0;
    }
  }

  /** Every operation keeps the pairs ordered by index key. */
  lemma OperationsKeepOrder(es: seq<IndexEntry>, ik: Key, newIk: Key, pk: Key)
    requires BTree.Sorted(es)
    ensures BTree.Sorted(InsertPair(es, ik, pk))
    ensures BTree.Sorted(EraseKey(es, ik))
    ensures BTree.Sorted(ErasePair(es, ik, pk))
    ensures BTree.Sorted(MovePair(es, ik, newIk, pk))
  {
    BTree.InsertMultiKeepsOrder(es, ik, pk);
    BTree.RemoveKeyKeepsSorted(es, ik);
    ErasePairKeepsOrder(es, ik, pk);
    BTree.InsertMultiKeepsOrder(ErasePair(es, ik, pk), newIk, pk);
  }

  lemma {:induction false} ErasePairKeepsOrder(es: seq<IndexEntry>, ik: Key, pk: Key)
    requires BTree.Sorted(es)
    ensures BTree.Sorted(ErasePair(es, ik, pk))
  {
    if |es| > 0 {
      ErasePairKeepsOrder(es[1..], ik, pk);
      var rest := ErasePair(es[1..], ik, pk);
      if es[0] != BTree.Entry(ik, pk) {
        var r := [es[0]] + rest;
        forall i, j | 0 <= i < j < |r|
          ensures LessEq(r[i].key, r[j].key)
        {
          if i == 0 {
            assert rest[j - 1] in es[1..];
            var m :| 0 <= m < |es[1..]| && es[1..][m] == rest[j - 1];
            assert es[m + 1] == r[j];
          }
        }
      }
    }
  }

  /** update moves the pair: afterwards (new_key, data) is present, (key,
    * data) is not (unless the keys are equal), and every other pair is
    * untouched. */
  lemma MovePairMoves(es: seq<IndexEntry>, ik: Key, newIk: Key, pk: Key)
    requires BTree.Entry(ik, pk) in es
    ensures BTree.Entry(newIk, pk) in MovePair(es, ik, newIk, pk)
    ensures ik != newIk ==> BTree.Entry(ik, pk) !in MovePair(es, ik, newIk, pk)
    ensures forall e :: e != BTree.Entry(ik, pk) && e != BTree.Entry(newIk, pk) ==>
              (e in MovePair(es, ik, newIk, pk) <==> e in es)
  {
    var mid := ErasePair(es, ik, pk);
    var r := InsertPair(mid, newIk, pk);
    assert BTree.Entry(newIk, pk) in multiset(r);
    forall e
      ensures e in r <==> e in mid || e == BTree.Entry(newIk, pk)
    {
      assert (e in r) == (e in multiset(r));
      assert (e in mid) == (e in multiset(mid));
    }
  }

  // ---------------------------------------------------------------------
  // Range scans
  // ---------------------------------------------------------------------

  /** One end of a scan range: none (the nil default), or a key and whether
    * the interval is open (the key excluded) or closed (included) there. */
  datatype Bound = Unbounded | Bounded(key: Key, open: bool)

  predicate AboveLower(k: Key, lower: Bound) {
    match lower
    case Unbounded => true
    case Bounded(b, open) => if open then Less(b, k) else LessEq(b, k)
  }

  predicate BelowUpper(k: Key, upper: Bound) {
    match upper
    case Unbounded => true
    case Bounded(b, open) => if open then Less(k, b) else LessEq(k, b)
  }

  predicate InRange(k: Key, lower: Bound, upper: Bound) {
    AboveLower(k, lower) && BelowUpper(k, upper)
  }

  /** Where a range starts: the lower bound of the key when the interval is
    * closed there, its upper bound when open. */
  function RangeStart(es: seq<IndexEntry>, lower: Bound): (r: nat)
    ensures r <= |es|
  {
    match lower
    case Unbounded => 0
    case Bounded(b, open) => if open then BTree.UpperBound(es, b) else BTree.LowerBound(es, b)
  }

  /** Where a range ends (exclusive). */
  function RangeEnd(es: seq<IndexEntry>, upper: Bound): (r: nat)
    ensures r <= |es|
  {
    match upper
    case Unbounded => |es|
    case Bounded(b, open) => if open then BTree.LowerBound(es, b) else BTree.UpperBound(es, b)
  }

  /** The primary keys of a run of pairs, in order. */
  function PrimaryKeys(es: seq<IndexEntry>): (r: seq<Key>)
    ensures |r| == |es| && forall i :: 0 <= i < |es| ==> r[i] == es[i].value
  {
    if |es| == 0 then [] else [es[0].value] + PrimaryKeys(es[1..])
  }

  /** open(name, lower, open, upper, open2): the primary keys of the pairs
    * between the two bound positions, found by two bound searches. */
  function Scan(es: seq<IndexEntry>, lower: Bound, upper: Bound): (r: seq<Key>)
    ensures |r| <= |es|
  {
    var s, e := RangeStart(es, lower), RangeEnd(es, upper);
    if s <= e then PrimaryKeys(es[s..e]) else []
  }

  /** The same range by definition: the primary keys of the pairs whose
    * index key lies in the range, in order. */
  function ScanByFilter(es: seq<IndexEntry>, lower: Bound, upper: Bound): (r: seq<Key>)
  {
    if |es| == 0 then []
    else (if InRange(es[0].key, lower, upper) then [es[0].value] else [])
         + ScanByFilter(es[1..], lower, upper)
  }

  /** On sorted pairs the bound positions delimit exactly the pairs in range. */
  lemma RangePositions(es: seq<IndexEntry>, lower: Bound, upper: Bound, i: int)
    requires BTree.Sorted(es) && 0 <= i < |es|
    ensures RangeStart(es, lower) <= i <==> AboveLower(es[i].key, lower)
    ensures i < RangeEnd(es, upper) <==> BelowUpper(es[i].key, upper)
  {
    var k := es[i].key;
    if lower.Bounded? {
      var b := lower.key;
      var s := RangeStart(es, lower);
      if s <= i && s < |es| {
        if s < i {
          if lower.open {
            LessLessEqTransitive(b, es[s].key, k);
          } else {
            LessEqTransitive(b, es[s].key, k);
          }
        }
      }
    }
    if upper.Bounded? {
      var b := upper.key;
      var e := RangeEnd(es, upper);
      if e <= i && e < |es| {
        if e < i {
          if upper.open {
            LessEqTransitive(b, es[e].key, k);
          } else {
            LessLessEqTransitive(b, es[e].key, k);
          }
        }
      }
    }
  }

  /** The primary keys of the pairs whose flag is set, in order. */
  function Keep(es: seq<IndexEntry>, flags: seq<bool>): seq<Key>
    requires |flags| == |es|
  {
    if |es| == 0 then []
    else (if flags[0] then [es[0].value] else []) + Keep(es[1..], flags[1..])
  }

  lemma {:induction false} FilterIsKeep(es: seq<IndexEntry>, lower: Bound, upper: Bound, flags: seq<bool>)
    requires |flags| == |es|
    requires forall i :: 0 <= i < |es| ==> flags[i] == InRange(es[i].key, lower, upper)
    ensures ScanByFilter(es, lower, upper) == Keep(es, flags)
  {
    if |es| > 0 {
      FilterIsKeep(es[1..], lower, upper, flags[1..]);
    }
  }

  /** Dropping the first flag shifts the window [s, e) down by one (a proof
    * step of KeepWindow; no C++ member of its own). */
  lemma ShiftWindow(flags: seq<bool>, s: int, e: int)
    requires |flags| > 0 && 0 <= s
    requires forall i :: 0 <= i < |flags| ==> (flags[i] <==> s <= i < e)
    ensures var s' := if s == 0 then 0 else s - 1;
            forall i :: 0 <= i < |flags| - 1 ==> (flags[1..][i] <==> s' <= i < e - 1)
  {
    var s' := if s == 0 then 0 else s - 1;
    forall i | 0 <= i < |flags| - 1
      ensures flags[1..][i] <==> s' <= i < e - 1
    {
      assert flags[1..][i] == flags[i + 1];
    }
  }

  /** Keeping a window [s, e) of positions keeps that slice. */
  lemma {:induction false} KeepWindow(es: seq<IndexEntry>, flags: seq<bool>, s: int, e: int)
    requires |flags| == |es| && 0 <= s && e <= |es|
    requires forall i :: 0 <= i < |es| ==> (flags[i] <==> s <= i < e)
    ensures Keep(es, flags) == if s <= e then PrimaryKeys(es[s..e]) else []
    decreases |es|
  {
    if |es| > 0 {
      var s' := if s == 0 then 0 else s - 1;
      ShiftWindow(flags, s, e);
      KeepWindow(es[1..], flags[1..], s', e - 1);
      if s == 0 && e > 0 {
        assert flags[0];
        assert es[0..e][1..] == es[1..][0..e - 1];
      } else if s > 0 && s <= e {
        assert !flags[0];
        assert es[s..e] == es[1..][s - 1..e - 1];
      } else {
        assert !flags[0];
      }
    } else {
      assert s <= e ==> es[s..e] == [];
    }
  }

  /** The bound-search scan returns exactly the in-range primary keys, in
    * index-key order. */
  lemma ScanIsFilter(es: seq<IndexEntry>, lower: Bound, upper: Bound)
    requires BTree.Sorted(es)
    ensures Scan(es, lower, upper) == ScanByFilter(es, lower, upper)
  {
    var s, e := RangeStart(es, lower), RangeEnd(es, upper);
    var flags := seq(|es|, i requires 0 <= i < |es| => InRange(es[i].key, lower, upper));
    forall i | 0 <= i < |es|
      ensures flags[i] <==> s <= i < e
    {
      RangePositions(es, lower, upper, i);
    }
    FilterIsKeep(es, lower, upper, flags);
    KeepWindow(es, flags, s, e);
  }

  /** With no bounds the whole index is scanned. */
  lemma FullScan(es: seq<IndexEntry>)
    ensures Scan(es, Unbounded, Unbounded) == PrimaryKeys(es)
  {
    assert es[0..|es|] == es;
  }

  /** A closed single-key range [k, k] returns the primary keys stored under
    * k. */
  lemma PointScan(es: seq<IndexEntry>, ik: Key, pk: Key)
    requires BTree.Sorted(es) && BTree.Entry(ik, pk) in es
    ensures pk in Scan(es, Bounded(ik, false), Bounded(ik, false))
  {
    ScanIsFilter(es, Bounded(ik, false), Bounded(ik, false));
    LessIrreflexive(ik);
    PointFilter(es, ik, pk);
  }

  lemma {:induction false} PointFilter(es: seq<IndexEntry>, ik: Key, pk: Key)
    requires BTree.Entry(ik, pk) in es
    ensures pk in ScanByFilter(es, Bounded(ik, false), Bounded(ik, false))
  {
    LessIrreflexive(ik);
    if es[0] != BTree.Entry(ik, pk) {
      PointFilter(es[1..], ik, pk);
    }
  }

  /** An index of one table over one field. */
  class Index {
    var name: string
    /** The btree_multimap of (index key, primary key) pairs. */
    var container: seq<IndexEntry>

    ghost predicate Valid()
      reads this
    {
      BTree.Sorted(container)
    }

    constructor (name: string)
      ensures this.name == name && container == [] && Valid()
    {
      this.name := name;
      container := [];
    }

    method Insert(ik: Key, pk: Key)
      requires Valid()
      modifies this`container
      ensures Valid() && container == InsertPair(old(container), ik, pk)
    {
      OperationsKeepOrder(container, ik, ik, pk);
      container := InsertPair(container, ik, pk);
    }

    method Del(ik: Key)
      requires Valid()
      modifies this`container
      ensures Valid() && container == EraseKey(old(container), ik)
    {
      OperationsKeepOrder(container, ik, ik, []);
      container := EraseKey(container, ik);
    }

    method DelPair(ik: Key, pk: Key)
      requires Valid()
      modifies this`container
      ensures Valid() && container == ErasePair(old(container), ik, pk)
    {
      OperationsKeepOrder(container, ik, ik, pk);
      container := ErasePair(container, ik, pk);
    }

    method Update(ik: Key, newIk: Key, pk: Key)
      requires Valid()
      modifies this`container
      ensures Valid() && container == MovePair(old(container), ik, newIk, pk)
    {
      OperationsKeepOrder(container, ik, newIk, pk);
      container := MovePair(container, ik, newIk, pk);
    }

    function Get(ik: Key): (r: Option<Key>)
      reads this
      ensures r.Some? ==> BTree.Entry(ik, r.value) in container
    {
      GetPrimary(container, ik)
    }

    /** find(key): the position of the first pair with the key, or end(). */
    function Find(ik: Key): (r: nat)
      requires Valid()
      reads this
      ensures r <= |container|
      ensures r < |container| ==> container[r].key == ik
      ensures r == |container| <==> !BTree.HasKey(container, ik)
    {
      BTree.FindMissesOnlyAbsent(container, ik);
      BTree.Find(container, ik)
    }

    predicate Empty()
      reads this
      ensures Empty() <==> |container| == 0
    {
      |container| == 0
    }
  }
}
