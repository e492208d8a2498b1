/**
 * The B-tree container as its users see it: the entries in traversal
 * order, kept sorted by key. Lookups, counts and the declared insert and
 * erase operations are stated on that sorted sequence; an iterator is a
 * position in it, and end() is the position one past the last entry.
 *
 * The second half of the module gives a value view of the node structure
 * (leaves and internal nodes with their children) for the operations that
 * look at the shape of the tree: size, height and internal_stats, and the
 * child-ordering rule that makes the traversal sorted.
 */
module BTree {
  import opened Keys

  datatype Entry<V> = Entry(key: Key, value: V)

  /** Keys never decrease along the traversal (the multi-key containers). */
  ghost predicate Sorted<V>(es: seq<Entry<V>>) {
    forall i, j :: 0 <= i < j < |es| ==> LessEq(es[i].key, es[j].key)
  }

  /** Keys strictly increase along the traversal (the unique-key containers). */
  ghost predicate StrictlySorted<V>(es: seq<Entry<V>>) {
    forall i, j :: 0 <= i < j < |es| ==> Less(es[i].key, es[j].key)
  }

  lemma StrictlySortedIsSorted<V>(es: seq<Entry<V>>)
    requires StrictlySorted(es)
    ensures Sorted(es)
  {
    forall i, j | 0 <= i < j < |es|
      ensures LessEq(es[i].key, es[j].key)
    {
      LessAsymmetric(es[i].key, es[j].key);
    }
  }

  predicate HasKey<V>(es: seq<Entry<V>>, k: Key) {
    exists i :: 0 <= i < |es| && es[i].key == k
  }

  /** The number of entries whose key is k. */
  function Occurrences<V>(es: seq<Entry<V>>, k: Key): nat {
    if |es| == 0 then 0
    else (if es[0].key == k then 1 else 0) + Occurrences(es[1..], k)
  }

  /** The entries whose key is not k, in their order. */
  function RemoveKey<V>(es: seq<Entry<V>>, k: Key): seq<Entry<V>> {
    if |es| == 0 then []
    else (if es[0].key == k then [] else [es[0]]) + RemoveKey(es[1..], k)
  }

  // ---------------------------------------------------------------------
  // Lookups
  // ---------------------------------------------------------------------

  /** lower_bound: the first entry whose key is not less than k, or end(). */
  function LowerBound<V>(es: seq<Entry<V>>, k: Key): (r: nat)
    ensures r <= |es|
    ensures forall i :: 0 <= i < r ==> Less(es[i].key, k)
    ensures r < |es| ==> !Less(es[r].key, k)
  {
    if |es| == 0 || !Less(es[0].key, k) then 0
    else 1 + LowerBound(es[1..], k)
  }

  /** upper_bound: the first entry whose key is greater than k, or end(). */
  function UpperBound<V>(es: seq<Entry<V>>, k: Key): (r: nat)
    ensures r <= |es|
    ensures forall i :: 0 <= i < r ==> !Less(k, es[i].key)
    ensures r < |es| ==> Less(k, es[r].key)
  {
    if |es| == 0 || Less(k, es[0].key) then 0
    else 1 + UpperBound(es[1..], k)
  }

  /** On sorted entries, [lower_bound, upper_bound) holds exactly the
    * entries with key k. */
  lemma BoundsDelimitKey<V>(es: seq<Entry<V>>, k: Key)
    requires Sorted(es)
    ensures LowerBound(es, k) <= UpperBound(es, k)
    ensures forall i :: LowerBound(es, k) <= i < UpperBound(es, k) ==> es[i].key == k
    ensures forall i :: 0 <= i < LowerBound(es, k) ==> es[i].key != k
    ensures forall i :: UpperBound(es, k) <= i < |es| ==> es[i].key != k
  {
    var lb, ub := LowerBound(es, k), UpperBound(es, k);
    if ub < lb {
      LessAsymmetric(es[ub].key, k);
    }
    forall i | lb <= i < ub
      ensures es[i].key == k
    {
      if lb < i {
        LessEqTransitive(k, es[lb].key, es[i].key);
      }
      LessTotal(es[i].key, k);
    }
    forall i | 0 <= i < lb
      ensures es[i].key != k
    {
      LessIrreflexive(k);
    }
    forall i | ub <= i < |es|
      ensures es[i].key != k
    {
      if ub < i {
        LessLessEqTransitive(k, es[ub].key, es[i].key);
      }
      LessIrreflexive(k);
    }
  }

  /** equal_range: the pair (lower_bound, upper_bound), which delimits the
    * entries with key k. */
  function EqualRange<V>(es: seq<Entry<V>>, k: Key): (r: (nat, nat))
    requires Sorted(es)
    ensures r.0 <= r.1 <= |es|
    ensures forall i :: 0 <= i < r.0 ==> es[i].key != k
    ensures forall i :: r.0 <= i < r.1 ==> es[i].key == k
    ensures forall i :: r.1 <= i < |es| ==> es[i].key != k
  {
    BoundsDelimitKey(es, k);
    (LowerBound(es, k), UpperBound(es, k))
  }

  /** find_unique and find_multi: the first entry with key k, or end(). */
  function Find<V>(es: seq<Entry<V>>, k: Key): (r: nat)
    ensures r <= |es|
    ensures r < |es| ==> es[r].key == k && forall i :: 0 <= i < r ==> es[i].key != k
  {
    var lb := LowerBound(es, k);
    LessIrreflexive(k);
    if lb < |es| && !Less(k, es[lb].key) then
      LessTotal(k, es[lb].key);
      lb
    else
      |es|
  }

  /** On sorted entries, find returns end() only when the key is absent. */
  lemma FindMissesOnlyAbsent<V>(es: seq<Entry<V>>, k: Key)
    requires Sorted(es)
    ensures Find(es, k) < |es| <==> HasKey(es, k)
  {
    BoundsDelimitKey(es, k);
  }

  /** count_unique: 1 when the key is present, 0 otherwise. */
  function CountUnique<V>(es: seq<Entry<V>>, k: Key): (r: nat)
    ensures r <= 1
  {
    if Find(es, k) < |es| then 1 else 0
  }

  /** On sorted entries, count_unique is 1 exactly when the key is present. */
  lemma CountUniqueIsPresence<V>(es: seq<Entry<V>>, k: Key)
    requires Sorted(es)
    ensures CountUnique(es, k) == 1 <==> HasKey(es, k)
    ensures CountUnique(es, k) == 0 <==> !HasKey(es, k)
  {
    FindMissesOnlyAbsent(es, k);
  }

  /** count_multi: the distance from lower_bound to upper_bound, which is
    * the number of entries with key k. */
  function CountMulti<V>(es: seq<Entry<V>>, k: Key): (r: nat)
    requires Sorted(es)
    ensures r == Occurrences(es, k)
  {
    var (lb, ub) := EqualRange(es, k);
    SliceOccurrences(es, k, lb, ub);
    ub - lb
  }

  lemma {:induction false} OccurrencesAppend<V>(a: seq<Entry<V>>, b: seq<Entry<V>>, k: Key)
    ensures Occurrences(a + b, k) == Occurrences(a, k) + Occurrences(b, k)
    ensures RemoveKey(a + b, k) == RemoveKey(a, k) + RemoveKey(b, k)
  {
    if |a| > 0 {
      OccurrencesAppend(a[1..], b, k);
      assert (a + b)[1..] == a[1..] + b;
    } else {
      assert a + b == b;
    }
  }

  lemma {:induction false} NoOccurrences<V>(es: seq<Entry<V>>, k: Key)
    requires forall i :: 0 <= i < |es| ==> es[i].key != k
    ensures Occurrences(es, k) == 0 && RemoveKey(es, k) == es
  {
    if |es| > 0 {
      NoOccurrences(es[1..], k);
      assert es == [es[0]] + es[1..];
    }
  }

  lemma {:induction false} OnlyOccurrences<V>(es: seq<Entry<V>>, k: Key)
    requires forall i :: 0 <= i < |es| ==> es[i].key == k
    ensures Occurrences(es, k) == |es| && RemoveKey(es, k) == []
  {
    if |es| > 0 {
      OnlyOccurrences(es[1..], k);
    }
  }

  /** Splitting sorted entries at the equal range of k. */
  lemma SliceOccurrences<V>(es: seq<Entry<V>>, k: Key, lb: nat, ub: nat)
    requires lb <= ub <= |es|
    requires forall i :: 0 <= i < lb ==> es[i].key != k
    requires forall i :: lb <= i < ub ==> es[i].key == k
    requires forall i :: ub <= i < |es| ==> es[i].key != k
    ensures Occurrences(es, k) == ub - lb
    ensures RemoveKey(es, k) == es[..lb] + es[ub..]
  {
    var a, b, c := es[..lb], es[lb..ub], es[ub..];
    forall i | 0 <= i < |a| ensures a[i].key != k { assert a[i] == es[i]; }
    forall i | 0 <= i < |b| ensures b[i].key == k { assert b[i] == es[lb + i]; }
    forall i | 0 <= i < |c| ensures c[i].key != k { assert c[i] == es[ub + i]; }
    NoOccurrences(a, k);
    OnlyOccurrences(b, k);
    NoOccurrences(c, k);
    OccurrencesAppend(a, b, k);
    OccurrencesAppend(a + b, c, k);
    SliceJoin(es, lb, ub);
    assert RemoveKey(a + b, k) == a + [];
    assert a + [] == a;
  }

  lemma SliceJoin<V>(es: seq<Entry<V>>, lb: nat, ub: nat)
    requires lb <= ub <= |es|
    ensures es[..lb] + es[lb..ub] + es[ub..] == es
  {
    assert es[..lb] + es[lb..ub] == es[..ub];
  }

  /** On strictly sorted entries a key occurs at most once, so count_unique
    * and count_multi agree. */
  lemma CountUniqueIsOccurrences<V>(es: seq<Entry<V>>, k: Key)
    requires StrictlySorted(es)
    ensures CountUnique(es, k) == Occurrences(es, k)
  {
    StrictlySortedIsSorted(es);
    var (lb, ub) := EqualRange(es, k);
    LessIrreflexive(k);
    assert CountMulti(es, k) == ub - lb;
  }

  // ---------------------------------------------------------------------
  // Insertion and erasure (declared operations, stated on the traversal)
  // ---------------------------------------------------------------------

  /** The result of insert_unique: the entries afterwards, the position of
    * the entry with the key, and whether an insertion took place. */
  datatype Inserted<V> = Inserted(entries: seq<Entry<V>>, position: nat, inserted: bool)

  /** insert_unique: inserts (k, v) at its lower bound unless an entry with
    * key k is already there, in which case nothing changes. */
  function InsertUnique<V>(es: seq<Entry<V>>, k: Key, v: V): (r: Inserted<V>)
    ensures r.position < |r.entries| && r.entries[r.position].key == k
    ensures !r.inserted ==> r.entries == es
    ensures r.inserted ==> |r.entries| == |es| + 1 && r.entries[r.position] == Entry(k, v)
  {
    var lb := LowerBound(es, k);
    if lb < |es| && es[lb].key == k then
      Inserted(es, lb, false)
    else
      Inserted(es[..lb] + [Entry(k, v)] + es[lb..], lb, true)
  }

  /** Putting e between a prefix of smaller keys and a suffix of larger
    * keys keeps strictly sorted entries strictly sorted. */
  lemma InsertBetweenKeepsOrder<V>(es: seq<Entry<V>>, p: nat, e: Entry<V>)
    requires StrictlySorted(es) && p <= |es|
    requires forall i :: 0 <= i < p ==> Less(es[i].key, e.key)
    requires forall i :: p <= i < |es| ==> Less(e.key, es[i].key)
    ensures StrictlySorted(es[..p] + [e] + es[p..])
  {
    var ns := es[..p] + [e] + es[p..];
    forall i, j | 0 <= i < j < |ns|
      ensures Less(ns[i].key, ns[j].key)
    {
      if i < p && j > p {
        LessTransitive(ns[i].key, e.key, ns[j].key);
      }
    }
  }

  /** The keys after inserting e at position p are the old keys and e's. */
  lemma InsertAtKeys<V>(es: seq<Entry<V>>, p: nat, e: Entry<V>)
    requires p <= |es|
    ensures forall x :: HasKey(es[..p] + [e] + es[p..], x) <==> HasKey(es, x) || x == e.key
    ensures multiset(es[..p] + [e] + es[p..]) == multiset(es) + multiset{e}
  {
    var ns := es[..p] + [e] + es[p..];
    forall x
      ensures HasKey(ns, x) <==> HasKey(es, x) || x == e.key
    {
      if HasKey(es, x) {
        var i :| 0 <= i < |es| && es[i].key == x;
        assert ns[if i < p then i else i + 1].key == x;
      }
      if HasKey(ns, x) {
        var i :| 0 <= i < |ns| && ns[i].key == x;
        if i < p {
          assert es[i].key == x;
        } else if i > p {
          assert es[i - 1].key == x;
        }
      }
      assert ns[p].key == e.key;
    }
    assert es == es[..p] + es[p..];
  }

  /** On a unique-key container insert_unique inserts exactly when the key
    * is absent, keeps the entries strictly sorted and adds exactly the new
    * entry; every other entry stays. */
  lemma InsertUniqueKeepsOrder<V>(es: seq<Entry<V>>, k: Key, v: V)
    requires StrictlySorted(es)
    ensures InsertUnique(es, k, v).inserted <==> !HasKey(es, k)
    ensures StrictlySorted(InsertUnique(es, k, v).entries)
    ensures forall x :: HasKey(InsertUnique(es, k, v).entries, x) <==> HasKey(es, x) || x == k
    ensures multiset(InsertUnique(es, k, v).entries) ==
              multiset(es) + (if InsertUnique(es, k, v).inserted then multiset{Entry(k, v)} else multiset{})
  {
    StrictlySortedIsSorted(es);
    BoundsDelimitKey(es, k);
    var lb := LowerBound(es, k);
    if InsertUnique(es, k, v).inserted {
      forall i | lb <= i < |es|
        ensures Less(k, es[i].key)
      {
        LessTotal(k, es[i].key);
        if lb < i {
          LessEqTransitive(k, es[lb].key, es[i].key);
        }
      }
      InsertBetweenKeepsOrder(es, lb, Entry(k, v));
      InsertAtKeys(es, lb, Entry(k, v));
    }
  }

  /** insert_multi: inserts (k, v) at its upper bound, after every entry
    * with an equal key. */
  function InsertMulti<V>(es: seq<Entry<V>>, k: Key, v: V): (r: (seq<Entry<V>>, nat))
    ensures r.1 <= |es| && |r.0| == |es| + 1 && r.0[r.1] == Entry(k, v)
    ensures forall i :: 0 <= i < r.1 ==> r.0[i] == es[i]
    ensures forall i :: r.1 < i < |r.0| ==> r.0[i] == es[i - 1]
  {
    var ub := UpperBound(es, k);
    (es[..ub] + [Entry(k, v)] + es[ub..], ub)
  }

  /** insert_multi keeps the entries sorted, places the new entry after
    * every entry with an equal key, and adds one occurrence of k. */
  lemma InsertMultiKeepsOrder<V>(es: seq<Entry<V>>, k: Key, v: V)
    requires Sorted(es)
    ensures forall i :: 0 <= i < |es| && es[i].key == k ==> i < InsertMulti(es, k, v).1
    ensures Sorted(InsertMulti(es, k, v).0)
    ensures Occurrences(InsertMulti(es, k, v).0, k) == Occurrences(es, k) + 1
  {
    var (ns, ub) := InsertMulti(es, k, v);
    BoundsDelimitKey(es, k);
    forall i | ub <= i < |es|
      ensures Less(k, es[i].key)
    {
      if ub < i {
        LessLessEqTransitive(k, es[ub].key, es[i].key);
      }
    }
    forall i, j | 0 <= i < j < |ns|
      ensures LessEq(ns[i].key, ns[j].key)
    {
      if i < ub && j > ub {
        LessEqLessTransitive(ns[i].key, k, ns[j].key);
        LessAsymmetric(ns[i].key, ns[j].key);
      } else if i == ub && j > ub {
        LessAsymmetric(k, ns[j].key);
      }
    }
    assert ns == es[..ub] + [Entry(k, v)] + es[ub..];
    OccurrencesAppend(es[..ub] + [Entry(k, v)], es[ub..], k);
    OccurrencesAppend(es[..ub], [Entry(k, v)], k);
    assert es == es[..ub] + es[ub..];
    OccurrencesAppend(es[..ub], es[ub..], k);
  }

  /** erase(iter): removes the entry at position i (not end()) and returns
    * the position of the entry that followed it, or end(). */
  function EraseAt<V>(es: seq<Entry<V>>, i: nat): (r: (seq<Entry<V>>, nat))
    requires i < |es|
    ensures |r.0| == |es| - 1 && r.1 == i
    ensures i + 1 < |es| ==> r.0[r.1] == es[i + 1]
    ensures r.1 == |r.0| <==> i == |es| - 1
    ensures multiset(r.0) + multiset{es[i]} == multiset(es)
  {
    assert es == es[..i] + [es[i]] + es[i + 1..];
    (es[..i] + es[i + 1..], i)
  }

  /** erase(begin, end): removes the positions [b, e) and returns how many. */
  function EraseRange<V>(es: seq<Entry<V>>, b: nat, e: nat): (r: (seq<Entry<V>>, nat))
    requires b <= e <= |es|
    ensures r.1 == e - b && |r.0| + r.1 == |es|
    ensures forall i :: 0 <= i < b ==> r.0[i] == es[i]
    ensures forall i :: b <= i < |r.0| ==> r.0[i] == es[i + r.1]
  {
    (es[..b] + es[e..], e - b)
  }

  /** erase_unique: removes the entry with key k and returns 1, or returns
    * 0 and changes nothing when there is none. */
  function EraseUnique<V>(es: seq<Entry<V>>, k: Key): (r: (seq<Entry<V>>, nat))
    ensures r.1 <= 1
    ensures r.1 == 0 ==> r.0 == es
    ensures r.1 == 1 ==> Find(es, k) < |es| && |r.0| == |es| - 1
                         && multiset(r.0) + multiset{es[Find(es, k)]} == multiset(es)
  {
    var i := Find(es, k);
    if i == |es| then (es, 0) else (EraseAt(es, i).0, 1)
  }

  /** On a unique-key container, erase_unique reports 1 exactly when the key
    * was present and leaves every other entry in place. */
  lemma EraseUniqueRemovesKey<V>(es: seq<Entry<V>>, k: Key)
    requires StrictlySorted(es)
    ensures EraseUnique(es, k).1 == 1 <==> HasKey(es, k)
    ensures EraseUnique(es, k).0 == RemoveKey(es, k)
  {
    StrictlySortedIsSorted(es);
    FindMissesOnlyAbsent(es, k);
    var (lb, ub) := EqualRange(es, k);
    SliceOccurrences(es, k, lb, ub);
    if HasKey(es, k) {
      CountUniqueIsOccurrences(es, k);
    }
  }

  /** erase_multi: removes every entry with key k (the range between the
    * bounds) and returns how many there were. */
  function EraseMulti<V>(es: seq<Entry<V>>, k: Key): (r: (seq<Entry<V>>, nat))
    requires Sorted(es)
    ensures r.0 == RemoveKey(es, k) && r.1 == Occurrences(es, k)
    ensures !HasKey(r.0, k)
  {
    var (lb, ub) := EqualRange(es, k);
    SliceOccurrences(es, k, lb, ub);
    var r := EraseRange(es, lb, ub);
    RemoveKeyRemoves(es, k);
    r
  }

  lemma {:induction false} RemoveKeyRemoves<V>(es: seq<Entry<V>>, k: Key)
    ensures !HasKey(RemoveKey(es, k), k)
    ensures forall e :: e in RemoveKey(es, k) <==> e in es && e.key != k
    ensures forall e :: multiset(RemoveKey(es, k))[e] == if e.key == k then 0 else multiset(es)[e]
  {
    if |es| > 0 {
      RemoveKeyRemoves(es[1..], k);
      assert es == [es[0]] + es[1..];
    }
  }

  /** Removing entries keeps strictly sorted entries strictly sorted. */
  lemma {:induction false} RemoveKeyKeepsOrder<V>(es: seq<Entry<V>>, k: Key)
    requires StrictlySorted(es)
    ensures StrictlySorted(RemoveKey(es, k))
  {
    if |es| > 0 {
      RemoveKeyKeepsOrder(es[1..], k);
      if es[0].key != k {
        forall y | y in RemoveKey(es[1..], k)
          ensures Less(es[0].key, y.key)
        {
          RemoveKeyMember(es[1..], k, y);
          var j :| 0 <= j < |es[1..]| && es[1..][j] == y;
          assert es[j + 1] == y;
        }
        SortedAppend([es[0]], RemoveKey(es[1..], k));
      }
    }
  }

  /** Removing entries keeps sorted entries sorted. */
  lemma {:induction false} RemoveKeyKeepsSorted<V>(es: seq<Entry<V>>, k: Key)
    requires Sorted(es)
    ensures Sorted(RemoveKey(es, k))
  {
    if |es| > 0 {
      var rest := RemoveKey(es[1..], k);
      RemoveKeyKeepsSorted(es[1..], k);
      if es[0].key != k {
        assert RemoveKey(es, k) == [es[0]] + rest;
        forall y | y in rest
          ensures LessEq(es[0].key, y.key)
        {
          RemoveKeyMember(es[1..], k, y);
          var m :| 0 <= m < |es[1..]| && es[1..][m] == y;
          assert es[m + 1] == y;
        }
        SortedCons(es[0], rest);
      } else {
        assert RemoveKey(es, k) == rest;
      }
    }
  }

  lemma SortedCons<V>(x: Entry<V>, rest: seq<Entry<V>>)
    requires Sorted(rest)
    requires forall y :: y in rest ==> LessEq(x.key, y.key)
    ensures Sorted([x] + rest)
  {
    var xs := [x] + rest;
    forall i, j | 0 <= i < j < |xs|
      ensures LessEq(xs[i].key, xs[j].key)
    {
      if i == 0 {
        assert xs[j] == rest[j - 1];
        assert xs[j] in rest;
      } else {
        assert xs[i] == rest[i - 1] && xs[j] == rest[j - 1];
      }
    }
  }

  lemma RemoveKeyMember<V>(es: seq<Entry<V>>, k: Key, y: Entry<V>)
    requires y in RemoveKey(es, k)
    ensures y in es
  {
    RemoveKeyRemoves(es, k);
  }

  // ---------------------------------------------------------------------
  // The node structure, as a value
  // ---------------------------------------------------------------------

  /** A node: a leaf holds values; an internal node holds values and one
    * more child than values. */
  datatype TreeNode<V> =
    | Leaf(values: seq<Entry<V>>)
    | Internal(values: seq<Entry<V>>, children: seq<TreeNode<V>>)

  /** The tree: no root at all, or a root and the size stored in it (the
    * root keeps the entry count only when it is an internal node). */
  datatype Tree<V> = Empty | Rooted(root: TreeNode<V>, storedSize: nat)

  /** In-order traversal of a node: child 0, value 0, child 1, ... */
  function Flatten<V>(n: TreeNode<V>): seq<Entry<V>>
    decreases n, 1
  {
    match n
    case Leaf(vs) => vs
    case Internal(vs, cs) => if |cs| == |vs| + 1 then FlattenFrom(n, 0) else []
  }

  function FlattenFrom<V>(n: TreeNode<V>, i: nat): seq<Entry<V>>
    requires n.Internal? && |n.children| == |n.values| + 1 && i <= |n.values|
    decreases n, 0, |n.values| - i
  {
    Flatten(n.children[i]) + (if i < |n.values| then [n.values[i]] + FlattenFrom(n, i + 1) else [])
  }

  ghost predicate AllLess<V>(es: seq<Entry<V>>, k: Key) {
    forall e :: e in es ==> Less(e.key, k)
  }

  ghost predicate AllGreater<V>(es: seq<Entry<V>>, k: Key) {
    forall e :: e in es ==> Less(k, e.key)
  }

  /** The node invariant: an internal node with count values has count + 1
    * children; each node's values are strictly increasing; every key in
    * child i is less than value i, which is less than every key in child
    * i + 1. */
  ghost predicate Ordered<V>(n: TreeNode<V>)
    decreases n
  {
    StrictlySorted(n.values) &&
    match n
    case Leaf(_) => true
    case Internal(vs, cs) =>
      |cs| == |vs| + 1 &&
      (forall i :: 0 <= i < |vs| ==> AllLess(Flatten(cs[i]), vs[i].key)) &&
      (forall i :: 0 <= i < |vs| ==> AllGreater(Flatten(cs[i + 1]), vs[i].key)) &&
      (forall i :: 0 <= i < |cs| ==> Ordered(cs[i]))
  }

  lemma SortedAppend<V>(a: seq<Entry<V>>, b: seq<Entry<V>>)
    requires StrictlySorted(a) && StrictlySorted(b)
    requires forall x, y :: x in a && y in b ==> Less(x.key, y.key)
    ensures StrictlySorted(a + b)
  {
    var ab := a + b;
    forall i, j | 0 <= i < j < |ab|
      ensures Less(ab[i].key, ab[j].key)
    {
      if i < |a| && j >= |a| {
        assert ab[i] in a && ab[j] in b;
      }
    }
  }

  /** The ordering invariant makes the traversal strictly sorted. */
  lemma {:induction false} OrderedFlattenSorted<V>(n: TreeNode<V>)
    requires Ordered(n)
    ensures StrictlySorted(Flatten(n))
    decreases n, 1
  {
    if n.Internal? {
      OrderedFlattenFromSorted(n, 0);
    }
  }

  lemma {:induction false} OrderedFlattenFromSorted<V>(n: TreeNode<V>, i: nat)
    requires n.Internal? && Ordered(n) && i <= |n.values|
    ensures StrictlySorted(FlattenFrom(n, i))
    ensures i > 0 ==> AllGreater(FlattenFrom(n, i), n.values[i - 1].key)
    decreases n, 0, |n.values| - i
  {
    var vs, cs := n.values, n.children;
    var head := Flatten(cs[i]);
    OrderedFlattenSorted(cs[i]);
    if i < |vs| {
      var rest := FlattenFrom(n, i + 1);
      OrderedFlattenFromSorted(n, i + 1);
      SortedAppend([vs[i]], rest);
      forall x, y | x in head && y in [vs[i]] + rest
        ensures Less(x.key, y.key)
      {
        if y in rest {
          LessTransitive(x.key, vs[i].key, y.key);
        }
      }
      SortedAppend(head, [vs[i]] + rest);
      if i > 0 {
        forall y | y in [vs[i]] + rest
          ensures Less(vs[i - 1].key, y.key)
        {
          if y in rest {
            LessTransitive(vs[i - 1].key, vs[i].key, y.key);
          }
        }
      }
    } else {
      assert FlattenFrom(n, i) == head;
    }
  }

  /** The entries of the tree in traversal order. */
  function Entries<V>(t: Tree<V>): seq<Entry<V>> {
    if t.Empty? then [] else Flatten(t.root)
  }

  /** An internal root keeps the total entry count. */
  ghost predicate SizeStored<V>(t: Tree<V>) {
    t.Rooted? && t.root.Internal? ==> t.storedSize == |Flatten(t.root)|
  }

  /** size(): 0 for an empty tree, the root's count for a leaf root, the
    * stored size otherwise; with the stored size kept up to date it is the
    * number of entries. */
  function Size<V>(t: Tree<V>): (r: nat)
    ensures t.Empty? ==> r == 0
    ensures SizeStored(t) ==> r == |Entries(t)|
  {
    if t.Empty? then 0
    else if t.root.Leaf? then |t.root.values|
    else t.storedSize
  }

  /** empty(): no root. */
  predicate IsEmpty<V>(t: Tree<V>) {
    t.Empty?
  }

  /** The length of the chain from the root down to the leftmost leaf. */
  function LeftmostDepth<V>(n: TreeNode<V>): nat {
    if n.Leaf? || |n.children| == 0 then 1 else 1 + LeftmostDepth(n.children[0])
  }

  /** Every leaf is h levels below n (counting n itself as level 1). */
  ghost predicate Balanced<V>(n: TreeNode<V>, h: nat) {
    match n
    case Leaf(_) => h == 1
    case Internal(_, cs) => h > 1 && |cs| > 0 && forall i :: 0 <= i < |cs| ==> Balanced(cs[i], h - 1)
  }

  /** height(): 0 for an empty tree, otherwise the number of levels, read
    * off the chain between the root and the leftmost leaf. */
  function Height<V>(t: Tree<V>): (r: nat)
    ensures r == 0 <==> t.Empty?
  {
    if t.Empty? then 0 else LeftmostDepth(t.root)
  }

  /** In a balanced tree the leftmost chain has the common leaf depth. */
  lemma {:induction false} HeightOfBalanced<V>(t: Tree<V>, h: nat)
    requires t.Rooted? && Balanced(t.root, h)
    ensures Height(t) == h
  {
    LeftmostDepthOfBalanced(t.root, h);
  }

  lemma {:induction false} LeftmostDepthOfBalanced<V>(n: TreeNode<V>, h: nat)
    requires Balanced(n, h)
    ensures LeftmostDepth(n) == h
  {
    if n.Internal? {
      LeftmostDepthOfBalanced(n.children[0], h - 1);
    }
  }

  /** Counts of leaf and internal nodes. */
  datatype NodeStats = NodeStats(leafNodes: nat, internalNodes: nat)

  function AddStats(a: NodeStats, b: NodeStats): NodeStats {
    NodeStats(a.leafNodes + b.leafNodes, a.internalNodes + b.internalNodes)
  }

  /** internal_stats of a node: (1, 0) for a leaf; for an internal node,
    * (0, 1) plus the stats of its children. */
  function Stats<V>(n: TreeNode<V>): NodeStats
    decreases n, 1
  {
    match n
    case Leaf(_) => NodeStats(1, 0)
    case Internal(_, cs) => AddStats(NodeStats(0, 1), ChildStats(n, |cs|))
  }

  /** The sum of the stats of the first m children of n. */
  function ChildStats<V>(n: TreeNode<V>, m: nat): NodeStats
    requires n.Internal? && m <= |n.children|
    decreases n, 0, m
  {
    if m == 0 then NodeStats(0, 0)
    else AddStats(ChildStats(n, m - 1), Stats(n.children[m - 1]))
  }

  /** internal_stats of the root; an absent root counts nothing. */
  function TreeStats<V>(t: Tree<V>): NodeStats {
    if t.Empty? then NodeStats(0, 0) else Stats(t.root)
  }

  /** Every internal node holds at least one value, so it has at least two
    * children. */
  ghost predicate InternalNodesHoldValues<V>(n: TreeNode<V>) {
    match n
    case Leaf(_) => true
    case Internal(vs, cs) =>
      |vs| >= 1 && |cs| == |vs| + 1 && forall i :: 0 <= i < |cs| ==> InternalNodesHoldValues(cs[i])
  }

  /** A tree whose internal nodes all branch has more leaves than internal
    * nodes. */
  lemma {:induction false} MoreLeavesThanInternalNodes<V>(n: TreeNode<V>)
    requires InternalNodesHoldValues(n)
    ensures Stats(n).leafNodes >= Stats(n).internalNodes + 1
    decreases n, 1
  {
    if n.Internal? {
      ChildStatsBound(n, |n.children|);
    }
  }

  lemma {:induction false} ChildStatsBound<V>(n: TreeNode<V>, m: nat)
    requires n.Internal? && InternalNodesHoldValues(n) && m <= |n.children|
    ensures ChildStats(n, m).leafNodes >= ChildStats(n, m).internalNodes + m
    decreases n, 0, m
  {
    if m > 0 {
      ChildStatsBound(n, m - 1);
      MoreLeavesThanInternalNodes(n.children[m - 1]);
    }
  }

  /** internal_stats computed as the source does: a loop over the children
    * that adds each child's (recursively computed) stats. */
  method InternalStats<V>(t: Tree<V>) returns (r: NodeStats)
    ensures r == TreeStats(t)
  {
    if t.Empty? {
      return NodeStats(0, 0);
    }
    r := NodeInternalStats(t.root);
  }

  method NodeInternalStats<V>(n: TreeNode<V>) returns (r: NodeStats)
    ensures r == Stats(n)
    decreases n
  {
    if n.Leaf? {
      return NodeStats(1, 0);
    }
    var acc := NodeStats(0, 0);
    var i := 0;
    while i < |n.children|
      invariant 0 <= i <= |n.children|
      invariant acc == ChildStats(n, i)
    {
      var s := NodeInternalStats(n.children[i]);
      acc := AddStats(acc, s);
      i := i + 1;
    }
    r := AddStats(NodeStats(0, 1), acc);
  }
}
