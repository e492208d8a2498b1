/**
 * One node of the B-tree container and the in-node machinery around it:
 * node sizing, the comparator adapters, the four in-node searches,
 * set_child, and the fast paths of the tree iterator.
 *
 * A node keeps its keys in a fixed-size array of which the first `count`
 * slots are in use. The searches only read the keys; the comparator they
 * use is passed in, either a boolean less-than ("plain compare") or a
 * three-way compare-to function (negative, zero, positive).
 */
module BTreeNode {
  import Keys

  // ---------------------------------------------------------------------
  // Node sizing
  // ---------------------------------------------------------------------

  /** Values that fit the byte budget of a leaf node: what is left of the
    * target node size after the node header, divided by the value size. */
  function NodeTargetValues(targetNodeSize: nat, baseFieldsSize: nat, valueSize: nat): nat
    requires valueSize > 0 && baseFieldsSize <= targetNodeSize
  {
    (targetNodeSize - baseFieldsSize) / valueSize
  }

  /** The node capacity: the byte-budget count, but never fewer than 3
    * (one value for each half of a split and one delimiter for the parent). */
  function NodeValues(targetNodeSize: nat, baseFieldsSize: nat, valueSize: nat): (r: nat)
    requires valueSize > 0 && baseFieldsSize <= targetNodeSize
    ensures r >= 3
    ensures var budget := targetNodeSize - baseFieldsSize;
            (r * valueSize <= budget < (r + 1) * valueSize)
            || (r == 3 && budget < 3 * valueSize)
  {
    var n := NodeTargetValues(targetNodeSize, baseFieldsSize, valueSize);
    DivisionBounds(targetNodeSize - baseFieldsSize, valueSize);
    if n >= 3 then n else 3
  }

  lemma DivisionBounds(budget: nat, valueSize: nat)
    requires valueSize > 0
    ensures (budget / valueSize) * valueSize <= budget < (budget / valueSize + 1) * valueSize
  {
  }

  /** The minimum fill of a non-root node: half the capacity, rounded down. */
  function MinNodeValues(nodeValues: nat): (r: nat)
    ensures 2 * r <= nodeValues <= 2 * r + 1
  {
    nodeValues / 2
  }

  // ---------------------------------------------------------------------
  // Comparators and their adapters
  // ---------------------------------------------------------------------

  /** A key comparator: a boolean less-than, or a three-way compare-to that
    * returns a negative, zero or positive value. */
  datatype KeyCompare<!K> = Plain(less: (K, K) -> bool) | CompareTo(cmp: (K, K) -> int)

  /** The boolean reading of a comparator: a compare-to comparator says
    * "less" when it returns a negative value. */
  function CompareKeys<K>(c: KeyCompare<K>, x: K, y: K): (r: bool)
    ensures c.CompareTo? ==> (r <==> c.cmp(x, y) < 0)
    ensures c.Plain? ==> (r <==> c.less(x, y))
  {
    match c
    case Plain(less) => less(x, y)
    case CompareTo(cmp) => cmp(x, y) < 0
  }

  /** Turns a lower-bound comparator into an upper-bound one: a key counts as
    * "before" k as long as k is not less than it. */
  function UpperBoundAdapter<K>(c: KeyCompare<K>): (u: KeyCompare<K>)
    ensures u.Plain?
  {
    Plain((a: K, b: K) => !CompareKeys(c, b, a))
  }

  /** The compare-to flavour of the upper-bound adapter: arguments swapped. */
  function UpperBoundCompareToAdapter<K(!new)>(cmp: (K, K) -> int): (u: (K, K) -> int)
    ensures forall a, b :: u(b, a) == cmp(a, b)
  {
    (a: K, b: K) => cmp(b, a)
  }

  /** Under the upper-bound adapter, a key a is "before" b exactly when b is
    * not less than a; for a compare-to comparator the adapter swaps the
    * arguments. */
  lemma UpperBoundAdaptersSwap<K(!new)>(c: KeyCompare<K>, cmp: (K, K) -> int, a: K, b: K)
    ensures CompareKeys(UpperBoundAdapter(c), a, b) <==> !CompareKeys(c, b, a)
    ensures UpperBoundCompareToAdapter(cmp)(a, b) == cmp(b, a)
  {
  }

  /** Three-way comparison of byte strings (string::compare): the sign
    * only, which is all the container reads of it. */
  function StringCompare(a: Keys.Key, b: Keys.Key): (r: int)
    ensures -1 <= r <= 1
    ensures r == 0 <==> a == b
    decreases |a|
  {
    if |a| == 0 && |b| == 0 then 0
    else if |a| == 0 then -1
    else if |b| == 0 then 1
    else if a[0] < b[0] then -1
    else if a[0] > b[0] then 1
    else StringCompare(a[1..], b[1..])
  }

  /** The compare-to adapter for less<string>: a.compare(b). */
  function LessStringCompareTo(): (K: (Keys.Key, Keys.Key) -> int)
    ensures forall a, b :: (K(a, b) < 0 <==> Keys.Less(a, b)) && (K(a, b) == 0 <==> a == b)
  {
    StringCompareOrders();
    (a: Keys.Key, b: Keys.Key) => StringCompare(a, b)
  }

  /** The compare-to adapter for greater<string>: b.compare(a). */
  function GreaterStringCompareTo(): (K: (Keys.Key, Keys.Key) -> int)
    ensures forall a, b :: (K(a, b) < 0 <==> Keys.Less(b, a)) && (K(a, b) == 0 <==> a == b)
  {
    StringCompareOrders();
    (a: Keys.Key, b: Keys.Key) => StringCompare(b, a)
  }

  /** string::compare agrees with the byte-wise key order: negative exactly
    * when a sorts before b, zero exactly when they are equal. */
  lemma {:induction false} StringCompareAgreesWithLess(a: Keys.Key, b: Keys.Key)
    ensures StringCompare(a, b) < 0 <==> Keys.Less(a, b)
    ensures StringCompare(a, b) == 0 <==> a == b
    decreases |a|
  {
    if |a| > 0 && |b| > 0 && a[0] == b[0] {
      StringCompareAgreesWithLess(a[1..], b[1..]);
      assert a == [a[0]] + a[1..] && b == [b[0]] + b[1..];
    } else if |a| > 0 && |b| > 0 {
      assert a[0] != b[0] ==> a != b;
    }
  }

  lemma StringCompareOrders()
    ensures forall a, b :: (StringCompare(a, b) < 0 <==> Keys.Less(a, b)) && (StringCompare(a, b) == 0 <==> a == b)
  {
    forall a, b
      ensures (StringCompare(a, b) < 0 <==> Keys.Less(a, b)) && (StringCompare(a, b) == 0 <==> a == b)
    {
      StringCompareAgreesWithLess(a, b);
    }
  }

  /** With the less<string> adapter, the container's boolean comparison is
    * the byte-wise order; with the greater<string> adapter it is reversed. */
  lemma StringAdaptersReadAsLess(a: Keys.Key, b: Keys.Key)
    ensures CompareKeys(CompareTo(LessStringCompareTo()), a, b) <==> Keys.Less(a, b)
    ensures CompareKeys(CompareTo(GreaterStringCompareTo()), a, b) <==> Keys.Less(b, a)
  {
    StringCompareAgreesWithLess(a, b);
    StringCompareAgreesWithLess(b, a);
  }

  // ---------------------------------------------------------------------
  // The lower-bound position the searches compute
  // ---------------------------------------------------------------------

  /** The first position in [s, e) whose key is not "less" than k under c,
    * or e when every key in [s, e) is. */
  function LowerBound<K>(ks: seq<K>, k: K, s: int, e: int, c: KeyCompare<K>): (r: int)
    requires 0 <= s <= e <= |ks|
    ensures s <= r <= e
    ensures forall i :: s <= i < r ==> CompareKeys(c, ks[i], k)
    ensures r < e ==> !CompareKeys(c, ks[r], k)
    decreases e - s
  {
    if s == e then e
    else if !CompareKeys(c, ks[s], k) then s
    else LowerBound(ks, k, s + 1, e, c)
  }

  /** The three properties above pin the lower bound down. */
  lemma LowerBoundUnique<K>(ks: seq<K>, k: K, s: int, e: int, c: KeyCompare<K>, p: int)
    requires 0 <= s <= p <= e <= |ks|
    requires forall i :: s <= i < p ==> CompareKeys(c, ks[i], k)
    requires p < e ==> !CompareKeys(c, ks[p], k)
    ensures LowerBound(ks, k, s, e, c) == p
  {
  }

  /** Keys ordered with respect to k: the keys "less" than k form a prefix
    * of [s, e). Sorted node keys under a strict weak order satisfy this. */
  ghost predicate Partitioned<K>(ks: seq<K>, k: K, s: int, e: int, c: KeyCompare<K>)
    requires 0 <= s <= e <= |ks|
  {
    forall i, j :: s <= i <= j < e && CompareKeys(c, ks[j], k) ==> CompareKeys(c, ks[i], k)
  }

  function Sign(x: int): int {
    if x < 0 then -1 else if x == 0 then 0 else 1
  }

  /** Keys ordered with respect to k under a three-way comparator: the sign
    * of cmp(key, k) never decreases along [s, e). */
  ghost predicate SignOrdered<K>(ks: seq<K>, k: K, s: int, e: int, cmp: (K, K) -> int)
    requires 0 <= s <= e <= |ks|
  {
    forall i, j :: s <= i <= j < e ==> Sign(cmp(ks[i], k)) <= Sign(cmp(ks[j], k))
  }

  /** Byte-string keys in ascending order are partitioned with respect to
    * any probe key under the key order. */
  lemma SortedKeysArePartitioned(ks: seq<Keys.Key>, k: Keys.Key, s: int, e: int)
    requires 0 <= s <= e <= |ks|
    requires forall i, j :: s <= i < j < e ==> Keys.Less(ks[i], ks[j])
    ensures Partitioned(ks, k, s, e, Plain(Keys.Less))
  {
    forall i, j | s <= i <= j < e && Keys.Less(ks[j], k)
      ensures Keys.Less(ks[i], k)
    {
      if i < j {
        Keys.LessTransitive(ks[i], ks[j], k);
      }
    }
  }

  // ---------------------------------------------------------------------
  // The exact-match flag of the compare-to searches
  // ---------------------------------------------------------------------

  /** Bit 30 of a compare-to search result says the key was found. */
  const ExactMatch: int := 0x4000_0000
  const MatchMask: int := ExactMatch - 1

  /** `p | kExactMatch` for a position p below 2^30: the bit is added. */
  function WithExactMatch(r: int): (f: int)
    requires 0 <= r < 2 * ExactMatch
    ensures MatchPosition(f) == MatchPosition(r) && IsExactMatch(f)
  {
    if r >= ExactMatch then r else r + ExactMatch
  }

  /** `r & kMatchMask`: the position with the flag masked off; a bare
    * position comes back unchanged. */
  function MatchPosition(r: int): (p: int)
    ensures 0 <= p < ExactMatch
    ensures 0 <= r < ExactMatch ==> p == r
  {
    r % ExactMatch
  }

  /** `r & kExactMatch`: on a search result, the flag is set exactly when
    * the result is the position plus the flag. */
  predicate IsExactMatch(r: int)
    ensures 0 <= r < 2 * ExactMatch ==> (IsExactMatch(r) <==> r - MatchPosition(r) == ExactMatch)
  {
    r >= ExactMatch
  }

  /** For positions below 2^30, setting bit 30 is adding 2^30, and masking
    * with 2^30 - 1 recovers the position. */
  lemma ExactMatchBitArithmetic(p: bv32)
    requires p < 0x4000_0000
    ensures p | 0x4000_0000 == p + 0x4000_0000
    ensures (p | 0x4000_0000) & 0x3FFF_FFFF == p
  {
  }

  // ---------------------------------------------------------------------
  // Nodes
  // ---------------------------------------------------------------------

  /** The search strategy the node type selects: linear for integral and
    * floating keys, binary otherwise; compare-to when the comparator is one. */
  datatype SearchType = LinearPlain | LinearCompareTo | BinaryPlain | BinaryCompareTo

  /** A key below k at mid puts every key of [lo, mid] below k too. */
  lemma BelowExtends<K>(ks: seq<K>, k: K, s: int, e: int, cmp: (K, K) -> int, lo: int, mid: int)
    requires 0 <= s <= lo <= mid < e <= |ks|
    requires SignOrdered(ks, k, s, e, cmp)
    requires forall i :: s <= i < lo ==> cmp(ks[i], k) < 0
    requires cmp(ks[mid], k) < 0
    ensures forall i :: s <= i < mid + 1 ==> cmp(ks[i], k) < 0
  {
    forall i | lo <= i <= mid
      ensures cmp(ks[i], k) < 0
    {
      assert Sign(cmp(ks[i], k)) <= Sign(cmp(ks[mid], k));
    }
  }

  /** When the three-way search meets a key equal to k at mid and the
    * search of [lo, mid) returned inner, inner's position is the lower
    * bound of the whole range and holds a key equal to k. */
  lemma ExactMatchFound<K>(ks: seq<K>, k: K, s: int, e: int, cmp: (K, K) -> int, lo: int, mid: int, inner: int)
    requires 0 <= s <= lo <= mid < e <= |ks|
    requires SignOrdered(ks, k, s, e, cmp)
    requires forall i :: s <= i < lo ==> cmp(ks[i], k) < 0
    requires cmp(ks[mid], k) == 0
    requires MatchPosition(inner) == LowerBound(ks, k, lo, mid, CompareTo(cmp))
    ensures MatchPosition(inner) == LowerBound(ks, k, s, e, CompareTo(cmp))
    ensures var p := MatchPosition(inner); p < e && cmp(ks[p], k) == 0
  {
    var p := MatchPosition(inner);
    assert forall i :: s <= i < p ==> cmp(ks[i], k) < 0;
    if p < mid {
      assert Sign(cmp(ks[p], k)) <= Sign(cmp(ks[mid], k));
    }
    LowerBoundUnique(ks, k, s, e, CompareTo(cmp), p);
  }

  class Node<K(0)> {
    /** Whether this node is a leaf; fixed when the node is created. */
    var leaf: bool
    /** The position of this node in its parent's child array. */
    var position: int
    /** The number of value slots. */
    var maxCount: int
    /** The number of values in use. */
    var count: int
    var parent: Node?<K>
    /** The keys of the values; only the first `count` are in use. */
    var keys: array<K>
    /** The child pointers of an internal node (count + 1 in use). */
    var children: array<Node?<K>>

    /** init_leaf: an empty leaf with room for maxCount values. */
    constructor InitLeaf(parent: Node?<K>, maxCount: nat)
      ensures this.leaf && this.position == 0 && this.count == 0
      ensures this.maxCount == maxCount && this.parent == parent
      ensures fresh(keys) && keys.Length == maxCount
      ensures fresh(children) && children.Length == 0
    {
      this.leaf := true;
      this.position := 0;
      this.maxCount := maxCount;
      this.count := 0;
      this.parent := parent;
      this.keys := new K[maxCount];
      this.children := new Node?<K>[0];
    }

    /** init_internal: an empty internal node with nodeValues slots and
      * nodeValues + 1 child slots. */
    constructor InitInternal(parent: Node?<K>, nodeValues: nat)
      ensures !this.leaf && this.position == 0 && this.count == 0
      ensures this.maxCount == nodeValues && this.parent == parent
      ensures fresh(keys) && keys.Length == nodeValues
      ensures fresh(children) && children.Length == nodeValues + 1
    {
      this.leaf := false;
      this.position := 0;
      this.maxCount := nodeValues;
      this.count := 0;
      this.parent := parent;
      this.keys := new K[nodeValues];
      this.children := new Node?<K>[nodeValues + 1];
    }

    /** Stores c as child i and records in c its parent and its position. */
    method SetChild(i: int, c: Node<K>)
      requires 0 <= i < children.Length
      modifies children, c`parent, c`position
      ensures children[i] == c && c.parent == this && c.position == i
      ensures forall j :: 0 <= j < children.Length && j != i ==> children[j] == old(children[j])
    {
      children[i] := c;
      c.parent := this;
      c.position := i;
    }

    /** Linear search with a boolean comparator: the first key in [s, e)
      * that is not less than k. */
    method LinearSearchPlainCompare(k: K, s: int, e: int, c: KeyCompare<K>) returns (r: int)
      requires 0 <= s <= e <= count <= keys.Length
      ensures r == LowerBound(keys[..], k, s, e, c)
    {
      r := s;
      while r < e
        invariant s <= r <= e
        invariant forall i :: s <= i < r ==> CompareKeys(c, keys[i], k)
      {
        if !CompareKeys(c, keys[r], k) {
          break;
        }
        r := r + 1;
      }
      LowerBoundUnique(keys[..], k, s, e, c, r);
    }

    /** Linear search with a three-way comparator: stops at the first key
      * that is not less than k and flags it when it equals k. */
    method LinearSearchCompareTo(k: K, s: int, e: int, cmp: (K, K) -> int) returns (r: int)
      requires 0 <= s <= e <= count <= keys.Length && e < ExactMatch
      ensures 0 <= r < 2 * ExactMatch
      ensures MatchPosition(r) == LowerBound(keys[..], k, s, e, CompareTo(cmp))
      ensures IsExactMatch(r) <==>
                var p := MatchPosition(r); p < e && cmp(keys[p], k) == 0
    {
      var i := s;
      while i < e
        invariant s <= i <= e
        invariant forall j :: s <= j < i ==> cmp(keys[j], k) < 0
      {
        var c := cmp(keys[i], k);
        if c == 0 {
          LowerBoundUnique(keys[..], k, s, e, CompareTo(cmp), i);
          return i + ExactMatch;
        } else if c > 0 {
          break;
        }
        i := i + 1;
      }
      LowerBoundUnique(keys[..], k, s, e, CompareTo(cmp), i);
      r := i;
    }

    /** Binary search with a boolean comparator. On keys partitioned with
      * respect to k it finds the same position as the linear search. */
    method BinarySearchPlainCompare(k: K, s: int, e: int, c: KeyCompare<K>) returns (r: int)
      requires 0 <= s <= e <= count <= keys.Length
      requires Partitioned(keys[..], k, s, e, c)
      ensures r == LowerBound(keys[..], k, s, e, c)
    {
      var lo, hi := s, e;
      while lo != hi
        invariant s <= lo <= hi <= e
        invariant forall i :: s <= i < lo ==> CompareKeys(c, keys[i], k)
        invariant hi < e ==> !CompareKeys(c, keys[hi], k)
      {
        var mid := (lo + hi) / 2;
        if CompareKeys(c, keys[mid], k) {
          lo := mid + 1;
        } else {
          hi := mid;
        }
      }
      LowerBoundUnique(keys[..], k, s, e, c, lo);
      r := lo;
    }

    /** Binary search with a three-way comparator. When it meets a key equal
      * to k it keeps searching to its left for the first such key, and
      * then reports an exact match. */
    method BinarySearchCompareTo(k: K, s: int, e: int, cmp: (K, K) -> int) returns (r: int)
      requires 0 <= s <= e <= count <= keys.Length && e < ExactMatch
      requires SignOrdered(keys[..], k, s, e, cmp)
      ensures 0 <= r < 2 * ExactMatch
      ensures MatchPosition(r) == LowerBound(keys[..], k, s, e, CompareTo(cmp))
      ensures IsExactMatch(r) <==>
                var p := MatchPosition(r); p < e && cmp(keys[p], k) == 0
      decreases e - s
    {
      ghost var ks := keys[..];
      var lo, hi := s, e;
      while lo != hi
        invariant s <= lo <= hi <= e
        invariant forall i :: s <= i < lo ==> cmp(ks[i], k) < 0
        invariant hi < e ==> cmp(ks[hi], k) > 0
      {
        var mid := (lo + hi) / 2;
        var c := cmp(keys[mid], k);
        if c < 0 {
          BelowExtends(ks, k, s, e, cmp, lo, mid);
          lo := mid + 1;
        } else if c > 0 {
          hi := mid;
        } else {
          var inner := BinarySearchCompareTo(k, lo, mid, cmp);
          ExactMatchFound(ks, k, s, e, cmp, lo, mid, inner);
          return WithExactMatch(inner);
        }
      }
      LowerBoundUnique(ks, k, s, e, CompareTo(cmp), lo);
      r := lo;
    }

    /** lower_bound of the node: the search its type selects over [0, count). */
    method NodeLowerBound(k: K, c: KeyCompare<K>, st: SearchType) returns (r: int)
      requires 0 <= count <= keys.Length && count < ExactMatch
      requires st.LinearCompareTo? || st.BinaryCompareTo? ==> c.CompareTo?
      requires st.BinaryPlain? ==> Partitioned(keys[..], k, 0, count, c)
      requires st.BinaryCompareTo? ==> SignOrdered(keys[..], k, 0, count, c.cmp)
      ensures MatchPosition(r) == LowerBound(keys[..], k, 0, count, c)
      ensures IsExactMatch(r) ==> st.LinearCompareTo? || st.BinaryCompareTo?
    {
      match st
      case LinearPlain =>
        r := LinearSearchPlainCompare(k, 0, count, c);
      case LinearCompareTo =>
        r := LinearSearchCompareTo(k, 0, count, c.cmp);
      case BinaryPlain =>
        r := BinarySearchPlainCompare(k, 0, count, c);
      case BinaryCompareTo =>
        r := BinarySearchCompareTo(k, 0, count, c.cmp);
    }

    /** upper_bound of the node: the first key greater than k. Every search
      * type does it with a plain search and the upper-bound adapter (the
      * compare-to types always with the linear one). */
    method NodeUpperBound(k: K, c: KeyCompare<K>, st: SearchType) returns (r: int)
      requires 0 <= count <= keys.Length
      requires st.LinearCompareTo? || st.BinaryCompareTo? ==> c.CompareTo?
      requires st.BinaryPlain? ==> Partitioned(keys[..], k, 0, count, UpperBoundAdapter(c))
      ensures 0 <= r <= count
      ensures forall i :: 0 <= i < r ==> !CompareKeys(c, k, keys[i])
      ensures r < count ==> CompareKeys(c, k, keys[r])
    {
      var u := UpperBoundAdapter(c);
      if st.BinaryPlain? {
        r := BinarySearchPlainCompare(k, 0, count, u);
      } else {
        r := LinearSearchPlainCompare(k, 0, count, u);
      }
    }
  }

  // ---------------------------------------------------------------------
  // Iterators
  // ---------------------------------------------------------------------

  /** A position in the tree: a node and a slot in it. */
  class Iterator<K(0)> {
    var node: Node?<K>
    var position: int

    /** The default iterator points nowhere. */
    constructor Default()
      ensures node == null && position == -1
    {
      node := null;
      position := -1;
    }

    constructor (n: Node?<K>, p: int)
      ensures node == n && position == p
    {
      node := n;
      position := p;
    }

    /** The fast path of ++: inside a leaf the position just moves on. The
      * result says whether the slow path (climbing to the parent, or going
      * down an internal node's child) must finish the step. */
    method Increment() returns (slow: bool)
      requires node != null
      modifies this`position
      ensures position == (if node.leaf then old(position) + 1 else old(position))
      ensures slow <==> !(node.leaf && position < node.count)
    {
      if node.leaf {
        position := position + 1;
        if position < node.count {
          return false;
        }
      }
      slow := true;
    }

    /** The fast path of --, symmetric to Increment. */
    method Decrement() returns (slow: bool)
      requires node != null
      modifies this`position
      ensures position == (if node.leaf then old(position) - 1 else old(position))
      ensures slow <==> !(node.leaf && position >= 0)
    {
      if node.leaf {
        position := position - 1;
        if position >= 0 {
          return false;
        }
      }
      slow := true;
    }

    /** Two iterators are equal when they point at the same slot of the
      * same node. */
    predicate Equals(x: Iterator<K>)
      reads this, x
      ensures x == this ==> Equals(x)
    {
      node == x.node && position == x.position
    }

    predicate NotEquals(x: Iterator<K>)
      reads this, x
      ensures NotEquals(x) <==> !Equals(x)
    {
      node != x.node || position != x.position
    }
  }
}
