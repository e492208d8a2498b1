/**
 * The keyset algorithms of the query layer: folding an index range, a
 * sequence of (index key, primary key) pairs, into a keyset of primary
 * keys.
 *
 * As written, keyset_and and keyset_or have the same body: both insert the
 * primary key of every pair of the range, so keyset_and computes a union.
 * KeysetAnd below is that code; KeysetIntersect is the intersection its
 * name promises, and the query executor's logic_and uses intersection.
 */
module Algorithm {
  import opened Keys
  import BTree
  import Index

  /** The primary keys (pair seconds) of a range. */
  function Seconds(range: seq<Index.IndexEntry>): (r: set<Key>)
    ensures forall k :: k in r <==> exists i :: 0 <= i < |range| && range[i].value == k
  {
    set i | 0 <= i < |range| :: range[i].value
  }

  lemma SecondsSnoc(range: seq<Index.IndexEntry>, i: nat)
    requires i < |range|
    ensures Seconds(range[..i + 1]) == Seconds(range[..i]) + {range[i].value}
  {
    var a := range[..i + 1];
    var b := range[..i];
    forall k
      ensures k in Seconds(a) <==> k in Seconds(b) + {range[i].value}
    {
      if k in Seconds(a) {
        var j :| 0 <= j < |a| && a[j].value == k;
        if j < i {
          assert b[j].value == k;
        }
      }
      if k in Seconds(b) {
        var j :| 0 <= j < |b| && b[j].value == k;
        assert a[j].value == k;
      }
      assert a[i].value == range[i].value;
    }
  }

  /** keyset_or: inserts every primary key of the range. */
  method KeysetOr(keys: set<Key>, range: seq<Index.IndexEntry>) returns (r: set<Key>)
    ensures r == keys + Seconds(range)
  {
    r := keys;
    var i := 0;
    while i < |range|
      invariant 0 <= i <= |range|
      invariant r == keys + Seconds(range[..i])
    {
      SecondsSnoc(range, i);
      r := r + {range[i].value};
      i := i + 1;
    }
    assert range[..i] == range;
  }

  /** keyset_and as written: its body is keyset_or's, so it inserts every
    * primary key of the range. */
  method KeysetAnd(keys: set<Key>, range: seq<Index.IndexEntry>) returns (r: set<Key>)
    ensures r == keys + Seconds(range)
  {
    r := KeysetOr(keys, range);
  }

  /** The intersection keyset_and is named for: the keys that are also a
    * primary key of the range. */
  method KeysetIntersect(keys: set<Key>, range: seq<Index.IndexEntry>) returns (r: set<Key>)
    ensures r == keys * Seconds(range)
  {
    r := {};
    var i := 0;
    while i < |range|
      invariant 0 <= i <= |range|
      invariant r == keys * Seconds(range[..i])
    {
      SecondsSnoc(range, i);
      if range[i].value in keys {
        r := r + {range[i].value};
      }
      i := i + 1;
    }
    assert range[..i] == range;
  }

  /** keyset_and adds a key that was not in the keyset, so it is not an
    * intersection. */
  lemma KeysetAndIsNotIntersection()
    ensures var keys: set<Key> := {[1]};
            var range: seq<Index.IndexEntry> := [BTree.Entry([7], [2])];
            keys + Seconds(range) != keys * Seconds(range)
  {
    var keys: set<Key> := {[1]};
    var range: seq<Index.IndexEntry> := [BTree.Entry([7], [2])];
    assert range[0].value == [2];
    assert [2] in keys + Seconds(range);
  }

  /** The primary keys of two consecutive ranges are those of the first
    * and those of the second. */
  lemma SecondsAppend(a: seq<Index.IndexEntry>, b: seq<Index.IndexEntry>)
    ensures Seconds(a + b) == Seconds(a) + Seconds(b)
  {
    forall k | k in Seconds(a + b)
      ensures k in Seconds(a) + Seconds(b)
    {
      var j :| 0 <= j < |a + b| && (a + b)[j].value == k;
      if j >= |a| {
        assert b[j - |a|].value == k;
      }
    }
    forall k | k in Seconds(a) + Seconds(b)
      ensures k in Seconds(a + b)
    {
      if k in Seconds(a) {
        var j :| 0 <= j < |a| && a[j].value == k;
        assert (a + b)[j].value == k;
      } else {
        var j :| 0 <= j < |b| && b[j].value == k;
        assert (a + b)[|a| + j].value == k;
      }
    }
  }

  /** Folding a range split in two pieces, one after the other, gives the
    * keyset of folding the whole range: for the union the second fold
    * starts from the first one's result, for the intersection the two
    * results are joined. */
  lemma {:induction false} FoldsCompose(keys: set<Key>, a: seq<Index.IndexEntry>, b: seq<Index.IndexEntry>)
    ensures keys + Seconds(a + b) == (keys + Seconds(a)) + Seconds(b)
    ensures keys * Seconds(a + b) == (keys * Seconds(a)) + (keys * Seconds(b))
  {
    SecondsAppend(a, b);
  }
}
