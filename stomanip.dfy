/**
 * The storage manipulator of the query layer: the record count of a table
 * and the paged load of its values.
 *
 * The table's repository is passed in (the source opens it by name). The
 * load writes the character '0' and then the raw bytes of each selected
 * value into a string stream; the model returns those bytes.
 */
module Stomanip {
  import opened Keys
  import BTree
  import Repository

  /** The character '0' that every load starts with. */
  const Zero: byte := 48

  /** The values of the records, concatenated in order; keys are not
    * written. */
  function Values(rs: seq<Repository.Record>): (r: Bytes)
    ensures |rs| == 0 ==> r == []
  {
    if |rs| == 0 then [] else Values(rs[..|rs| - 1]) + rs[|rs| - 1].value
  }

  lemma {:induction false} ValuesAppend(a: seq<Repository.Record>, b: seq<Repository.Record>)
    ensures Values(a + b) == Values(a) + Values(b)
    decreases |b|
  {
    if |b| == 0 {
      assert a + b == a;
    } else {
      ValuesAppend(a, b[..|b| - 1]);
      assert (a + b)[..|a + b| - 1] == a + b[..|b| - 1];
    }
  }

  lemma ValuesSnoc(rs: seq<Repository.Record>, x: Repository.Record)
    ensures Values(rs + [x]) == Values(rs) + x.value
  {
    assert (rs + [x])[..|rs|] == rs;
  }

  function Min(a: int, b: int): int {
    if a <= b then a else b
  }

  /** The positions of the records a load emits: skip `start`, then at most
    * limit + 1 records. */
  function PageStart(n: nat, start: nat): (r: nat)
    ensures r <= n
    ensures r == n || r == start
  {
    Min(start, n)
  }

  function PageEnd(n: nat, start: nat, limit: nat): (r: nat)
    ensures PageStart(n, start) <= r <= n
    ensures r - PageStart(n, start) <= limit + 1
  {
    Min(n, start + limit + 1)
  }

  /** The records of the page. */
  function Page(rs: seq<Repository.Record>, start: nat, limit: nat): (r: seq<Repository.Record>)
    ensures |r| <= limit + 1
    ensures |r| == 0 <==> start >= |rs|
    ensures forall i :: 0 <= i < |r| ==> start + i < |rs| && r[i] == rs[start + i]
  {
    rs[PageStart(|rs|, start)..PageEnd(|rs|, start, limit)]
  }

  /** count(table): the number of records of the table. */
  function Count(repo: Repository.Repository): (r: nat)
    reads repo
    ensures r == repo.Count() == |repo.container|
  {
    repo.Count()
  }

  /** load(table, start, limit): '0' followed by the values of the records
    * of the page, in iteration order. */
  method Load(repo: Repository.Repository, start: nat, limit: nat) returns (out: Bytes)
    ensures out == [Zero] + Values(Page(repo.container, start, limit))
  {
    var es := repo.container;
    var scanCount := 0;
    var loadCount := 0;
    out := [Zero];
    var i := 0;
    while i < |es|
      invariant 0 <= i <= |es|
      invariant scanCount == Min(i, start)
      invariant loadCount == |Page(es[..i], start, limit)|
      invariant out == [Zero] + Values(Page(es[..i], start, limit))
    {
      ghost var page := Page(es[..i], start, limit);
      PageStep(es, start, limit, i);
      if scanCount < start {
        scanCount := scanCount + 1;
        assert Page(es[..i + 1], start, limit) == page;
      } else if loadCount <= limit {
        ValuesSnoc(page, es[i]);
        assert [Zero] + Values(page) + es[i].value == [Zero] + (Values(page) + es[i].value);
        out := out + es[i].value;
        loadCount := loadCount + 1;
        assert Page(es[..i + 1], start, limit) == page + [es[i]];
        assert out == [Zero] + Values(Page(es[..i + 1], start, limit));
      } else {
        assert Page(es[..i + 1], start, limit) == page;
      }
      i := i + 1;
    }
    assert es[..i] == es;
  }

  /** load(table) with its defaults start = 0 and limit = 100: '0' followed
    * by the values of the first 101 records, or of all when there are fewer. */
  method LoadDefault(repo: Repository.Repository) returns (out: Bytes)
    ensures out == [Zero] + Values(Page(repo.container, 0, 100))
    ensures Page(repo.container, 0, 100) == repo.container[..Min(|repo.container|, 101)]
  {
    out := Load(repo, 0, 100);
  }

  /** Extending the scanned prefix by one record adds it to the page exactly
    * when it is past the skipped records and the page is not full. */
  lemma PageStep(es: seq<Repository.Record>, start: nat, limit: nat, i: nat)
    requires i < |es|
    ensures Page(es[..i + 1], start, limit) ==
              Page(es[..i], start, limit)
              + (if start <= i && |Page(es[..i], start, limit)| <= limit then [es[i]] else [])
  {
    var p := es[..i];
    var q := es[..i + 1];
    assert q == p + [es[i]];
    if start <= i && |Page(p, start, limit)| <= limit {
      assert Page(q, start, limit) == Page(p, start, limit) + [es[i]];
    }
  }

  /** The first `start` records are never emitted, and the output is the
    * values of at most limit + 1 records. */
  lemma LoadEmitsPage(rs: seq<Repository.Record>, start: nat, limit: nat)
    ensures var p := Page(rs, start, limit);
            |p| <= limit + 1
            && (start < |rs| ==> |p| == Min(|rs| - start, limit + 1) && p == rs[start..start + |p|])
            && (start >= |rs| ==> Values(p) == [])
  {
  }

  /** Consecutive pages compose: the page of limit + 1 records at start
    * followed by the next page is one larger page. */
  lemma PagesCompose(rs: seq<Repository.Record>, start: nat, limit: nat, limit2: nat)
    ensures Values(Page(rs, start, limit)) + Values(Page(rs, start + limit + 1, limit2))
            == Values(Page(rs, start, limit + limit2 + 1))
  {
    var a := Page(rs, start, limit);
    var b := Page(rs, start + limit + 1, limit2);
    if start + limit + 1 < |rs| {
      assert a + b == Page(rs, start, limit + limit2 + 1);
    } else {
      assert b == [];
      assert a == Page(rs, start, limit + limit2 + 1);
    }
    ValuesAppend(a, b);
  }

  /** The output depends on the values only: tables whose records have the
    * same values in the same order load the same bytes. */
  lemma {:induction false} ValuesIgnoreKeys(a: seq<Repository.Record>, b: seq<Repository.Record>)
    requires |a| == |b| && forall i :: 0 <= i < |a| ==> a[i].value == b[i].value
    ensures Values(a) == Values(b)
    decreases |a|
  {
    if |a| > 0 {
      ValuesIgnoreKeys(a[..|a| - 1], b[..|b| - 1]);
    }
  }
}
