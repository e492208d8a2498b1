/**
 * The catalog: a name-keyed cache of entity-set descriptions, together
 * with the metadata records it holds.
 */
module Catalog {
  /** How an index computes its keys: by script or by field. */
  datatype IndexCalcInfo = IndexCalcInfo(func: int, fieldIndex: string, data: string)

  /** One index of an entity set: its kind, its key type and how it is
    * computed. */
  datatype IndexInfo = IndexInfo(kind: int, keyType: int, calcInfo: IndexCalcInfo)

  /** An entity set: its name, its key type and its indexes by name. */
  datatype EsInfo = EsInfo(name: string, keyType: int, indexInfoes: map<string, IndexInfo>)

  /** The number of names of m after m[k := v]. */
  lemma {:induction false} UpdateCount<V>(m: map<string, V>, k: string, v: V)
    ensures |m[k := v].Keys| == |m.Keys| + (if k in m then 0 else 1)
  {
    assert m[k := v].Keys == m.Keys + {k};
    if k in m {
      assert m.Keys + {k} == m.Keys;
    } else {
      assert m.Keys !! {k};
    }
  }

  class Catalog {
    var esCache: map<string, EsInfo>

    /** put is the only writer of the cache, so every description is
      * cached under its own name. */
    ghost predicate Valid()
      reads this
    {
      forall n :: n in esCache ==> esCache[n].name == n
    }

    constructor ()
      ensures Valid()
      ensures esCache == map[]
      ensures EsCount() == 0
    {
      esCache := map[];
    }

    /** es_cache(): a copy of the whole name-to-description map. */
    function EsCache(): (r: map<string, EsInfo>)
      requires Valid()
      reads this
      ensures forall n :: n in r ==> r[n].name == n
      ensures |r| == EsCount()
    {
      esCache
    }

    /** es_count(): the number of names cached. */
    function EsCount(): (r: nat)
      reads this
      ensures r == 0 <==> esCache == map[]
    {
      |esCache|
    }

    /** put(info): stores info under its own name, replacing an earlier
      * entry with that name; the count grows by one only for a new name. */
    method Put(info: EsInfo)
      requires Valid()
      modifies this
      ensures Valid()
      ensures esCache == old(esCache)[info.name := info]
      ensures EsCache()[info.name] == info
      ensures forall n :: n != info.name && n in old(esCache) ==> n in esCache && esCache[n] == old(esCache)[n]
      ensures EsCount() == old(EsCount()) + (if info.name in old(esCache) then 0 else 1)
    {
      UpdateCount(esCache, info.name, info);
      esCache := esCache[info.name := info];
    }
  }

  /** Putting the same description twice is the same as putting it once. */
  lemma {:induction false} PutIdempotent(m: map<string, EsInfo>, info: EsInfo)
    ensures m[info.name := info][info.name := info] == m[info.name := info]
    ensures |m[info.name := info][info.name := info].Keys| == |m[info.name := info].Keys|
  {
    UpdateCount(m[info.name := info], info.name, info);
  }
}
