/** The document frontier: the versions no known operation has superseded
    (js/src/index.ts, `advanceFrontier`). */
module Frontier {
  import opened Versions
  import opened Sorting

  /** Sorting a frontier orders versions by themselves. */
  function VersionKey(v: Version): Version
  {
    v
  }

  /** Drops every frontier element named in `parents`, appends `version` and sorts.
      A `version` already on the frontier is kept twice: nothing deduplicates. */
  function AdvanceFrontier(frontier: seq<Version>, version: Version, parents: seq<Version>): (r: seq<Version>)
    ensures SortedBy(r, VersionKey)
    ensures forall v :: multiset(r)[v]
                        == (if v in parents then 0 else multiset(frontier)[v]) + (if v == version then 1 else 0)
    ensures version in r
    ensures forall v | v in frontier && v !in parents :: v in r
    ensures forall v | v in r && v != version :: v in frontier && v !in parents
  {
    var kept := Without(frontier, VersionKey, parents);
    var r := SortBy(kept + [version], VersionKey);
    assert multiset(r) == multiset(kept) + multiset{version};
    assert forall v :: v in r <==> v in multiset(r);
    r
  }

  /** The result depends only on which versions the frontier holds, not their order. */
  lemma AdvanceFrontierCanonical(f1: seq<Version>, f2: seq<Version>, version: Version, parents: seq<Version>)
    requires multiset(f1) == multiset(f2)
    ensures AdvanceFrontier(f1, version, parents) == AdvanceFrontier(f2, version, parents)
  {
    var k1 := Without(f1, VersionKey, parents);
    var k2 := Without(f2, VersionKey, parents);
    KeptSameVersions(f1, f2, parents);
    assert multiset(k1 + [version]) == multiset(k2 + [version]);
    SortedVersionsUnique(SortBy(k1 + [version], VersionKey), SortBy(k2 + [version], VersionKey));
  }

  lemma KeptSameVersions(f1: seq<Version>, f2: seq<Version>, parents: seq<Version>)
    requires multiset(f1) == multiset(f2)
    ensures multiset(Without(f1, VersionKey, parents)) == multiset(Without(f2, VersionKey, parents))
  {
    var k1 := Without(f1, VersionKey, parents);
    var k2 := Without(f2, VersionKey, parents);
    forall v ensures multiset(k1)[v] == multiset(k2)[v] {
      assert multiset(f1)[v] == multiset(f2)[v];
    }
  }

  /** Two concurrent operations, neither naming the other as a parent, advance the
      frontier to the same list whichever is applied first. */
  lemma AdvanceFrontierCommutes(f: seq<Version>, v1: Version, p1: seq<Version>, v2: Version, p2: seq<Version>)
    requires v1 !in p2 && v2 !in p1
    ensures AdvanceFrontier(AdvanceFrontier(f, v1, p1), v2, p2)
         == AdvanceFrontier(AdvanceFrontier(f, v2, p2), v1, p1)
  {
    AdvanceTwiceSameVersions(f, v1, p1, v2, p2);
    SortedVersionsUnique(AdvanceFrontier(AdvanceFrontier(f, v1, p1), v2, p2),
                         AdvanceFrontier(AdvanceFrontier(f, v2, p2), v1, p1));
  }

  /** A sorted list of versions is fixed by how often each version occurs in it. */
  lemma SortedVersionsUnique(a: seq<Version>, b: seq<Version>)
    requires SortedBy(a, VersionKey) && SortedBy(b, VersionKey)
    requires multiset(a) == multiset(b)
    ensures a == b
  {
    SortedUnique(a, b, VersionKey);
  }

  lemma AdvanceTwiceSameVersions(f: seq<Version>, v1: Version, p1: seq<Version>, v2: Version, p2: seq<Version>)
    requires v1 !in p2 && v2 !in p1
    ensures multiset(AdvanceFrontier(AdvanceFrontier(f, v1, p1), v2, p2))
         == multiset(AdvanceFrontier(AdvanceFrontier(f, v2, p2), v1, p1))
  {
    AdvanceTwiceCounts(f, v1, p1, v2, p2);
    AdvanceTwiceCounts(f, v2, p2, v1, p1);
  }

  /** How often each version occurs after two advances. */
  lemma AdvanceTwiceCounts(f: seq<Version>, v1: Version, p1: seq<Version>, v2: Version, p2: seq<Version>)
    requires v1 !in p2
    ensures forall v :: multiset(AdvanceFrontier(AdvanceFrontier(f, v1, p1), v2, p2))[v]
                        == (if v in p1 || v in p2 then 0 else multiset(f)[v])
                           + (if v == v1 then 1 else 0) + (if v == v2 then 1 else 0)
  {
    var a1 := AdvanceFrontier(f, v1, p1);
    var a := AdvanceFrontier(a1, v2, p2);
    forall v
      ensures multiset(a)[v] == (if v in p1 || v in p2 then 0 else multiset(f)[v])
                                + (if v == v1 then 1 else 0) + (if v == v2 then 1 else 0)
    {
      assert multiset(a1)[v] == (if v in p1 then 0 else multiset(f)[v]) + (if v == v1 then 1 else 0);
    }
  }
}
