/** The multi-value register merge of js/src/index.ts (`mergeRegister`). */
module Merge {
  import opened Wrappers
  import opened Versions
  import opened Sorting
  import opened Store

  /** The register value a write stores: the primitive itself, or a reference to the
      CRDT created under the write's own version. */
  function NewValue(version: Version, val: CreateValue): (r: RegisterValue)
    ensures r.Ref? <==> val.NewCrdt?
    ensures r.Ref? ==> r.id == version
    ensures r.Prim? ==> r.val == val.val
  {
    match val
    case NewPrimitive(p) => Prim(p)
    case NewCrdt(_) => Ref(version)
  }

  /** The pure half of the merge: drop the pairs named in `localParents`, keep the rest,
      add the new pair and sort by version. */
  function MergePairs(prior: MVRegister, localParents: seq<Version>, newPair: Pair): (r: MVRegister)
    ensures SortedBy(r, PairVersion)
    ensures newPair in r
    ensures forall p :: p in r <==> p == newPair || (p in prior && p.version !in localParents)
    ensures forall p :: multiset(r)[p]
                        == (if p.version in localParents then 0 else multiset(prior)[p]) + (if p == newPair then 1 else 0)
  {
    var kept := Without(prior, PairVersion, localParents);
    var r := SortBy(kept + [newPair], PairVersion);
    assert multiset(r) == multiset(kept) + multiset{newPair};
    assert forall p :: p in r <==> p in multiset(r);
    r
  }

  /** The values of the pairs named in `localParents`, in register order. */
  function RetiredValues(prior: MVRegister, localParents: seq<Version>): seq<RegisterValue>
  {
    if |prior| == 0 then []
    else if NamedIn(prior[0].version, localParents) then [prior[0].value] + RetiredValues(prior[1..], localParents)
    else RetiredValues(prior[1..], localParents)
  }

  /** `t` belongs to the subtree owned by one of the pairs a write supersedes. */
  ghost predicate RetiredBy(c: Crdts, rank: map<Version, nat>, prior: MVRegister, localParents: seq<Version>, t: Version)
    requires Ranked(c, rank)
  {
    exists p | p in prior && p.version in localParents :: Owned(c, rank, p.value, t)
  }

  lemma {:induction false} RetiredValuesOwn(c: Crdts, rank: map<Version, nat>, prior: MVRegister, localParents: seq<Version>, t: Version)
    requires Ranked(c, rank)
    ensures OwnedByAny(c, rank, RetiredValues(prior, localParents), t) <==> RetiredBy(c, rank, prior, localParents, t)
  {
    if |prior| > 0 {
      var rest := prior[1..];
      RetiredValuesOwn(c, rank, rest, localParents, t);
      assert prior == [prior[0]] + rest;
      assert RetiredBy(c, rank, prior, localParents, t)
        <==> (prior[0].version in localParents && Owned(c, rank, prior[0].value, t))
             || RetiredBy(c, rank, rest, localParents, t);
      assert NamedIn(prior[0].version, localParents) <==> prior[0].version in localParents;
      if NamedIn(prior[0].version, localParents) {
        var vs := [prior[0].value] + RetiredValues(rest, localParents);
        OwnedByAnyCons(c, rank, vs, t);
        assert vs[1..] == RetiredValues(rest, localParents);
      }
    }
  }

  /** Merges a write into a register: retires (recursively) every pair named in
      `localParents`, creates the requested CRDT under `newVersion`, and returns the
      store together with the new pairs. */
  function MergeRegister(c: Crdts, prior: MVRegister, localParents: seq<Version>, newVersion: Version,
                         newVal: CreateValue, ghost rank: map<Version, nat>): (r: Result<(Crdts, MVRegister)>)
    requires Ranked(c, rank)
    ensures r.Err? <==> newVal.NewCrdt? && newVersion in c && !RetiredBy(c, rank, prior, localParents, newVersion)
    ensures r.Err? ==> r.error == CRDTAlreadyExists
    ensures r.Ok? ==> r.value.1 == MergePairs(prior, localParents, Pair(newVersion, NewValue(newVersion, newVal)))
    ensures r.Ok? ==> forall t :: t in r.value.0 <==>
                        (t in c && !RetiredBy(c, rank, prior, localParents, t)) || (newVal.NewCrdt? && t == newVersion)
    ensures r.Ok? ==> forall t | t in r.value.0 ::
                        r.value.0[t] == if newVal.NewCrdt? && t == newVersion then EmptyCrdt(newVal.kind) else c[t]
  {
    var c1 := RemoveEach(c, RetiredValues(prior, localParents), rank);
    assert forall t :: t in c1 <==> t in c && !RetiredBy(c, rank, prior, localParents, t) by {
      forall t ensures t in c1 <==> t in c && !RetiredBy(c, rank, prior, localParents, t) {
        RetiredValuesOwn(c, rank, prior, localParents, t);
      }
    }
    var merged := MergePairs(prior, localParents, Pair(newVersion, NewValue(newVersion, newVal)));
    match newVal
    case NewPrimitive(_) => Ok((c1, merged))
    case NewCrdt(kind) =>
      match CreateCRDT(c1, newVersion, kind)
      case Err(e) => Err(e)
      case Ok(c2) => Ok((c2, merged))
  }

  /** Two concurrent writes with distinct fresh versions, neither naming the other,
      leave the same pairs whichever is merged first. */
  lemma MergeConcurrentWrites(prior: MVRegister, lp1: seq<Version>, p1: Pair, lp2: seq<Version>, p2: Pair)
    requires KeyFaithful(prior, PairVersion)
    requires p1.version != p2.version
    requires forall q | q in prior :: q.version != p1.version && q.version != p2.version
    requires p1.version !in lp2 && p2.version !in lp1
    ensures MergePairs(MergePairs(prior, lp1, p1), lp2, p2) == MergePairs(MergePairs(prior, lp2, p2), lp1, p1)
  {
    MergeTwiceSamePairs(prior, lp1, p1, lp2, p2);
    MergeTwiceKeyFaithful(prior, lp1, p1, lp2, p2);
    SortedUniquePointwise(MergePairs(MergePairs(prior, lp1, p1), lp2, p2),
                 MergePairs(MergePairs(prior, lp2, p2), lp1, p1), PairVersion);
  }

  lemma MergeTwiceKeyFaithful(prior: MVRegister, lp1: seq<Version>, p1: Pair, lp2: seq<Version>, p2: Pair)
    requires KeyFaithful(prior, PairVersion)
    requires p1.version != p2.version
    requires forall q | q in prior :: q.version != p1.version && q.version != p2.version
    ensures KeyFaithful(MergePairs(MergePairs(prior, lp1, p1), lp2, p2), PairVersion)
  {
    var a := MergePairs(MergePairs(prior, lp1, p1), lp2, p2);
    forall x, y | x in a && y in a && x.version == y.version
      ensures x == y
    {
      MergeTwiceMember(prior, lp1, p1, lp2, p2, x);
      MergeTwiceMember(prior, lp1, p1, lp2, p2, y);
    }
  }

  lemma MergeTwiceMember(prior: MVRegister, lp1: seq<Version>, p1: Pair, lp2: seq<Version>, p2: Pair, x: Pair)
    requires x in MergePairs(MergePairs(prior, lp1, p1), lp2, p2)
    ensures x == p1 || x == p2 || x in prior
  {
  }

  lemma MergeTwiceSamePairs(prior: MVRegister, lp1: seq<Version>, p1: Pair, lp2: seq<Version>, p2: Pair)
    requires p1.version !in lp2 && p2.version !in lp1
    ensures forall p :: multiset(MergePairs(MergePairs(prior, lp1, p1), lp2, p2))[p]
                        == multiset(MergePairs(MergePairs(prior, lp2, p2), lp1, p1))[p]
  {
    MergeTwiceCounts(prior, lp1, p1, lp2, p2);
    MergeTwiceCounts(prior, lp2, p2, lp1, p1);
  }

  /** How often each pair occurs after two merges. */
  lemma MergeTwiceCounts(prior: MVRegister, lp1: seq<Version>, p1: Pair, lp2: seq<Version>, p2: Pair)
    requires p1.version !in lp2
    ensures forall p :: multiset(MergePairs(MergePairs(prior, lp1, p1), lp2, p2))[p]
                        == (if p.version in lp1 || p.version in lp2 then 0 else multiset(prior)[p])
                           + (if p == p1 then 1 else 0) + (if p == p2 then 1 else 0)
  {
    var a1 := MergePairs(prior, lp1, p1);
    var a := MergePairs(a1, lp2, p2);
    forall p: Pair
      ensures multiset(a)[p] == (if p.version in lp1 || p.version in lp2 then 0 else multiset(prior)[p])
                                + (if p == p1 then 1 else 0) + (if p == p2 then 1 else 0)
    {
      assert multiset(a1)[p] == (if p.version in lp1 then 0 else multiset(prior)[p]) + (if p == p1 then 1 else 0);
    }
  }
}
