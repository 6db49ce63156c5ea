/** The CRDT store of js/src/index.ts: the value types, store creation, `createCRDT`,
    and recursive retirement of owned CRDTs (`removeRecursive`). */
module Store {
  import opened Wrappers
  import opened Versions
  import opened Sorting

  /** A JSON-like payload. The store never looks inside one. */
  datatype Primitive =
    | Null
    | Bool(b: bool)
    | Str(s: string)
    | Num(n: int)
    | Arr(items: seq<Primitive>)
    | Obj(fields: map<string, Primitive>)

  datatype Kind = MapKind | SetKind | RegisterKind

  /** What a write stores: a primitive, or a request for a fresh nested CRDT. */
  datatype CreateValue = NewPrimitive(val: Primitive) | NewCrdt(kind: Kind)

  /** What a register slot holds: a primitive, or a reference to a nested CRDT. */
  datatype RegisterValue = Prim(val: Primitive) | Ref(id: Version)

  datatype Pair = Pair(version: Version, value: RegisterValue)

  /** The concurrently surviving writes of one slot; index 0 is the active one. */
  type MVRegister = seq<Pair>

  datatype CRDTInfo =
    | MapCrdt(registers: map<string, MVRegister>)
    | SetCrdt(values: map<Version, RegisterValue>)
    | RegisterCrdt(pairs: MVRegister)

  type Crdts = map<Version, CRDTInfo>

  /** The document: its frontier and its CRDTs. */
  datatype DBState = DBState(version: seq<Version>, crdts: Crdts)

  /** Register pairs are sorted by their version. */
  function PairVersion(p: Pair): Version
  {
    p.version
  }

  function KindOf(info: CRDTInfo): Kind
  {
    match info
    case MapCrdt(_) => MapKind
    case SetCrdt(_) => SetKind
    case RegisterCrdt(_) => RegisterKind
  }

  /** A new CRDT of the given kind: an empty map, an empty set or a register with no pairs. */
  function EmptyCrdt(kind: Kind): (info: CRDTInfo)
    ensures KindOf(info) == kind
    ensures ChildIds(info) == {}
  {
    match kind
    case MapKind => MapCrdt(map[])
    case SetKind => SetCrdt(map[])
    case RegisterKind => RegisterCrdt([])
  }

  /** A fresh document: an empty frontier and one CRDT, an empty map at `ROOT`. */
  function CreateDb(): (db: DBState)
    ensures db.version == []
    ensures db.crdts.Keys == {ROOT}
    ensures db.crdts[ROOT] == EmptyCrdt(MapKind)
    ensures Ranked(db.crdts, map[ROOT := 0])
  {
    DBState([], map[ROOT := MapCrdt(map[])])
  }

  /** Adds an empty CRDT under `id`; an identifier already in use is an error. */
  function CreateCRDT(crdts: Crdts, id: Version, kind: Kind): (r: Result<Crdts>)
    ensures r.Err? <==> id in crdts
    ensures r.Err? ==> r.error == CRDTAlreadyExists
    ensures r.Ok? ==> r.value.Keys == crdts.Keys + {id}
    ensures r.Ok? ==> r.value[id] == EmptyCrdt(kind)
    ensures r.Ok? ==> forall k | k in crdts :: r.value[k] == crdts[k]
  {
    if id in crdts then Err(CRDTAlreadyExists)
    else Ok(crdts[id := EmptyCrdt(kind)])
  }

  // ---------------------------------------------------------------------------
  // Ownership

  /** The CRDTs referenced by a register's pairs. */
  function RegisterRefs(ps: MVRegister): set<Version>
  {
    set i | 0 <= i < |ps| && ps[i].value.Ref? :: ps[i].value.id
  }

  /** Where an element first sits in a sequence. */
  function IndexOf<T(==)>(s: seq<T>, x: T): (i: nat)
    requires x in s
    ensures i < |s| && s[i] == x
  {
    if s[0] == x then 0 else 1 + IndexOf(s[1..], x)
  }

  /** The CRDTs a CRDT owns directly: every reference held by a map register,
      a set entry or the register itself. */
  function ChildIds(info: CRDTInfo): set<Version>
  {
    match info
    case MapCrdt(regs) => set k, id | k in regs && id in RegisterRefs(regs[k]) :: id
    case SetCrdt(vals) => set t | t in vals && vals[t].Ref? :: vals[t].id
    case RegisterCrdt(ps) => RegisterRefs(ps)
  }

  /** Every entry of `small` is an unchanged entry of `big`. */
  ghost predicate Submap(small: Crdts, big: Crdts)
  {
    forall id | id in small :: id in big && small[id] == big[id]
  }

  /** `rank` witnesses that ownership is acyclic: an owned CRDT ranks below its owner. */
  ghost predicate Ranked(c: Crdts, rank: map<Version, nat>)
  {
    && c.Keys <= rank.Keys
    && forall p, x | p in c && x in c && x in ChildIds(c[p]) :: rank[x] < rank[p]
  }

  /** `to` is `from` or lies in the subtree `from` owns. */
  ghost predicate Reaches(c: Crdts, rank: map<Version, nat>, from: Version, to: Version)
    requires Ranked(c, rank)
    decreases if from in c then rank[from] else 0
  {
    && from in c
    && (from == to || exists x | x in ChildIds(c[from]) && x in c :: Reaches(c, rank, x, to))
  }

  /** `t` is retired when the value `v` is retired. */
  ghost predicate Owned(c: Crdts, rank: map<Version, nat>, v: RegisterValue, t: Version)
    requires Ranked(c, rank)
  {
    v.Ref? && Reaches(c, rank, v.id, t)
  }

  /** `t` is retired when the values `vs` are retired. */
  ghost predicate OwnedByAny(c: Crdts, rank: map<Version, nat>, vs: seq<RegisterValue>, t: Version)
    requires Ranked(c, rank)
  {
    exists i | 0 <= i < |vs| :: Owned(c, rank, vs[i], t)
  }

  lemma {:induction false} ReachesTransitive(c: Crdts, rank: map<Version, nat>, a: Version, b: Version, t: Version)
    requires Ranked(c, rank)
    requires Reaches(c, rank, a, b) && Reaches(c, rank, b, t)
    ensures Reaches(c, rank, a, t)
    decreases rank[a]
  {
    if a != b {
      var x :| x in ChildIds(c[a]) && x in c && Reaches(c, rank, x, b);
      ReachesTransitive(c, rank, x, b, t);
    }
  }

  /** Once a set of CRDTs closed under ownership is removed, what remains reachable
      from any CRDT is exactly what was reachable before and was not removed. */
  lemma {:induction false} ReachesAfterRemoval(c: Crdts, c1: Crdts, rank: map<Version, nat>, y: Version, t: Version)
    requires Ranked(c, rank) && Submap(c1, c)
    requires forall d, u | d in c && d !in c1 && Reaches(c, rank, d, u) :: u !in c1
    ensures Ranked(c1, rank)
    ensures Reaches(c1, rank, y, t) <==> Reaches(c, rank, y, t) && t in c1
    decreases if y in c then rank[y] else 0
  {
    assert Ranked(c1, rank) by {
      forall p, x | p in c1 && x in c1 && x in ChildIds(c1[p]) ensures rank[x] < rank[p] {
        assert c1[p] == c[p];
      }
    }
    if y in c1 {
      assert c1[y] == c[y];
      if y != t {
        if Reaches(c1, rank, y, t) {
          var x :| x in ChildIds(c1[y]) && x in c1 && Reaches(c1, rank, x, t);
          ReachesAfterRemoval(c, c1, rank, x, t);
        }
        if Reaches(c, rank, y, t) && t in c1 {
          var x :| x in ChildIds(c[y]) && x in c && Reaches(c, rank, x, t);
          ReachesAfterRemoval(c, c1, rank, x, t);
        }
      }
    } else if y in c {
      assert Reaches(c, rank, y, y);
    }
  }

  // ---------------------------------------------------------------------------
  // Recursive retirement

  /** The owned CRDTs of `info`, as references, in ascending version order. */
  function Children(info: CRDTInfo): (r: seq<RegisterValue>)
    ensures forall v :: v in r <==> v.Ref? && v.id in ChildIds(info)
  {
    var ids := SortedIds(ChildIds(info));
    var r := seq(|ids|, i requires 0 <= i < |ids| => Ref(ids[i]));
    assert forall v: RegisterValue | v.Ref? && v.id in ChildIds(info) :: v == r[IndexOf(ids, v.id)];
    r
  }

  /** Termination measure: one more than the rank of the CRDT `v` names, if present. */
  ghost function Height(c: Crdts, v: RegisterValue, rank: map<Version, nat>): nat
    requires c.Keys <= rank.Keys
  {
    if v.Ref? && v.id in c then rank[v.id] + 1 else 0
  }

  ghost function MaxHeight(c: Crdts, vs: seq<RegisterValue>, rank: map<Version, nat>): (h: nat)
    requires c.Keys <= rank.Keys
  {
    if |vs| == 0 then 0
    else
      var h0 := Height(c, vs[0], rank);
      var h1 := MaxHeight(c, vs[1..], rank);
      if h0 < h1 then h1 else h0
  }

  lemma {:induction false} MaxHeightAtMost(c: Crdts, vs: seq<RegisterValue>, rank: map<Version, nat>, b: nat)
    requires c.Keys <= rank.Keys
    requires forall i | 0 <= i < |vs| :: Height(c, vs[i], rank) <= b
    ensures MaxHeight(c, vs, rank) <= b
  {
    if |vs| > 0 {
      MaxHeightAtMost(c, vs[1..], rank, b);
    }
  }

  lemma {:induction false} MaxHeightShrinks(c1: Crdts, c: Crdts, vs: seq<RegisterValue>, rank: map<Version, nat>)
    requires c.Keys <= rank.Keys && c1.Keys <= c.Keys
    ensures MaxHeight(c1, vs, rank) <= MaxHeight(c, vs, rank)
  {
    if |vs| > 0 {
      MaxHeightShrinks(c1, c, vs[1..], rank);
    }
  }

  /** Retires one value: a primitive or a reference to a missing CRDT changes nothing;
      otherwise every child is retired first and then the CRDT itself is deleted.
      Under acyclic ownership the result is the store minus the retired subtree. */
  function RemoveRecursive(c: Crdts, v: RegisterValue, ghost rank: map<Version, nat>): (r: Crdts)
    requires Ranked(c, rank)
    ensures Submap(r, c)
    ensures forall t :: t in r <==> t in c && !Owned(c, rank, v, t)
    decreases Height(c, v, rank), 0
  {
    if v.Prim? then c
    else if v.id !in c then c
    else
      var children := Children(c[v.id]);
      MaxHeightAtMost(c, children, rank, rank[v.id]);
      var c1 := RemoveEach(c, children, rank);
      RemoveRecursiveCorrect(c, v.id, children, c1, rank);
      c1 - {v.id}
  }

  lemma RemoveRecursiveCorrect(c: Crdts, id: Version, children: seq<RegisterValue>, c1: Crdts, rank: map<Version, nat>)
    requires Ranked(c, rank) && id in c
    requires forall v :: v in children <==> v.Ref? && v.id in ChildIds(c[id])
    requires forall t :: t in c1 <==> t in c && !OwnedByAny(c, rank, children, t)
    ensures forall t :: t in c1 - {id} <==> t in c && !Reaches(c, rank, id, t)
  {
    forall t | t in c && t != id
      ensures Reaches(c, rank, id, t) <==> OwnedByAny(c, rank, children, t)
    {
      ReachesThroughChildren(c, id, children, rank, t);
    }
  }

  /** A CRDT reaches `t` exactly when one of its children does. */
  lemma ReachesThroughChildren(c: Crdts, id: Version, children: seq<RegisterValue>, rank: map<Version, nat>, t: Version)
    requires Ranked(c, rank) && id in c && t != id
    requires forall v :: v in children <==> v.Ref? && v.id in ChildIds(c[id])
    ensures Reaches(c, rank, id, t) <==> OwnedByAny(c, rank, children, t)
  {
    if Reaches(c, rank, id, t) {
      var x :| x in ChildIds(c[id]) && x in c && Reaches(c, rank, x, t);
      assert Ref(x) in children;
      var i :| 0 <= i < |children| && children[i] == Ref(x);
      assert Owned(c, rank, children[i], t);
    }
    if OwnedByAny(c, rank, children, t) {
      var i :| 0 <= i < |children| && Owned(c, rank, children[i], t);
      assert children[i] in children;
    }
  }

  /** Retires the values one after another, in order. */
  function RemoveEach(c: Crdts, vs: seq<RegisterValue>, ghost rank: map<Version, nat>): (r: Crdts)
    requires Ranked(c, rank)
    ensures Submap(r, c)
    ensures forall t :: t in r <==> t in c && !OwnedByAny(c, rank, vs, t)
    decreases MaxHeight(c, vs, rank), 1, |vs|
  {
    if |vs| == 0 then c
    else
      var c1 := RemoveRecursive(c, vs[0], rank);
      MaxHeightShrinks(c1, c, vs[1..], rank);
      RemovalClosed(c, c1, vs[0], rank);
      var r := RemoveEach(c1, vs[1..], rank);
      RemoveEachStep(c, c1, r, vs, rank);
      r
  }

  /** The CRDTs one retirement removes are closed under ownership. */
  lemma RemovalClosed(c: Crdts, c1: Crdts, v: RegisterValue, rank: map<Version, nat>)
    requires Ranked(c, rank) && Submap(c1, c)
    requires forall t :: t in c1 <==> t in c && !Owned(c, rank, v, t)
    ensures Ranked(c1, rank)
    ensures forall d, u | d in c && d !in c1 && Reaches(c, rank, d, u) :: u !in c1
  {
    forall d, u | d in c && d !in c1 && Reaches(c, rank, d, u)
      ensures u !in c1
    {
      ReachesTransitive(c, rank, v.id, d, u);
    }
    var y :| true;
    ReachesAfterRemoval(c, c1, rank, y, y);
  }

  lemma RemoveEachStep(c: Crdts, c1: Crdts, r: Crdts, vs: seq<RegisterValue>, rank: map<Version, nat>)
    requires Ranked(c, rank) && Submap(c1, c) && |vs| > 0
    requires forall t :: t in c1 <==> t in c && !Owned(c, rank, vs[0], t)
    requires forall d, u | d in c && d !in c1 && Reaches(c, rank, d, u) :: u !in c1
    requires Ranked(c1, rank)
    requires forall t :: t in r <==> t in c1 && !OwnedByAny(c1, rank, vs[1..], t)
    ensures forall t :: t in r <==> t in c && !OwnedByAny(c, rank, vs, t)
  {
    forall t | t in c1
      ensures OwnedByAny(c1, rank, vs[1..], t) <==> OwnedByAny(c, rank, vs[1..], t)
    {
      OwnedByAnyAfterRemoval(c, c1, vs[1..], rank, t);
    }
    forall t ensures OwnedByAny(c, rank, vs, t) <==> Owned(c, rank, vs[0], t) || OwnedByAny(c, rank, vs[1..], t) {
      OwnedByAnyCons(c, rank, vs, t);
    }
  }

  lemma OwnedByAnyAfterRemoval(c: Crdts, c1: Crdts, vs: seq<RegisterValue>, rank: map<Version, nat>, t: Version)
    requires Ranked(c, rank) && Submap(c1, c) && Ranked(c1, rank) && t in c1
    requires forall d, u | d in c && d !in c1 && Reaches(c, rank, d, u) :: u !in c1
    ensures OwnedByAny(c1, rank, vs, t) <==> OwnedByAny(c, rank, vs, t)
  {
    if OwnedByAny(c1, rank, vs, t) {
      var i :| 0 <= i < |vs| && Owned(c1, rank, vs[i], t);
      ReachesAfterRemoval(c, c1, rank, vs[i].id, t);
    }
    if OwnedByAny(c, rank, vs, t) {
      var i :| 0 <= i < |vs| && Owned(c, rank, vs[i], t);
      ReachesAfterRemoval(c, c1, rank, vs[i].id, t);
    }
  }

  lemma OwnedByAnyCons(c: Crdts, rank: map<Version, nat>, vs: seq<RegisterValue>, t: Version)
    requires Ranked(c, rank) && |vs| > 0
    ensures OwnedByAny(c, rank, vs, t) <==> Owned(c, rank, vs[0], t) || OwnedByAny(c, rank, vs[1..], t)
  {
    var rest := vs[1..];
    if OwnedByAny(c, rank, vs, t) && !Owned(c, rank, vs[0], t) {
      var i :| 0 <= i < |vs| && Owned(c, rank, vs[i], t);
      assert rest[i - 1] == vs[i];
    }
    if OwnedByAny(c, rank, rest, t) {
      var i :| 0 <= i < |rest| && Owned(c, rank, rest[i], t);
      assert vs[i + 1] == rest[i];
    }
  }
}
