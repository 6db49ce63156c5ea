/** The operation engine of js/src/index.ts: the operation datatype and `applyRemoteOp`,
    split into one function per action, with the frame every action keeps. */
module Engine {
  import opened Wrappers
  import opened Versions
  import opened Sorting
  import opened Frontier
  import opened Store
  import opened Merge

  datatype Action =
    | MapSet(key: string, localParents: seq<Version>, val: CreateValue)  // the `map` action
    | RegisterSet(localParents: seq<Version>, val: CreateValue)
    | SetInsert(val: CreateValue)
    | SetDelete(target: Version)

  datatype Operation = Operation(id: Version, globalParents: seq<Version>, crdtId: Version, action: Action)

  /** The action may be applied to a CRDT of this type. */
  predicate Fits(action: Action, info: CRDTInfo)
  {
    match action
    case MapSet(_, _, _) => info.MapCrdt?
    case RegisterSet(_, _) => info.RegisterCrdt?
    case SetInsert(_) => info.SetCrdt?
    case SetDelete(_) => info.SetCrdt?
  }

  /** The pairs stored under `key`, or none. */
  function RegisterAt(regs: map<string, MVRegister>, key: string): (r: MVRegister)
    ensures key in regs ==> r == regs[key]
    ensures key !in regs ==> r == []
  {
    if key in regs then regs[key] else []
  }

  /** The versions of a register's pairs: what a local write supersedes. */
  function PairVersions(ps: MVRegister): (r: seq<Version>)
    ensures |r| == |ps| && forall i | 0 <= i < |ps| :: r[i] == ps[i].version
    ensures forall p | p in ps :: p.version in r
    ensures forall v | v in r :: exists p | p in ps :: p.version == v
  {
    var r := seq(|ps|, i requires 0 <= i < |ps| => ps[i].version);
    assert forall p | p in ps :: p.version == r[IndexOf(ps, p)];
    r
  }

  lemma {:induction false} ReachesRankBound(c: Crdts, rank: map<Version, nat>, a: Version, b: Version)
    requires Ranked(c, rank) && Reaches(c, rank, a, b)
    ensures b in c && rank[b] <= rank[a]
    decreases rank[a]
  {
    if a != b {
      var x :| x in ChildIds(c[a]) && x in c && Reaches(c, rank, x, b);
      ReachesRankBound(c, rank, x, b);
    }
  }

  /** A CRDT never lies in the subtree of a value it holds itself. */
  lemma OwnValueDoesNotOwnHolder(c: Crdts, rank: map<Version, nat>, id: Version, v: RegisterValue)
    requires Ranked(c, rank) && id in c
    requires v.Ref? ==> v.id in ChildIds(c[id])
    ensures !Owned(c, rank, v, id)
  {
    if Owned(c, rank, v, id) {
      ReachesRankBound(c, rank, v.id, id);
    }
  }

  lemma HolderSurvivesMerge(c: Crdts, rank: map<Version, nat>, id: Version, prior: MVRegister, lp: seq<Version>)
    requires Ranked(c, rank) && id in c
    requires RegisterRefs(prior) <= ChildIds(c[id])
    ensures !RetiredBy(c, rank, prior, lp, id)
  {
    forall p | p in prior && p.version in lp
      ensures !Owned(c, rank, p.value, id)
    {
      var i := IndexOf(prior, p);
      assert p.value.Ref? ==> p.value.id in RegisterRefs(prior);
      OwnValueDoesNotOwnHolder(c, rank, id, p.value);
    }
  }

  lemma MapUpdateRefs(regs: map<string, MVRegister>, key: string, pairs: MVRegister)
    ensures ChildIds(MapCrdt(regs[key := pairs])) <= ChildIds(MapCrdt(regs)) + RegisterRefs(pairs)
  {
  }

  lemma MapRegisterRefsAreChildren(regs: map<string, MVRegister>, key: string)
    ensures RegisterRefs(RegisterAt(regs, key)) <= ChildIds(MapCrdt(regs))
  {
  }

  /** The kind of CRDT an action creates under the operation's id, if any. */
  function Created(action: Action): Option<Kind>
  {
    match action
    case MapSet(_, _, val) => if val.NewCrdt? then Some(val.kind) else None
    case RegisterSet(_, val) => if val.NewCrdt? then Some(val.kind) else None
    case SetInsert(val) => if val.NewCrdt? then Some(val.kind) else None
    case SetDelete(_) => None
  }

  /** What one operation may do to the store: the target survives and gains at most a
      reference to the CRDT created under `opId`; that CRDT is empty; every other
      surviving entry is untouched. */
  ghost predicate Evolves(c: Crdts, r: Crdts, id: Version, opId: Version, created: Option<Kind>)
  {
    && id in c && id in r
    && (created.Some? ==> opId != id && opId in r && r[opId] == EmptyCrdt(created.value))
    && ChildIds(r[id]) <= ChildIds(c[id]) + (if created.Some? then {opId} else {})
    && forall t | t in r && t != id && !(created.Some? && t == opId) :: t in c && r[t] == c[t]
  }

  lemma MergePairsRefs(prior: MVRegister, lp: seq<Version>, np: Pair)
    ensures RegisterRefs(MergePairs(prior, lp, np)) <= RegisterRefs(prior) + (if np.value.Ref? then {np.value.id} else {})
  {
    var r := MergePairs(prior, lp, np);
    forall i | 0 <= i < |r| && r[i].value.Ref?
      ensures r[i].value.id in RegisterRefs(prior) + (if np.value.Ref? then {np.value.id} else {})
    {
      assert r[i] in r;
      if r[i] != np {
        var j := IndexOf(prior, r[i]);
      }
    }
  }

  /** Replacing the holder's entry after a merge keeps to what `Evolves` allows, as long
      as the new entry refers only to old children and the created CRDT. */
  lemma MergeRegisterEvolves(c: Crdts, rank: map<Version, nat>, id: Version, prior: MVRegister, lp: seq<Version>,
                             opId: Version, val: CreateValue, info: CRDTInfo)
    requires Ranked(c, rank) && id in c
    requires !RetiredBy(c, rank, prior, lp, id)
    requires MergeRegister(c, prior, lp, opId, val, rank).Ok?
    requires ChildIds(info) <= ChildIds(c[id]) + (if val.NewCrdt? then {opId} else {})
    ensures Evolves(c, MergeRegister(c, prior, lp, opId, val, rank).value.0[id := info], id, opId,
                    if val.NewCrdt? then Some(val.kind) else None)
  {
  }

  /** After a merge the holder's entry is replaced; every other CRDT survives exactly
      when no superseded pair owns it, and the requested CRDT is added. */
  lemma MergeRegisterSurvivors(c: Crdts, rank: map<Version, nat>, id: Version, prior: MVRegister, lp: seq<Version>,
                               opId: Version, val: CreateValue, info: CRDTInfo)
    requires Ranked(c, rank)
    requires MergeRegister(c, prior, lp, opId, val, rank).Ok?
    ensures var r := MergeRegister(c, prior, lp, opId, val, rank).value.0[id := info];
            forall t | t != id :: t in r <==> (t in c && !RetiredBy(c, rank, prior, lp, t)) || (val.NewCrdt? && t == opId)
  {
  }

  /** The target's new contents after a fitting action. */
  function TargetAfter(info: CRDTInfo, op: Operation): (r: CRDTInfo)
    requires Fits(op.action, info)
    ensures KindOf(r) == KindOf(info)
  {
    match op.action
    case RegisterSet(lp, val) => RegisterCrdt(MergePairs(info.pairs, lp, Pair(op.id, NewValue(op.id, val))))
    case MapSet(key, lp, val) =>
      MapCrdt(info.registers[key := MergePairs(RegisterAt(info.registers, key), lp, Pair(op.id, NewValue(op.id, val)))])
    case SetInsert(val) => SetCrdt(info.values[op.id := NewValue(op.id, val)])
    case SetDelete(target) => SetCrdt(info.values - {target})
  }

  /** `t` is retired by applying `op` to its target: it lies in the subtree of a pair the
      write supersedes, or of the set entry the delete drops. */
  ghost predicate Retires(c: Crdts, rank: map<Version, nat>, op: Operation, t: Version)
    requires Ranked(c, rank) && op.crdtId in c
  {
    var info := c[op.crdtId];
    match op.action
    case RegisterSet(lp, _) => info.RegisterCrdt? && RetiredBy(c, rank, info.pairs, lp, t)
    case MapSet(key, lp, _) => info.MapCrdt? && RetiredBy(c, rank, RegisterAt(info.registers, key), lp, t)
    case SetInsert(_) => false
    case SetDelete(target) => info.SetCrdt? && target in info.values && Owned(c, rank, info.values[target], t)
  }

  /** The `register` case: merge the write into the register's pairs. */
  function ApplyRegisterSet(c: Crdts, id: Version, opId: Version, lp: seq<Version>, val: CreateValue,
                            ghost rank: map<Version, nat>): (r: Result<Crdts>)
    requires Ranked(c, rank) && id in c && c[id].RegisterCrdt?
    ensures r.Err? <==> val.NewCrdt? && opId in c && !RetiredBy(c, rank, c[id].pairs, lp, opId)
    ensures r.Err? ==> r.error == CRDTAlreadyExists
    ensures r.Ok? ==> id in r.value
    ensures r.Ok? ==> r.value[id] == RegisterCrdt(MergePairs(c[id].pairs, lp, Pair(opId, NewValue(opId, val))))
    ensures r.Ok? ==> forall t | t != id ::
              t in r.value <==> (t in c && !RetiredBy(c, rank, c[id].pairs, lp, t)) || (val.NewCrdt? && t == opId)
    ensures r.Ok? ==> Evolves(c, r.value, id, opId, Created(RegisterSet(lp, val)))
  {
    var prior := c[id].pairs;
    HolderSurvivesMerge(c, rank, id, prior, lp);
    MergePairsRefs(prior, lp, Pair(opId, NewValue(opId, val)));
    match MergeRegister(c, prior, lp, opId, val, rank)
    case Err(e) => Err(e)
    case Ok((c2, pairs)) =>
      MergeRegisterEvolves(c, rank, id, prior, lp, opId, val, RegisterCrdt(pairs));
      MergeRegisterSurvivors(c, rank, id, prior, lp, opId, val, RegisterCrdt(pairs));
      Ok(c2[id := RegisterCrdt(pairs)])
  }

  /** The `map` case: merge the write into the pairs under one key. */
  function ApplyMapSet(c: Crdts, id: Version, opId: Version, key: string, lp: seq<Version>, val: CreateValue,
                       ghost rank: map<Version, nat>): (r: Result<Crdts>)
    requires Ranked(c, rank) && id in c && c[id].MapCrdt?
    ensures r.Err? <==> val.NewCrdt? && opId in c && !RetiredBy(c, rank, RegisterAt(c[id].registers, key), lp, opId)
    ensures r.Err? ==> r.error == CRDTAlreadyExists
    ensures r.Ok? ==> id in r.value
    ensures r.Ok? ==>
              var regs := c[id].registers;
              var pairs := MergePairs(RegisterAt(regs, key), lp, Pair(opId, NewValue(opId, val)));
              r.value[id] == MapCrdt(regs[key := pairs])
    ensures r.Ok? ==> forall t | t != id ::
              t in r.value <==> (t in c && !RetiredBy(c, rank, RegisterAt(c[id].registers, key), lp, t))
                                || (val.NewCrdt? && t == opId)
    ensures r.Ok? ==> Evolves(c, r.value, id, opId, Created(MapSet(key, lp, val)))
  {
    var prior := RegisterAt(c[id].registers, key);
    MergePairsRefs(prior, lp, Pair(opId, NewValue(opId, val)));
    MapUpdateRefs(c[id].registers, key, MergePairs(prior, lp, Pair(opId, NewValue(opId, val))));
    MapRegisterRefsAreChildren(c[id].registers, key);
    HolderSurvivesMerge(c, rank, id, prior, lp);
    match MergeRegister(c, prior, lp, opId, val, rank)
    case Err(e) => Err(e)
    case Ok((c2, pairs)) =>
      MergeRegisterSurvivors(c, rank, id, prior, lp, opId, val, MapCrdt(c[id].registers[key := pairs]));
      Ok(c2[id := MapCrdt(c[id].registers[key := pairs])])
  }

  /** The `setInsert` case: the value is stored under the operation's own id. */
  function ApplySetInsert(c: Crdts, id: Version, opId: Version, val: CreateValue): (r: Result<Crdts>)
    requires id in c && c[id].SetCrdt?
    ensures r.Err? <==> val.NewCrdt? && opId in c
    ensures r.Err? ==> r.error == CRDTAlreadyExists
    ensures r.Ok? ==> r.value.Keys == c.Keys + (if val.NewCrdt? then {opId} else {})
    ensures r.Ok? ==> r.value[id] == SetCrdt(c[id].values[opId := NewValue(opId, val)])
    ensures r.Ok? ==> forall t | t in c && t != id :: r.value[t] == c[t]
    ensures r.Ok? ==> Evolves(c, r.value, id, opId, Created(SetInsert(val)))
  {
    match val
    case NewPrimitive(p) => Ok(c[id := SetCrdt(c[id].values[opId := Prim(p)])])
    case NewCrdt(kind) =>
      match CreateCRDT(c, opId, kind)
      case Err(e) => Err(e)
      case Ok(c2) => Ok(c2[id := SetCrdt(c[id].values[opId := Ref(opId)])])
  }

  /** The `setDelete` case: drop the entry and retire its value; an absent entry is a no-op. */
  function ApplySetDelete(c: Crdts, id: Version, target: Version, ghost rank: map<Version, nat>): (r: Crdts)
    requires Ranked(c, rank) && id in c && c[id].SetCrdt?
    ensures id in r && r[id] == SetCrdt(c[id].values - {target})
    ensures target !in c[id].values ==> r == c
    ensures target in c[id].values ==> forall t | t != id ::
              t in r <==> t in c && !Owned(c, rank, c[id].values[target], t)
    ensures forall t | t in r && t != id :: t in c && r[t] == c[t]
    ensures Evolves(c, r, id, target, None)
  {
    var vals := c[id].values;
    if target in vals then
      OwnValueDoesNotOwnHolder(c, rank, id, vals[target]);
      var c1 := RemoveRecursive(c, vals[target], rank);
      c1[id := SetCrdt(vals - {target})]
    else c
  }

  /** Applies the action to its (present) target CRDT. */
  function ApplyToTarget(c: Crdts, op: Operation, ghost rank: map<Version, nat>): (r: Result<Crdts>)
    requires Ranked(c, rank) && op.crdtId in c
    ensures r.Err? ==> r.error == InvalidActionForTarget || r.error == CRDTAlreadyExists
    ensures r.Err? && r.error == InvalidActionForTarget <==> !Fits(op.action, c[op.crdtId])
    ensures r.Ok? ==> op.crdtId in r.value && KindOf(r.value[op.crdtId]) == KindOf(c[op.crdtId])
    ensures r.Ok? ==> Evolves(c, r.value, op.crdtId, op.id, Created(op.action))
    ensures r.Ok? ==> forall t | t != op.crdtId ::
              t in r.value <==> (t in c && !Retires(c, rank, op, t)) || (Created(op.action).Some? && t == op.id)
    ensures Fits(op.action, c[op.crdtId]) ==>
              (r.Err? <==> Created(op.action).Some? && op.id in c && !Retires(c, rank, op, op.id))
    ensures r.Ok? ==> Fits(op.action, c[op.crdtId]) && r.value[op.crdtId] == TargetAfter(c[op.crdtId], op)
  {
    if !Fits(op.action, c[op.crdtId]) then Err(InvalidActionForTarget)
    else
      match op.action
      case RegisterSet(lp, val) => ApplyRegisterSet(c, op.crdtId, op.id, lp, val, rank)
      case MapSet(key, lp, val) => ApplyMapSet(c, op.crdtId, op.id, key, lp, val, rank)
      case SetInsert(val) => ApplySetInsert(c, op.crdtId, op.id, val)
      case SetDelete(target) => Ok(ApplySetDelete(c, op.crdtId, target, rank))
  }

  /** Applies one operation, local or remote. The frontier advances first, even when
      the target CRDT is gone; a missing target is then skipped without error. */
  function ApplyRemoteOp(db: DBState, op: Operation, ghost rank: map<Version, nat>): (r: Result<DBState>)
    requires Ranked(db.crdts, rank)
    ensures r.Ok? ==> r.value.version == AdvanceFrontier(db.version, op.id, op.globalParents)
    ensures op.crdtId !in db.crdts ==> r == Ok(DBState(AdvanceFrontier(db.version, op.id, op.globalParents), db.crdts))
    ensures op.crdtId in db.crdts ==> r.Ok? == ApplyToTarget(db.crdts, op, rank).Ok?
    ensures op.crdtId in db.crdts && r.Err? ==> r.error == ApplyToTarget(db.crdts, op, rank).error
    ensures op.crdtId in db.crdts && r.Ok? ==> r.value.crdts == ApplyToTarget(db.crdts, op, rank).value
  {
    var version := AdvanceFrontier(db.version, op.id, op.globalParents);
    if op.crdtId !in db.crdts then Ok(DBState(version, db.crdts))
    else
      match ApplyToTarget(db.crdts, op, rank)
      case Err(e) => Err(e)
      case Ok(c) => Ok(DBState(version, c))
  }

  /** A delete aimed at a set never fails: it advances the frontier and retires the entry. */
  lemma ApplySetDeleteOk(db: DBState, op: Operation, rank: map<Version, nat>)
    requires Ranked(db.crdts, rank) && op.action.SetDelete?
    requires op.crdtId in db.crdts && db.crdts[op.crdtId].SetCrdt?
    ensures ApplyRemoteOp(db, op, rank)
            == Ok(DBState(AdvanceFrontier(db.version, op.id, op.globalParents),
                          ApplySetDelete(db.crdts, op.crdtId, op.action.target, rank)))
  {
  }

  /** An insert aimed at a set advances the frontier and adds the entry, unless the
      CRDT it would create already exists. */
  lemma ApplySetInsertOp(db: DBState, op: Operation, rank: map<Version, nat>)
    requires Ranked(db.crdts, rank) && op.action.SetInsert?
    requires op.crdtId in db.crdts && db.crdts[op.crdtId].SetCrdt?
    ensures ApplyRemoteOp(db, op, rank)
            == match ApplySetInsert(db.crdts, op.crdtId, op.id, op.action.val)
               case Err(e) => Err(e)
               case Ok(c) => Ok(DBState(AdvanceFrontier(db.version, op.id, op.globalParents), c))
  {
  }
}
