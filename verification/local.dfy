/** The local write constructors of js/src/index.ts: each checks the target, builds the
    operation a peer would receive, and applies it to the local document. */
module Local {
  import opened Wrappers
  import opened Versions
  import opened Sorting
  import opened Frontier
  import opened Store
  import opened Merge
  import opened Engine

  /** `id` names a CRDT of the given kind. */
  predicate IsKind(c: Crdts, id: Version, kind: Kind)
  {
    id in c && KindOf(c[id]) == kind
  }

  /** A local write names every pair it sees, so it leaves exactly its own pair. */
  lemma LocalWriteSupersedes(ps: MVRegister, np: Pair)
    ensures MergePairs(ps, PairVersions(ps), np) == [np]
  {
    var lp := PairVersions(ps);
    var r := MergePairs(ps, lp, np);
    forall p ensures multiset(r)[p] == multiset{np}[p] {
      if p != np && p.version !in lp {
        assert p !in ps;
      }
      if p == np && p.version !in lp {
        assert p !in ps;
      }
    }
    assert multiset(r) == multiset{np};
    assert |r| == |multiset(r)| == 1;
    assert r[0] in multiset(r);
  }

  /** `localRegisterSet`: write `val` to register `regId` under version `id`. */
  function LocalRegisterSet(db: DBState, id: Version, regId: Version, val: CreateValue,
                            ghost rank: map<Version, nat>): (r: Result<(DBState, Operation)>)
    requires Ranked(db.crdts, rank)
    ensures r == Err(InvalidTarget) <==> !IsKind(db.crdts, regId, RegisterKind)
    ensures IsKind(db.crdts, regId, RegisterKind) ==>
              var ps := db.crdts[regId].pairs;
              && (r.Ok? <==> ApplyRemoteOp(db, Operation(id, db.version, regId, RegisterSet(PairVersions(ps), val)), rank).Ok?)
              && (r.Err? <==> val.NewCrdt? && id in db.crdts && !RetiredBy(db.crdts, rank, ps, PairVersions(ps), id))
    ensures r.Err? ==> r.error == InvalidTarget || r.error == CRDTAlreadyExists
    ensures r.Ok? ==> var (db2, op) := r.value;
              && op.id == id && op.crdtId == regId && op.globalParents == db.version
              && op.action.RegisterSet? && op.action.val == val
              && op.action.localParents == PairVersions(db.crdts[regId].pairs)
              && (forall p | p in db.crdts[regId].pairs :: p.version in op.action.localParents)
              && ApplyRemoteOp(db, op, rank) == Ok(db2)
              && id in db2.version
              && db2.crdts[regId] == RegisterCrdt([Pair(id, NewValue(id, val))])
  {
    if !IsKind(db.crdts, regId, RegisterKind) then Err(InvalidTarget)
    else
      var ps := db.crdts[regId].pairs;
      var op := Operation(id, db.version, regId, RegisterSet(PairVersions(ps), val));
      LocalWriteSupersedes(ps, Pair(id, NewValue(id, val)));
      match ApplyRemoteOp(db, op, rank)
      case Err(e) => Err(e)
      case Ok(db2) => Ok((db2, op))
  }

  /** `localMapInsert`: write `val` under `key` of map `mapId` with version `id`. */
  function LocalMapInsert(db: DBState, id: Version, mapId: Version, key: string, val: CreateValue,
                          ghost rank: map<Version, nat>): (r: Result<(DBState, Operation)>)
    requires Ranked(db.crdts, rank)
    ensures r == Err(InvalidTarget) <==> !IsKind(db.crdts, mapId, MapKind)
    ensures IsKind(db.crdts, mapId, MapKind) ==>
              var ps := RegisterAt(db.crdts[mapId].registers, key);
              && (r.Ok? <==> ApplyRemoteOp(db, Operation(id, db.version, mapId, MapSet(key, PairVersions(ps), val)), rank).Ok?)
              && (r.Err? <==> val.NewCrdt? && id in db.crdts && !RetiredBy(db.crdts, rank, ps, PairVersions(ps), id))
    ensures r.Err? ==> r.error == InvalidTarget || r.error == CRDTAlreadyExists
    ensures r.Ok? ==> var (db2, op) := r.value;
              var regs := db.crdts[mapId].registers;
              && op.id == id && op.crdtId == mapId && op.globalParents == db.version
              && op.action.MapSet? && op.action.key == key && op.action.val == val
              && op.action.localParents == PairVersions(RegisterAt(regs, key))
              && (forall p | p in RegisterAt(regs, key) :: p.version in op.action.localParents)
              && ApplyRemoteOp(db, op, rank) == Ok(db2)
              && id in db2.version
              && db2.crdts[mapId] == MapCrdt(regs[key := [Pair(id, NewValue(id, val))]])
  {
    if !IsKind(db.crdts, mapId, MapKind) then Err(InvalidTarget)
    else
      var ps := RegisterAt(db.crdts[mapId].registers, key);
      var op := Operation(id, db.version, mapId, MapSet(key, PairVersions(ps), val));
      LocalWriteSupersedes(ps, Pair(id, NewValue(id, val)));
      match ApplyRemoteOp(db, op, rank)
      case Err(e) => Err(e)
      case Ok(db2) => Ok((db2, op))
  }

  /** `localSetInsert`: add `val` to set `setId` under the new entry `id`. */
  function LocalSetInsert(db: DBState, id: Version, setId: Version, val: CreateValue,
                          ghost rank: map<Version, nat>): (r: Result<(DBState, Operation)>)
    requires Ranked(db.crdts, rank)
    ensures r == Err(InvalidTarget) <==> !IsKind(db.crdts, setId, SetKind)
    ensures IsKind(db.crdts, setId, SetKind) ==>
              && (r.Ok? <==> ApplyRemoteOp(db, Operation(id, db.version, setId, SetInsert(val)), rank).Ok?)
              && (r.Err? <==> val.NewCrdt? && id in db.crdts)
    ensures r.Err? ==> r.error == InvalidTarget || r.error == CRDTAlreadyExists
    ensures r.Ok? ==> var (db2, op) := r.value;
              && op == Operation(id, db.version, setId, SetInsert(val))
              && ApplyRemoteOp(db, op, rank) == Ok(db2)
              && id in db2.version
              && db2.crdts[setId] == SetCrdt(db.crdts[setId].values[id := NewValue(id, val)])
  {
    if !IsKind(db.crdts, setId, SetKind) then Err(InvalidTarget)
    else
      var op := Operation(id, db.version, setId, SetInsert(val));
      ApplySetInsertOp(db, op, rank);
      match ApplyRemoteOp(db, op, rank)
      case Err(e) => Err(e)
      case Ok(db2) => Ok((db2, op))
  }

  /** `localSetDelete` as written: it retires the entry directly and never advances the
      frontier, so the deleting replica does not record its own operation. */
  function LocalSetDeleteAsWritten(db: DBState, id: Version, setId: Version, target: Version,
                                   ghost rank: map<Version, nat>): (r: Result<(DBState, Option<Operation>)>)
    requires Ranked(db.crdts, rank)
    ensures r.Err? <==> !IsKind(db.crdts, setId, SetKind)
    ensures r.Err? ==> r.error == InvalidTarget
    ensures r.Ok? && target !in db.crdts[setId].values ==> r.value == (db, None)
    ensures r.Ok? && target in db.crdts[setId].values ==> var (db2, op) := r.value;
              var sent := Operation(id, db.version, setId, SetDelete(target));
              && op == Some(sent)
              && db2.version == db.version
              && db2.crdts == ApplyRemoteOp(db, sent, rank).value.crdts
  {
    if !IsKind(db.crdts, setId, SetKind) then Err(InvalidTarget)
    else if target in db.crdts[setId].values then
      ApplySetDeleteOk(db, Operation(id, db.version, setId, SetDelete(target)), rank);
      var c := ApplySetDelete(db.crdts, setId, target, rank);
      Ok((DBState(db.version, c), Some(Operation(id, db.version, setId, SetDelete(target)))))
    else Ok((db, None))
  }

  /** The discrepancy: a replica that receives the delete records `id` in its frontier,
      the replica that made it does not. */
  lemma LocalSetDeleteMissesFrontier(db: DBState, id: Version, setId: Version, target: Version,
                                     rank: map<Version, nat>)
    requires Ranked(db.crdts, rank)
    requires IsKind(db.crdts, setId, SetKind) && target in db.crdts[setId].values
    requires id !in db.version
    ensures match LocalSetDeleteAsWritten(db, id, setId, target, rank)
            case Ok((local, Some(op))) =>
              && op == Operation(id, db.version, setId, SetDelete(target))
              && id !in local.version
              && (match ApplyRemoteOp(db, op, rank)
                  case Ok(remote) => id in remote.version && local != remote
                  case Err(_) => false)
            case _ => false
  {
    ApplySetDeleteOk(db, Operation(id, db.version, setId, SetDelete(target)), rank);
  }

  /** `localSetDelete` routed through `applyRemoteOp` like the other local writes, so
      the deleting replica ends in the same state as every replica that receives it. */
  function LocalSetDelete(db: DBState, id: Version, setId: Version, target: Version,
                          ghost rank: map<Version, nat>): (r: Result<(DBState, Option<Operation>)>)
    requires Ranked(db.crdts, rank)
    ensures r.Err? <==> !IsKind(db.crdts, setId, SetKind)
    ensures r.Err? ==> r.error == InvalidTarget
    ensures r.Ok? && target !in db.crdts[setId].values ==> r.value == (db, None)
    ensures r.Ok? && target in db.crdts[setId].values ==> var (db2, op) := r.value;
              && op == Some(Operation(id, db.version, setId, SetDelete(target)))
              && ApplyRemoteOp(db, op.value, rank) == Ok(db2)
              && id in db2.version
              && db2.crdts == LocalSetDeleteAsWritten(db, id, setId, target, rank).value.0.crdts
              && db2.crdts[setId] == SetCrdt(db.crdts[setId].values - {target})
  {
    if !IsKind(db.crdts, setId, SetKind) then Err(InvalidTarget)
    else if target in db.crdts[setId].values then
      var op := Operation(id, db.version, setId, SetDelete(target));
      ApplySetDeleteOk(db, op, rank);
      match ApplyRemoteOp(db, op, rank)
      case Err(e) => Err(e)
      case Ok(db2) => Ok((db2, Some(op)))
    else Ok((db, None))
  }
}
