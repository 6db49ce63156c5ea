/** Properties of js/src/index.ts that span several operations: ownership stays acyclic
    under `applyRemoteOp`, and a repeated set delete changes nothing. */
module Invariants {
  import opened Wrappers
  import opened Versions
  import opened Frontier
  import opened Store
  import opened Merge
  import opened Engine

  /** The ranking after an operation: a newly created CRDT owns nothing and ranks
      lowest; everything else moves up by one. */
  ghost function NextRank(rank: map<Version, nat>, opId: Version, created: Option<Kind>): map<Version, nat>
  {
    if created.Some? then map t | t in rank.Keys + {opId} :: if t == opId then 0 else rank[t] + 1
    else rank
  }

  lemma {:induction false} EvolvesRanked(c: Crdts, r: Crdts, rank: map<Version, nat>, id: Version, opId: Version,
                                         created: Option<Kind>)
    requires Ranked(c, rank) && Evolves(c, r, id, opId, created)
    ensures Ranked(r, NextRank(rank, opId, created))
  {
    var next := NextRank(rank, opId, created);
    var creates := created.Some?;
    forall t | t in r ensures t in next {
      if !(creates && t == opId) {
        assert t in c;
      }
    }
    forall p, x | p in r && x in r && x in ChildIds(r[p]) ensures next[x] < next[p] {
      if creates && x == opId {
        assert p in c;
      } else {
        assert x in c;
        if p == id {
          assert x in ChildIds(c[id]);
        } else {
          assert p in c && r[p] == c[p];
        }
      }
    }
  }

  /** Every successful operation keeps ownership acyclic. */
  lemma ApplyRemoteOpRanked(db: DBState, op: Operation, rank: map<Version, nat>)
    requires Ranked(db.crdts, rank) && ApplyRemoteOp(db, op, rank).Ok?
    ensures Ranked(ApplyRemoteOp(db, op, rank).value.crdts,
                   if op.crdtId in db.crdts then NextRank(rank, op.id, Created(op.action)) else rank)
  {
    if op.crdtId in db.crdts {
      var r := ApplyToTarget(db.crdts, op, rank);
      EvolvesRanked(db.crdts, r.value, rank, op.crdtId, op.id, Created(op.action));
    }
  }

  /** Set deletes are idempotent on the store: delivering the same delete a second
      time leaves every CRDT as the first delivery left it. */
  lemma SetDeleteIdempotent(db: DBState, op: Operation, rank: map<Version, nat>)
    requires Ranked(db.crdts, rank) && op.action.SetDelete?
    requires ApplyRemoteOp(db, op, rank).Ok?
    ensures match ApplyRemoteOp(db, op, rank)
            case Ok(once) =>
              && Ranked(once.crdts, rank)
              && (match ApplyRemoteOp(once, op, rank)
                  case Ok(twice) => twice.crdts == once.crdts
                  case Err(_) => false)
            case Err(_) => false
  {
    var once := ApplyRemoteOp(db, op, rank).value;
    ApplyRemoteOpRanked(db, op, rank);
    if op.crdtId in db.crdts {
      ApplySetDeleteOk(db, op, rank);
      ApplySetDeleteOk(once, op, rank);
    }
  }
}
