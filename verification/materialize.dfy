/** Reading the document back as a plain value: `get` and `registerToVal` of
    js/src/index.ts. */
module Materialize {
  import opened Wrappers
  import opened Versions
  import opened Sorting
  import opened Store
  import opened Merge

  /** A materialised value: a primitive, a map's active field values, or a set's entries. */
  datatype DBValue =
    | Primitive(val: Primitive)
    | MapValue(fields: map<string, DBValue>)
    | SetValue(entries: map<Version, DBValue>)

  /** The recursion measure: a present CRDT ranks above every missing one. */
  ghost function RankOf(c: Crdts, rank: map<Version, nat>, id: Version): nat
    requires Ranked(c, rank)
  {
    if id in c then rank[id] + 1 else 0
  }

  lemma MapChildrenRankLower(c: Crdts, rank: map<Version, nat>, id: Version)
    requires Ranked(c, rank) && id in c && c[id].MapCrdt?
    ensures forall k: string, i: int | k in c[id].registers && 0 <= i < |c[id].registers[k]| ::
              var v := c[id].registers[k][i].value;
              v.Ref? && v.id in c ==> rank[v.id] < rank[id]
  {
    var regs: map<string, MVRegister> := c[id].registers;
    forall k: string, i: int | k in regs && 0 <= i < |regs[k]| && regs[k][i].value.Ref? && regs[k][i].value.id in c
      ensures rank[regs[k][i].value.id] < rank[id]
    {
      assert regs[k][i].value.id in RegisterRefs(regs[k]);
    }
  }

  lemma SetChildrenRankLower(c: Crdts, rank: map<Version, nat>, id: Version)
    requires Ranked(c, rank) && id in c && c[id].SetCrdt?
    ensures forall t | t in c[id].values ::
              var v := c[id].values[t];
              v.Ref? && v.id in c ==> rank[v.id] < rank[id]
  {
  }

  lemma RegisterChildrenRankLower(c: Crdts, rank: map<Version, nat>, id: Version)
    requires Ranked(c, rank) && id in c && c[id].RegisterCrdt?
    ensures forall i | 0 <= i < |c[id].pairs| ::
              var v := c[id].pairs[i].value;
              v.Ref? && v.id in c ==> rank[v.id] < rank[id]
  {
    var ps: MVRegister := c[id].pairs;
    forall i | 0 <= i < |ps| && ps[i].value.Ref? && ps[i].value.id in c
      ensures rank[ps[i].value.id] < rank[id]
    {
      assert ps[i].value.id in RegisterRefs(ps);
    }
  }

  /** The value a register slot shows: a primitive as is, a reference by reading the CRDT. */
  function RegisterToVal(c: Crdts, v: RegisterValue, ghost rank: map<Version, nat>): (r: Result<DBValue>)
    requires Ranked(c, rank)
    ensures v.Prim? ==> r == Ok(Primitive(v.val))
    ensures v.Ref? && v.id !in c ==> r == Ok(Primitive(Null))
    ensures v.Ref? && v.id in c ==> r == Get(c, v.id, rank)
    ensures r.Err? ==> r.error == EmptyRegister
    decreases if v.Ref? then RankOf(c, rank, v.id) else 0, 1
  {
    match v
    case Prim(p) => Ok(Primitive(p))
    case Ref(id) => Get(c, id, rank)
  }

  /** `get`: the value of CRDT `id`. A missing CRDT reads as null; a map shows the active
      (first) pair of every key; a set shows every entry; a register shows its active pair.
      A register with no pairs has no active value and is an error. */
  function Get(c: Crdts, id: Version, ghost rank: map<Version, nat>): (r: Result<DBValue>)
    requires Ranked(c, rank)
    ensures id !in c ==> r == Ok(Primitive(Null))
    ensures r.Err? ==> r.error == EmptyRegister
    ensures id in c && c[id].RegisterCrdt? && |c[id].pairs| == 0 ==> r == Err(EmptyRegister)
    ensures id in c && c[id].MapCrdt? && r.Ok? ==> r.value.MapValue? && r.value.fields.Keys == c[id].registers.Keys
    ensures id in c && c[id].SetCrdt? && r.Ok? ==> r.value.SetValue? && r.value.entries.Keys == c[id].values.Keys
    decreases RankOf(c, rank, id), 0
  {
    if id !in c then Ok(Primitive(Null))
    else
      match c[id]
      case RegisterCrdt(ps) =>
        if |ps| == 0 then Err(EmptyRegister)
        else
          RegisterChildrenRankLower(c, rank, id);
          RegisterToVal(c, ps[0].value, rank)
      case MapCrdt(regs) =>
        MapChildrenRankLower(c, rank, id);
        if exists k | k in regs :: |regs[k]| == 0 then Err(EmptyRegister)
        else
          var fields := map k | k in regs :: RegisterToVal(c, regs[k][0].value, rank);
          if exists k | k in fields :: fields[k].Err? then Err(EmptyRegister)
          else Ok(MapValue(map k | k in fields :: fields[k].value))
      case SetCrdt(vals) =>
        SetChildrenRankLower(c, rank, id);
        var entries := map t | t in vals :: RegisterToVal(c, vals[t], rank);
        if exists t | t in entries :: entries[t].Err? then Err(EmptyRegister)
        else Ok(SetValue(map t | t in entries :: entries[t].value))
  }

  /** A register reads as its active (first) pair. */
  lemma GetRegisterActive(c: Crdts, id: Version, rank: map<Version, nat>)
    requires Ranked(c, rank) && id in c && c[id].RegisterCrdt? && |c[id].pairs| > 0
    ensures Get(c, id, rank) == RegisterToVal(c, c[id].pairs[0].value, rank)
  {
  }

  /** A map reads as the active pair of every key; an empty slot under any key, or a
      failure reading any active pair, makes the whole read fail. */
  lemma GetMapFields(c: Crdts, id: Version, rank: map<Version, nat>)
    requires Ranked(c, rank) && id in c && c[id].MapCrdt?
    ensures var regs := c[id].registers;
            (exists k | k in regs :: |regs[k]| == 0) ==> Get(c, id, rank) == Err(EmptyRegister)
    ensures var regs := c[id].registers;
            Get(c, id, rank).Ok? <==>
              forall k | k in regs :: |regs[k]| > 0 && RegisterToVal(c, regs[k][0].value, rank).Ok?
    ensures var regs := c[id].registers;
            var r := Get(c, id, rank);
            r.Ok? ==> forall k | k in regs :: |regs[k]| > 0 && RegisterToVal(c, regs[k][0].value, rank) == Ok(r.value.fields[k])
  {
    MapChildrenRankLower(c, rank, id);
  }

  /** A set reads as every entry's value. */
  lemma GetSetEntries(c: Crdts, id: Version, rank: map<Version, nat>)
    requires Ranked(c, rank) && id in c && c[id].SetCrdt?
    ensures var vals := c[id].values;
            Get(c, id, rank).Ok? <==> forall t | t in vals :: RegisterToVal(c, vals[t], rank).Ok?
    ensures var vals := c[id].values;
            var r := Get(c, id, rank);
            r.Ok? ==> forall t | t in vals :: RegisterToVal(c, vals[t], rank) == Ok(r.value.entries[t])
  {
    SetChildrenRankLower(c, rank, id);
  }

  /** No register slot is empty: every register CRDT and every map key holds a pair. */
  ghost predicate NoEmptyRegisters(c: Crdts)
  {
    forall id | id in c ::
      && (c[id].RegisterCrdt? ==> |c[id].pairs| > 0)
      && (c[id].MapCrdt? ==> forall k | k in c[id].registers :: |c[id].registers[k]| > 0)
  }

  /** Reading never fails while every register slot holds a pair. */
  lemma {:induction false} GetTotal(c: Crdts, id: Version, rank: map<Version, nat>)
    requires Ranked(c, rank) && NoEmptyRegisters(c)
    ensures Get(c, id, rank).Ok?
    decreases RankOf(c, rank, id), 0
  {
    if id in c {
      match c[id]
      case RegisterCrdt(ps) =>
        RegisterChildrenRankLower(c, rank, id);
        RegisterToValTotal(c, ps[0].value, rank);
      case MapCrdt(regs) =>
        MapChildrenRankLower(c, rank, id);
        forall k | k in regs ensures RegisterToVal(c, regs[k][0].value, rank).Ok? {
          RegisterToValTotal(c, regs[k][0].value, rank);
        }
      case SetCrdt(vals) =>
        SetChildrenRankLower(c, rank, id);
        forall t | t in vals ensures RegisterToVal(c, vals[t], rank).Ok? {
          RegisterToValTotal(c, vals[t], rank);
        }
    }
  }

  lemma {:induction false} RegisterToValTotal(c: Crdts, v: RegisterValue, rank: map<Version, nat>)
    requires Ranked(c, rank) && NoEmptyRegisters(c)
    ensures RegisterToVal(c, v, rank).Ok?
    decreases if v.Ref? then RankOf(c, rank, v.id) else 0, 1
  {
    if v.Ref? {
      GetTotal(c, v.id, rank);
    }
  }

  /** The active pair is the one with the least version: the highest agent name wins. */
  lemma ActivePairIsLeast(ps: MVRegister)
    requires SortedBy(ps, PairVersion) && |ps| > 0
    ensures forall p | p in ps :: VersionLe(ps[0].version, p.version)
  {
    forall p | p in ps ensures VersionLe(ps[0].version, p.version) {
      var j := IndexOf(ps, p);
      if j == 0 {
        VersionLeTotalOrder(p.version, p.version, p.version);
      }
    }
  }

  /** Two concurrent writes to an empty register, by agents `lo` < `hi`: whichever
      arrives first, the register reads as the write of `hi`. */
  lemma ConcurrentWritesTieBreak(c: Crdts, id: Version, rank: map<Version, nat>, lo: Pair, hi: Pair)
    requires Ranked(c, rank) && id in c
    requires StrLess(lo.version.agent, hi.version.agent)
    requires lo.value.Prim? && hi.value.Prim?
    requires c[id] == RegisterCrdt(MergePairs(MergePairs([], [], lo), [], hi))
          || c[id] == RegisterCrdt(MergePairs(MergePairs([], [], hi), [], lo))
    ensures Get(c, id, rank) == Ok(Primitive(hi.value.val))
  {
    var m := c[id].pairs;
    assert forall p :: p in m <==> p == lo || p == hi;
    HigherAgentFirst(m, lo, hi);
  }

  /** In a sorted register holding exactly `lo` and `hi`, the pair of the greater agent
      comes first. */
  lemma HigherAgentFirst(m: MVRegister, lo: Pair, hi: Pair)
    requires SortedBy(m, PairVersion)
    requires forall p :: p in m <==> p == lo || p == hi
    requires StrLess(lo.version.agent, hi.version.agent)
    ensures |m| > 0 && m[0] == hi
  {
    assert hi in m;
    StrLessIrreflexive(lo.version.agent);
    assert lo != hi;
    assert m[0] in m;
    StrLessAsymmetric(lo.version.agent, hi.version.agent);
    assert VersionCmp(lo.version, hi.version) > 0;
    SortedHeadLeast(m, PairVersion, hi);
  }
}
