/** The agent table and the sequence/time counters of the operation log,
    crates/diamond-types-positional/src/list/oplog.rs. Run-length vectors are plain
    sequences of `(key, span)` entries; the log's history, frontier, operation list and
    content buffers are not part of this model. */
module OpLog {
  import opened Wrappers
  import opened Rle

  /** A well-formed span: it does not end before it starts. */
  type Range = s: TimeSpan | s.start <= s.end witness TimeSpan(0, 0)

  function SpanLen(s: Range): nat
  {
    s.end - s.start
  }

  /** Agent ids are 32-bit; the largest one is reserved for the root. */
  type AgentId = a: nat | a < 0x1_0000_0000

  const ROOT_AGENT: AgentId := 0xFFFF_FFFF
  const ROOT_AGENT_NAME: string := "ROOT"

  /** The `as AgentId` conversion of an index: keep the low 32 bits. */
  function AsAgentId(n: nat): (a: AgentId)
    ensures n < 0x1_0000_0000 ==> a == n
    ensures (n - a) % 0x1_0000_0000 == 0
  {
    n % 0x1_0000_0000
  }

  /** One run of an agent's sequence numbers, starting at `key`, mapped to local times. */
  datatype SeqRun = SeqRun(key: nat, times: Range)

  /** One run of local times, starting at `key`, owned by `agent` with the given sequence numbers. */
  datatype TimeRun = TimeRun(key: nat, agent: AgentId, seqRange: Range)

  datatype ClientData = ClientData(name: string, itemOrders: seq<SeqRun>)

  datatype OpLog = OpLog(clientWithLocaltime: seq<TimeRun>, clientData: seq<ClientData>)

  function SeqRunEnd(e: SeqRun): nat
  {
    e.key + SpanLen(e.times)
  }

  function TimeRunEnd(e: TimeRun): nat
  {
    e.key + SpanLen(e.seqRange)
  }

  /** Where a run-length vector of sequence runs ends: after its last run, or at 0. */
  function LastSeqEnd(runs: seq<SeqRun>): nat
  {
    if |runs| == 0 then 0 else SeqRunEnd(runs[|runs| - 1])
  }

  /** Where a run-length vector of time runs ends: after its last run, or at 0. */
  function LastTimeEnd(runs: seq<TimeRun>): nat
  {
    if |runs| == 0 then 0 else TimeRunEnd(runs[|runs| - 1])
  }

  /** `OpLog::new`: no agents, no operations. */
  function NewOpLog(): (log: OpLog)
    ensures Len(log) == 0 && |log.clientData| == 0
  {
    OpLog([], [])
  }

  /** `get_next_seq`: the sequence number the agent uses next — where its last run ends. */
  function GetNextSeq(cd: ClientData): (r: nat)
    ensures |cd.itemOrders| == 0 ==> r == 0
    ensures |cd.itemOrders| > 0 ==> r == SeqRunEnd(cd.itemOrders[|cd.itemOrders| - 1])
  {
    LastSeqEnd(cd.itemOrders)
  }

  /** `len`: the number of operations — where the last time run ends. */
  function Len(log: OpLog): (r: nat)
    ensures |log.clientWithLocaltime| == 0 ==> r == 0
    ensures |log.clientWithLocaltime| > 0 ==> r == TimeRunEnd(log.clientWithLocaltime[|log.clientWithLocaltime| - 1])
  {
    LastTimeEnd(log.clientWithLocaltime)
  }

  /** The index of the first client called `name`. */
  function FindName(cds: seq<ClientData>, name: string): (r: Option<nat>)
    ensures r.None? <==> forall i | 0 <= i < |cds| :: cds[i].name != name
    ensures r.Some? ==> r.value < |cds| && cds[r.value].name == name
    ensures r.Some? ==> forall i | 0 <= i < r.value :: cds[i].name != name
  {
    if |cds| == 0 then None
    else if cds[0].name == name then Some(0)
    else
      match FindName(cds[1..], name)
      case None => None
      case Some(i) => Some(i + 1)
  }

  /** `get_agent_id`: the root name maps to `ROOT_AGENT`; any other name to the index of
      the first client with that name, if there is one. */
  function GetAgentId(log: OpLog, name: string): (r: Option<AgentId>)
    ensures name == ROOT_AGENT_NAME ==> r == Some(ROOT_AGENT)
    ensures name != ROOT_AGENT_NAME ==>
              (r.None? <==> forall i | 0 <= i < |log.clientData| :: log.clientData[i].name != name)
    ensures name != ROOT_AGENT_NAME && r.Some? ==>
              exists i | 0 <= i < |log.clientData| ::
                && log.clientData[i].name == name
                && r.value == AsAgentId(i)
                && forall j | 0 <= j < i :: log.clientData[j].name != name
  {
    if name == ROOT_AGENT_NAME then Some(ROOT_AGENT)
    else
      match FindName(log.clientData, name)
      case None => None
      case Some(i) => Some(AsAgentId(i))
  }

  /** `get_or_create_agent_id`: look the name up; an unknown name gets a new client with
      no runs, whose index is the new id. */
  function GetOrCreateAgentId(log: OpLog, name: string): (r: (OpLog, AgentId))
    ensures name == ROOT_AGENT_NAME ==> r == (log, ROOT_AGENT)
    ensures GetAgentId(log, name).Some? ==> r == (log, GetAgentId(log, name).value)
    ensures GetAgentId(log, name).None? ==>
              && r.0.clientWithLocaltime == log.clientWithLocaltime
              && r.0.clientData == log.clientData + [ClientData(name, [])]
              && r.1 == AsAgentId(|log.clientData|)
  {
    if name == ROOT_AGENT_NAME then (log, ROOT_AGENT)
    else
      match GetAgentId(log, name)
      case Some(id) => (log, id)
      case None =>
        var cds := log.clientData + [ClientData(name, [])];
        (log.(clientData := cds), AsAgentId(|cds| - 1))
  }

  /** `get_agent_name`: the root's name, or the name of the client at that index. */
  function GetAgentName(log: OpLog, agent: AgentId): (r: string)
    requires agent == ROOT_AGENT || agent < |log.clientData|
    ensures agent == ROOT_AGENT ==> r == ROOT_AGENT_NAME
    ensures agent != ROOT_AGENT ==> r == log.clientData[agent].name
  {
    if agent == ROOT_AGENT then ROOT_AGENT_NAME else log.clientData[agent].name
  }

  /** A name survives the trip through the agent table, as long as the table has not
      reached the reserved id. */
  lemma AgentNameRoundTrip(log: OpLog, name: string)
    requires |log.clientData| < ROOT_AGENT
    ensures var (log2, id) := GetOrCreateAgentId(log, name);
            (id == ROOT_AGENT || id < |log2.clientData|) && GetAgentName(log2, id) == name
  {
    if name != ROOT_AGENT_NAME {
      match FindName(log.clientData, name)
      case Some(i) =>
      case None =>
    }
  }

  /** Asking for the same name twice creates at most one client. */
  lemma GetOrCreateAgentIdIdempotent(log: OpLog, name: string)
    ensures var (log2, id) := GetOrCreateAgentId(log, name);
            GetOrCreateAgentId(log2, name) == (log2, id)
  {
    if name != ROOT_AGENT_NAME && GetAgentId(log, name).None? {
      var log2 := GetOrCreateAgentId(log, name).0;
      var i := |log.clientData|;
      assert log2.clientData[i].name == name;
      var j := FindName(log2.clientData, name).value;
      assert j == i;
    }
  }

  /** `assign_next_time_to_client_known`: give the agent the local times `span`, which
      must start where the log ends. The agent's next sequence numbers are mapped to
      those times, and the times are recorded as the agent's. */
  function AssignNextTimeToClientKnown(log: OpLog, agent: AgentId, span: Range): (r: OpLog)
    requires span.start == Len(log)
    requires agent < |log.clientData|
    ensures |r.clientData| == |log.clientData|
    ensures forall a | 0 <= a < |log.clientData| :: r.clientData[a].name == log.clientData[a].name
    ensures forall a | 0 <= a < |log.clientData| && a != agent :: r.clientData[a] == log.clientData[a]
    ensures GetNextSeq(r.clientData[agent]) == GetNextSeq(log.clientData[agent]) + SpanLen(span)
    ensures Len(r) == Len(log) + SpanLen(span)
    ensures var next := GetNextSeq(log.clientData[agent]);
            && r.clientData[agent].itemOrders == log.clientData[agent].itemOrders + [SeqRun(next, span)]
            && r.clientWithLocaltime == log.clientWithLocaltime + [TimeRun(span.start, agent, TimeSpan(next, next + SpanLen(span)))]
  {
    var cd := log.clientData[agent];
    var next := GetNextSeq(cd);
    var cd2 := cd.(itemOrders := cd.itemOrders + [SeqRun(next, span)]);
    OpLog(log.clientWithLocaltime + [TimeRun(span.start, agent, TimeSpan(next, next + SpanLen(span)))],
          log.clientData[agent := cd2])
  }

  /** Time runs follow each other without gaps, from time 0. */
  ghost predicate TimesContiguous(runs: seq<TimeRun>)
  {
    forall i | 0 <= i < |runs| :: runs[i].key == LastTimeEnd(runs[..i])
  }

  /** Sequence runs follow each other without gaps, from sequence number 0. */
  ghost predicate SeqsContiguous(runs: seq<SeqRun>)
  {
    forall i | 0 <= i < |runs| :: runs[i].key == LastSeqEnd(runs[..i])
  }

  /** The log's times are handed out without gaps from 0, and each agent's sequence
      numbers likewise. */
  ghost predicate Contiguous(log: OpLog)
  {
    && TimesContiguous(log.clientWithLocaltime)
    && forall a | 0 <= a < |log.clientData| :: SeqsContiguous(log.clientData[a].itemOrders)
  }

  lemma NewOpLogContiguous()
    ensures Contiguous(NewOpLog())
  {
  }

  lemma {:induction false} TimesContiguousPush(runs: seq<TimeRun>, e: TimeRun)
    requires TimesContiguous(runs)
    requires e.key == LastTimeEnd(runs)
    ensures TimesContiguous(runs + [e])
  {
    var r := runs + [e];
    forall i | 0 <= i < |r| ensures r[i].key == LastTimeEnd(r[..i]) {
      assert r[..i] == runs[..i];
    }
  }

  lemma {:induction false} SeqsContiguousPush(runs: seq<SeqRun>, e: SeqRun)
    requires SeqsContiguous(runs)
    requires e.key == LastSeqEnd(runs)
    ensures SeqsContiguous(runs + [e])
  {
    var r := runs + [e];
    forall i | 0 <= i < |r| ensures r[i].key == LastSeqEnd(r[..i]) {
      assert r[..i] == runs[..i];
    }
  }

  /** New clients start contiguous. */
  lemma GetOrCreateAgentIdContiguous(log: OpLog, name: string)
    requires Contiguous(log)
    ensures Contiguous(GetOrCreateAgentId(log, name).0)
  {
    var log2 := GetOrCreateAgentId(log, name).0;
    forall a | 0 <= a < |log2.clientData| ensures SeqsContiguous(log2.clientData[a].itemOrders) {
      if a < |log.clientData| {
        assert log2.clientData[a] == log.clientData[a];
      }
    }
  }

  /** Assigning times keeps both numberings contiguous. */
  lemma AssignContiguous(log: OpLog, agent: AgentId, span: Range)
    requires Contiguous(log)
    requires span.start == Len(log) && agent < |log.clientData|
    ensures Contiguous(AssignNextTimeToClientKnown(log, agent, span))
  {
    var r := AssignNextTimeToClientKnown(log, agent, span);
    var next := GetNextSeq(log.clientData[agent]);
    TimesContiguousPush(log.clientWithLocaltime, TimeRun(span.start, agent, TimeSpan(next, next + SpanLen(span))));
    SeqsContiguousPush(log.clientData[agent].itemOrders, SeqRun(next, span));
  }

  /** `push_insert_at`: assign the next `|content|` times to the agent and return the
      last of them. */
  function PushInsertAt(log: OpLog, agent: AgentId, content: string): (r: (OpLog, nat))
    requires agent < |log.clientData|
    requires Len(log) + |content| > 0
    ensures r.1 == Len(log) + |content| - 1
    ensures Len(r.0) == r.1 + 1
    ensures r.0 == AssignNextTimeToClientKnown(log, agent, TimeSpan(Len(log), Len(log) + |content|))
  {
    var start := Len(log);
    var end := start + |content|;
    (AssignNextTimeToClientKnown(log, agent, TimeSpan(start, end)), end - 1)
  }

  /** `push_delete_at`: assign the next `len` times to the agent and return the last of them. */
  function PushDeleteAt(log: OpLog, agent: AgentId, len: nat): (r: (OpLog, nat))
    requires agent < |log.clientData|
    requires Len(log) + len > 0
    ensures r.1 == Len(log) + len - 1
    ensures Len(r.0) == r.1 + 1
    ensures r.0 == AssignNextTimeToClientKnown(log, agent, TimeSpan(Len(log), Len(log) + len))
  {
    var start := Len(log);
    var end := start + len;
    (AssignNextTimeToClientKnown(log, agent, TimeSpan(start, end)), end - 1)
  }

  /** Consecutive pushes get consecutive times: the second starts right after the first. */
  lemma PushesAreConsecutive(log: OpLog, a: AgentId, b: AgentId, content: string, len: nat)
    requires a < |log.clientData| && b < |log.clientData|
    requires |content| > 0 && len > 0
    ensures var (log1, t1) := PushInsertAt(log, a, content);
            var (log2, t2) := PushDeleteAt(log1, b, len);
            t2 == t1 + len && Len(log2) == Len(log) + |content| + len
  {
  }
}
