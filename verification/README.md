# diamond-types: the JSON CRDT document and the operation-log counters, in Dafny

This project models two parts of diamond-types.

The first part is the browser document store in `js/src/index.ts`. A document is a
frontier plus a store of nested CRDTs: maps of multi-value registers, sets, and
registers. Versions `(agent, seq)` are ordered by `versionCmp`. A write merges into a
register by retiring the pairs it names as local parents and keeping concurrent pairs.
Retiring a pair recursively deletes every CRDT the pair's value owns. `applyRemoteOp` is
the single state transition for local and remote operations. The local constructors
build an operation from the current state and apply it. `get` materialises a CRDT as a
plain value.

The second part is the Rust operation log in `crates/diamond-types-positional`:

- the run-length `KVPair` span algebra and `try_trim` (`src/rle/mod.rs`);
- the agent-name table and the sequence and time counters of `OpLog` (`src/list/oplog.rs`).

Modules follow the program's structure:

- `Wrappers`: `Option` and `Result`; the errors the JS code throws become `Err` values.
- `Versions`: JS string `<` as `StrLess`, `versionEq`, `versionCmp`, and a total order.
- `Sorting`: the stable JS sort as an insertion sort, the uniqueness of a sorted arrangement, and the filter used by the frontier and the merge.
- `Frontier`: `advanceFrontier`.
- `Store`: the CRDT datatypes, `createDb`, `createCRDT` and `removeRecursive`.
- `Merge`: `mergeRegister`.
- `Engine`: `applyRemoteOp`, split into one function per action.
- `Local`: `localRegisterSet`, `localMapInsert`, `localSetInsert` and `localSetDelete`.
- `Invariants`: acyclic ownership is preserved, and a repeated set delete is idempotent.
- `Materialize`: `get` and `registerToVal`.
- `Rle`: `KVPair` and `try_trim`.
- `OpLog`: the agent table and the time and sequence counters.

Ownership in the store must be acyclic: the reference graph is a tree, and recursive
retirement relies on that. The model makes this explicit. Every function that walks
references takes a ghost `rank` map in which an owned CRDT ranks below its owner.
`Invariants.ApplyRemoteOpRanked` proves that every successful operation yields a store
with such a ranking again.

## Model

| member | source | states |
|---|---|---|
| Versions.StrLess | js/src/index.ts:54-55 | string `<` compares character by character: a proper prefix is smaller, a string is never smaller than its own prefix |
| Versions.StrLessAtFirstDifference | js/src/index.ts:54-55 | past a common prefix, the first differing characters decide the order |
| Versions.VersionEq | js/src/index.ts:52 | two versions are equal exactly when agent and sequence number both match |
| Versions.VersionCmp | js/src/index.ts:53-57 | zero exactly for equal versions; a larger agent name sorts first; on the same agent, the lower sequence number sorts first |
| Versions.VersionLeTotalOrder | js/src/index.ts:53-57 | the order `versionCmp` induces is reflexive, antisymmetric, transitive and total, so sorting by it is well defined |
| Versions.VersionCmpAntisymmetric | js/src/index.ts:53-57 | swapping the arguments negates the comparison |
| Sorting.SortBy | js/src/index.ts:62 | the sorted result is ordered by the key and is a permutation of the input |
| Sorting.SortedUnique | js/src/index.ts:62 | two sorted permutations of the same elements are identical when no two distinct elements share a key, so replicas that hold the same elements agree on their order |
| Sorting.Without | js/src/index.ts:60 | the filter keeps exactly the elements whose key is not named, with their multiplicities |
| Frontier.AdvanceFrontier | js/src/index.ts:59-63 | the result is sorted, contains the new version, keeps every entry not named as a parent, drops every named parent, and does not remove duplicates |
| Frontier.AdvanceFrontierCanonical | js/src/index.ts:59-63 | the result depends only on the multiset of frontier entries, not on their order |
| Frontier.AdvanceFrontierCommutes | js/src/index.ts:59-63 | two concurrent advances, neither naming the other's version, give the same frontier in either order |
| Store.CreateDb | js/src/index.ts:65-77 | a new document has an empty frontier and a single empty map at `ROOT`, and its ownership is acyclic |
| Store.EmptyCrdt | js/src/index.ts:183-192 | a new CRDT has the requested kind and owns nothing |
| Store.CreateCRDT | js/src/index.ts:178-195 | fails with `CRDTAlreadyExists` exactly when the id is taken; otherwise it adds exactly the new empty CRDT and changes no other entry |
| Store.RemoveRecursive | js/src/index.ts:79-108 | a primitive or a reference to a missing CRDT changes nothing; otherwise the result is the store minus exactly the CRDTs reachable from the value, and surviving entries are unchanged |
| Store.RemoveEach | js/src/index.ts:87-101 | retiring a list of values removes exactly what any of them reaches and leaves the rest unchanged |
| Merge.NewValue | js/src/index.ts:210-217 | a primitive write stores the primitive; a CRDT write stores a reference to the CRDT created under the write's own version |
| Merge.MergePairs | js/src/index.ts:199-221 | the new pairs are sorted by version and contain the new pair; a pair survives exactly when its version is not a local parent; multiplicities are kept |
| Merge.RetiredValuesOwn | js/src/index.ts:199-208 | the values retired in the loop own exactly what the pairs named as local parents own |
| Merge.MergeRegister | js/src/index.ts:197-223 | fails exactly when a CRDT is requested under a version already live after the retirements; otherwise it retires everything the named pairs own, adds the requested empty CRDT, keeps all other entries and returns the merged pairs |
| Merge.MergeConcurrentWrites | js/src/index.ts:197-223 | two concurrent writes with distinct versions, neither naming the other, leave the same pairs whichever is merged first |
| Engine.PairVersions | js/src/index.ts:114 | the local parents are the versions of the current pairs, in register order |
| Engine.RegisterAt | js/src/index.ts:246 | a key reads as its pairs, and an absent key as no pairs |
| Engine.ApplyRegisterSet | js/src/index.ts:236-242 | a register write replaces the register's pairs by the merge result; every other CRDT survives exactly when no superseded pair owns it, and the requested CRDT is added; the register itself is never retired by its own write |
| Engine.ApplyMapSet | js/src/index.ts:243-251 | a map write merges into the pairs under its key, with an absent key read as no pairs, and changes no other key; every other CRDT survives exactly when no superseded pair under that key owns it, and the requested CRDT is added |
| Engine.ApplySetInsert | js/src/index.ts:259-265 | an insert stores the value under the operation's own id, and creates the requested CRDT there; it fails only if that id is taken |
| Engine.ApplySetDelete | js/src/index.ts:266-273 | a delete drops the entry and retires exactly what its value owns; deleting an absent entry leaves the store unchanged |
| Engine.ApplyToTarget | js/src/index.ts:235-279 | fails with `InvalidActionForTarget` exactly when the action does not fit the target's type; a fitting action fails exactly when it would create a CRDT under a version still live after its retirements; the target's new contents are the merged register, the map with the merged key, or the set with the entry added or dropped; the target survives with its type; every other CRDT survives exactly when the action does not retire it (superseded pairs for writes, the dropped entry for a delete), surviving entries are unchanged, and the created CRDT is added empty |
| Engine.ApplyRemoteOp | js/src/index.ts:225-232 | the frontier is advanced before anything else; an operation on a missing CRDT only advances the frontier; otherwise the store is updated as the action prescribes |
| Engine.ApplySetInsertOp | js/src/index.ts:252-264 | an insert aimed at a set advances the frontier and stores the value under the operation's own id; it fails only when the CRDT it would create already exists |
| Engine.ApplySetDeleteOk | js/src/index.ts:252-275 | a delete aimed at a set never fails |
| Local.LocalWriteSupersedes | js/src/index.ts:114 | a write that names every current pair as a local parent leaves exactly its own pair |
| Local.LocalRegisterSet | js/src/index.ts:110-124 | fails with `InvalidTarget` exactly when the target is not a register; on a register it succeeds exactly when the remote apply of its operation does, failing only when it would create a CRDT under a version still live after retiring every current pair; the operation's local parents are exactly the versions of the current pairs, and its global parents the current frontier; applying it remotely has the same effect; afterwards the register holds only the new pair |
| Local.LocalMapInsert | js/src/index.ts:126-140 | fails with `InvalidTarget` exactly when the target is not a map; on a map it succeeds exactly when the remote apply of its operation does, failing only when it would create a CRDT under a version still live after retiring the key's pairs; the local parents are exactly the versions of the pairs under the key; the key ends up holding only the new pair, and applying the operation remotely has the same effect |
| Local.LocalSetInsert | js/src/index.ts:142-155 | fails with `InvalidTarget` exactly when the target is not a set; on a set it succeeds exactly when the remote apply does, failing only when it would create a CRDT under an id already taken; the new entry is stored under the operation's id, and applying the operation remotely has the same effect |
| Local.LocalSetDeleteAsWritten | js/src/index.ts:157-173 | fails exactly when the target is not a set; an absent entry yields no operation and no change; otherwise the store matches the remote effect of the returned operation, but the frontier is left unchanged |
| Local.LocalSetDeleteMissesFrontier | js/src/index.ts:157-173 | the replica that made the delete does not record its id in its frontier; a replica that receives the delete does |
| Local.LocalSetDelete | js/src/index.ts:157-173 | the delete goes through `applyRemoteOp`, so the deleting replica reaches exactly the state of a receiving replica, including the frontier |
| Invariants.EvolvesRanked | js/src/index.ts:225-280 | an update that only touches the target and creates an empty CRDT keeps ownership acyclic |
| Invariants.ApplyRemoteOpRanked | js/src/index.ts:225-280 | every successful operation keeps the ownership graph acyclic |
| Invariants.SetDeleteIdempotent | js/src/index.ts:266-273 | delivering the same set delete twice leaves the store as the first delivery left it |
| Materialize.RegisterToVal | js/src/index.ts:290-294 | a primitive reads as itself; a reference reads as `get` of the CRDT it names, which is null for a deleted CRDT |
| Materialize.Get | js/src/index.ts:296-325 | a missing CRDT reads as null; a register without pairs is an error; a map reads as a record with exactly its keys; a set reads as a mapping with exactly its entries |
| Materialize.GetRegisterActive | js/src/index.ts:301-305 | a register with pairs reads as the value of its first pair |
| Materialize.GetMapFields | js/src/index.ts:306-313 | a map reads as the value of the first pair under each key; the read fails exactly when some key has no pair or some active value fails |
| Materialize.GetSetEntries | js/src/index.ts:314-321 | a set reads as the value of each entry; the read fails exactly when some entry fails |
| Materialize.GetTotal | js/src/index.ts:296-325 | reading never fails when no register slot is empty |
| Materialize.ActivePairIsLeast | js/src/index.ts:302-303 | the active pair at index 0 has the least version in the register, so the largest agent name wins |
| Materialize.HigherAgentFirst | js/src/index.ts:301-305 | in a sorted register holding two writes of different agents, the write of the larger agent name is the active (first) pair |
| Materialize.ConcurrentWritesTieBreak | js/src/index.ts:301-305 | after two concurrent primitive writes to an empty register, the register reads as the write of the larger agent name, whichever write arrived first |
| Rle.End | crates/diamond-types-positional/src/rle/mod.rs:14-16 | the end is the key plus the length |
| Rle.Span | crates/diamond-types-positional/src/rle/mod.rs:18-21 | the span runs from the key to the end, and its width is the length |
| Rle.Truncate | crates/diamond-types-positional/src/rle/mod.rs:40-46 | the kept piece keeps the key and has length `at`; the remainder starts at key plus `at` and ends where the pair ended |
| Rle.TruncateKeepingRight | crates/diamond-types-positional/src/rle/mod.rs:48-53 | the kept piece starts at key plus `at`; the returned left piece has the old key and length `at` |
| Rle.CanAppend | crates/diamond-types-positional/src/rle/mod.rs:56-58 | a pair can be appended exactly when it starts where the other ends |
| Rle.Append | crates/diamond-types-positional/src/rle/mod.rs:60-62 | appending keeps the key and adds the lengths; for appendable pairs the span is the union |
| Rle.Prepend | crates/diamond-types-positional/src/rle/mod.rs:64-67 | prepending takes the other pair's key and adds the lengths; for appendable pairs the span is the union |
| Rle.TruncateAppend | crates/diamond-types-positional/src/rle/mod.rs:40-62 | the two pieces of a cut can be appended and give back the original pair |
| Rle.TruncateKeepingRightPrepend | crates/diamond-types-positional/src/rle/mod.rs:48-67 | prepending the left piece of a left cut gives back the original pair |
| Rle.AppendPrependAgree | crates/diamond-types-positional/src/rle/mod.rs:56-67 | appending `b` to `a` and prepending `a` to `b` build the same pair |
| Rle.TryTrimAsWritten | crates/diamond-types-positional/src/rle/mod.rs:84-99 | `None` exactly when `x` ends at or before the target start or starts at or after the target end; the one-sided cuts give the intersection; in the two-sided case the result ends past the target end by the amount cut from the left |
| Rle.TryTrimAsWrittenOvershoots | crates/diamond-types-positional/src/rle/mod.rs:93-96 | trimming `[0, 10)` to `[2, 5)` yields `[2, 7)` |
| Rle.TryTrim | crates/diamond-types-positional/src/rle/mod.rs:84-99 | `None` exactly in the same cases; otherwise the result spans exactly the intersection of `x` and the target |
| Rle.TryTrimOneSidedAgrees | crates/diamond-types-positional/src/rle/mod.rs:84-99 | when only one end needs cutting, the code as written gives the intersection |
| Rle.TryTrimWithin | crates/diamond-types-positional/src/rle/mod.rs:84-99 | a trimmed pair lies inside both the target and `x` |
| Rle.Trim | crates/diamond-types-positional/src/rle/mod.rs:101-106 | `try_trim` as written, unwrapped: it starts at the later of the two starts, and lies inside the target when at most one end is cut |
| Rle.TrimCorrected | crates/diamond-types-positional/src/rle/mod.rs:101-106 | over the corrected `try_trim`, the result is exactly the overlap of `x` and the target |
| OpLog.NewOpLog | crates/diamond-types-positional/src/list/oplog.rs:58-69 | a new log has no operations and no agents |
| OpLog.GetNextSeq | crates/diamond-types-positional/src/list/oplog.rs:19-23 | the next sequence number is where the agent's last run ends, or 0 when it has none |
| OpLog.Len | crates/diamond-types-positional/src/list/oplog.rs:155-159 | the number of operations is where the last time run ends, or 0 when there is none |
| OpLog.AsAgentId | crates/diamond-types-positional/src/list/oplog.rs:95 | an index converts to an agent id by keeping its low 32 bits, so a small index is unchanged |
| OpLog.FindName | crates/diamond-types-positional/src/list/oplog.rs:102-103 | finds the first client with the name, and `None` exactly when no client has it |
| OpLog.GetAgentId | crates/diamond-types-positional/src/list/oplog.rs:99-106 | `ROOT` maps to `ROOT_AGENT`; another name maps to the index of the first client with that name, and `None` exactly when there is no such client |
| OpLog.GetOrCreateAgentId | crates/diamond-types-positional/src/list/oplog.rs:83-97 | `ROOT` and known names return their id without changing the log; an unknown name appends one client with no runs and returns the old client count |
| OpLog.GetAgentName | crates/diamond-types-positional/src/list/oplog.rs:108-111 | `ROOT_AGENT` is named `ROOT`; any other agent is named by its client entry |
| OpLog.AgentNameRoundTrip | crates/diamond-types-positional/src/list/oplog.rs:83-111 | the name of the id returned for a name is that name |
| OpLog.GetOrCreateAgentIdIdempotent | crates/diamond-types-positional/src/list/oplog.rs:83-97 | asking for the same name a second time returns the same id and leaves the log unchanged |
| OpLog.AssignNextTimeToClientKnown | crates/diamond-types-positional/src/list/oplog.rs:173-185 | the agent's next sequence number and the log length both grow by the span's length; the seq range `[next, next + len)` is recorded against the span; other agents are unchanged |
| OpLog.GetOrCreateAgentIdContiguous | crates/diamond-types-positional/src/list/oplog.rs:90-95 | adding a client keeps the time and sequence numbering free of gaps |
| OpLog.AssignContiguous | crates/diamond-types-positional/src/list/oplog.rs:173-185 | assigning times keeps the time and sequence numbering free of gaps |
| OpLog.PushInsertAt | crates/diamond-types-positional/src/list/oplog.rs:320-331 | returns the last assigned time, the old length plus the content length minus one, and the log grows to one past it |
| OpLog.PushDeleteAt | crates/diamond-types-positional/src/list/oplog.rs:334-343 | returns the old length plus `len` minus one, and the log grows to one past it |
| OpLog.PushesAreConsecutive | crates/diamond-types-positional/src/list/oplog.rs:320-343 | a delete pushed after an insert gets the times right after the insert's |

## Left out

- Thrown errors: the JS code mutates the state before some of its throws. It advances the frontier and performs retirements first. The model returns `Err` and discards the partial state.
- `console.log` and `console.warn` calls are not modelled; they have no effect on the state.
- `Map2` and JS objects become Dafny maps. Iteration order is not modelled. `removeRecursive` visits children in version order; the result does not depend on the order.
- ApplyMapSet, LocalMapInsert and Get: map registers are plain JS objects, so a key such as `constructor`, `toString` or `__proto__` that the map does not hold reads an inherited `Object.prototype` member, and the code throws a `TypeError`. The model treats such a key as absent.
- StrLess: Dafny characters are Unicode code points, while JS compares UTF-16 code units. The two orders differ for agent names with characters above U+FFFF (JS puts `"\u{10000}"` before `"\uFFFF"`), which changes `versionCmp` and the tie-break winner for such names.
- Get: the default argument `crdtId = ROOT` is not modelled; the no-argument call is `Get(c, ROOT, rank)`.
- `Primitive` payloads are opaque values. JS numbers are integers.
- The `default: throw` branches and `errExpr('Invalid CRDT type')` are not modelled. The datatypes make these cases impossible.
- Store.RemoveRecursive, Merge.MergeRegister, Engine.ApplyRemoteOp, Local.LocalRegisterSet, Local.LocalMapInsert, Local.LocalSetInsert, Local.LocalSetDelete and Materialize.Get: these require a ghost ranking proving ownership acyclic. The code relies on the reference graph being a tree but never checks it.
- Materialize.Get: an empty register makes the JS code throw a `TypeError` when it reads `value[0]`. The model returns `Err(EmptyRegister)`. A freshly created register CRDT has no pairs until its first write.
- Merge.MergeConcurrentWrites: it states convergence of the register's pairs only. Its effect on the store, such as which CRDTs each write retires, is not covered.
- Rle.CanAppend: the inner value is a length-only run, and two runs can always join. Any inner-value condition of `can_append` is therefore always true.
- Rle.TryTrimAsWritten: the second cut must not exceed the rest of the run. A length-only run cannot be cut past its end, and past-the-end behaviour depends on the generic inner type `V`.
- Rle.Trim: it carries the same requirement on the second cut as `TryTrimAsWritten`.
- OpLog.AgentNameRoundTrip: it requires fewer than `ROOT_AGENT` clients. At that many clients the `as AgentId` conversion of a new index would collide with `ROOT_AGENT` or wrap around.
- `lib.rs` is not part of this model. `ROOT_AGENT` is taken to be the largest 32-bit agent id.
- The run-length vectors are plain sequences: `RleVec::push` would merge a run into the previous one when they join. The ends that `len` and `get_next_seq` read are the same either way.
- OpLog.PushInsertAt and OpLog.PushDeleteAt: the parents and the position only feed the history, the frontier and the operation list, which are not modelled. `count_chars` is the length of the string. The precondition is that the returned time is not below zero, so an empty push at a non-empty log is allowed.
- OpLog.AssignNextTimeToClientKnown: it requires `span.start == len()`, which the source checks only in debug builds. It also requires the agent to be a known client: the source indexes `client_data` and panics otherwise, and the panic is modelled as that precondition.
- OpLog.GetAgentName: it requires `ROOT_AGENT` or a known client; for any other agent the source's `client_data` index panics, and the panic is modelled as that precondition.
- OpLog.PushInsertAt: it requires a known agent, because the source panics indexing `client_data` otherwise; the panic is modelled as that precondition.
- OpLog.PushDeleteAt: it requires a known agent, because the source panics indexing `client_data` otherwise; the panic is modelled as that precondition.
- Rle.Trim: it requires that `try_trim` as written returns a value; where it returns `None` the source's `unwrap` panics, and the panic is modelled as that precondition.
- Rle.TrimCorrected: the same; the `None` cases, where `unwrap` panics, are excluded by its precondition.
- Not modelled in `oplog.rs`: `insert_history`, `advance_frontier`, `push_op_internal`, `push_at`, `push`, `push_insert`, `push_delete`, `checkout`, `checkout_tip`, `iter_history`, `get_frontier`, `content_str`, `print_stats` and `dbg_print_all`. They depend on the history, frontier, operation list and content buffers, which are not modelled, or they only print.
- Also not modelled in `oplog.rs`: `try_seq_to_time`, `seq_to_time`, `time_to_crdt_id`, `crdt_id_to_time` and `get_crdt_span`. They depend on the search functions of `RleVec`, which is not part of this model.
- Integer widths: `usize` arithmetic is unbounded here, so overflow is not modelled. Agent ids are 32-bit, and the conversion from an index truncates explicitly.
- `js/src/server.ts`, `m2/dot.rs`, `src/encoding/tools.rs`, `src/hack.rs`, the equality and invariant checks, and the fuzzer are not modelled. They are I/O, debugging or test code around the core.

## Findings

| source | as written | input that shows it | evidently intended | confidence | as-written member | corrected member |
|---|---|---|---|---|---|---|
| crates/diamond-types-positional/src/rle/mod.rs:93-96 | when both ends need cutting, the second cut is `target.end - x_span.start`, measured from the original start after the left part is already gone | `x` covering `[0, 10)`, target `[2, 5)`: the result covers `[2, 7)` | cut at `target.end` minus the current start, giving the intersection `[2, 5)` | not executed; high | Rle.TryTrimAsWritten | Rle.TryTrim |
| js/src/index.ts:157-173 | `localSetDelete` retires the entry itself and never calls `applyRemoteOp`, so the local frontier is not advanced by the delete's id | a set holding entry `t`, deleted locally with id `d` not yet in the frontier: the local frontier lacks `d`, while every receiving replica adds it | route the delete through `applyRemoteOp` like the other three constructors, so the local frontier includes `d` | not executed; medium | Local.LocalSetDeleteAsWritten | Local.LocalSetDelete |
