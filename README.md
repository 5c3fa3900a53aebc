# Interactive alignment repair, modelled in Dafny

This project models AgreementMakerLight's interactive repairer, the filter in
`aml/filter/InteractiveRepairer.java`. The repairer takes an alignment: an
indexed list of mappings between the entities of two ontologies. It also takes
the conflict sets of that alignment, where each conflict set is a set of
mapping indices that cannot all be correct together. The repairer resolves
the conflicts by asking an oracle (a user or a reference alignment) about one
mapping at a time.

- It keeps two tables that index each other:
  - conflict set → member mappings (`conflictMappings`);
  - mapping → conflict sets containing it (`mappingConflicts`).
- It repeatedly picks the unconfirmed mapping that appears in the most live
  conflict sets. On a tie it picks the one with the lowest similarity.
- It asks the oracle about that mapping.
  - A confirmed mapping joins `correct`.
  - A rejected mapping joins `toRemove`. Every conflict set containing it is
    dissolved, and those sets are struck from the entries of their other
    members.
- At the end it returns the alignment in its original order, without the
  rejected mappings.

The project has three modules:

- `Alignment` (`alignment.dfy`):
  - the mapping datatype and the oracle, modelled as a total function;
  - `Without`, the order-preserving filter that builds the output, with its
    lemmas.
- `ConflictIndex` (`conflict_index.dfy`):
  - the two tables as `map<int, set<int>>`;
  - the invariant `Consistent`: the tables are exact transposes of each
    other, and no key has an empty entry;
  - `ConflictTable` and `MappingTable`, which say what the initial build
    produces;
  - `Dissolve` and `Survivors`, which say what removing mappings does;
  - the lemmas relating all of these.
- `InteractiveRepair` (`interactive_repairer.dfy`): the class
  `InteractiveRepairer`.
  - Its fields are those of the Java object.
  - Its methods follow `init`, `remove`, `getWorstMapping` and `repair`,
    including their loops.
  - Each method is proved against the functions of `ConflictIndex`.
  - The module also holds `Bookkeeping`, the repair loop's invariant, and
    a trace of the run:
    - `Snapshot` is the loop's state;
    - `Step` is one question and its consequence;
    - `Replay` is the state reached by the questions asked so far;
    - `Greedy` says that each question named a mapping `getWorstMapping` may
      choose in the state replayed from the earlier questions, and that the
      loop had not stopped before it.
  - The module also holds four example runs, each proved down to the exact
    sequence of questions.

The repair loop exists in two versions:

- `Repair` follows the source as written.
- `RepairFixed` corrects its stopping test (see "## Findings").

The stopping test on line 80 compares `correct`, a set of mapping indices,
with the set of live *conflict-set* indices. `Repair` models that comparison
exactly as written. For example, take one conflict set {0, 1} and an oracle
that confirms mapping 0 when it is asked first. Then `correct` = {0} contains
the only live conflict-set index, 0, and the loop stops after one query, so
mapping 1 is never asked about. `ConfirmedZeroStopsLoop` proves that with an
oracle that accepts everything, this run asks only about mapping 0 and ends
normally, with the alignment unchanged.

## Model

| member | source | states |
|---|---|---|
| InteractiveRepair.InteractiveRepairer.Init | AgreementMakerLight/src/aml/filter/InteractiveRepairer.java:117-130 | After the build, the conflict table maps each index of a non-empty conflict set to exactly that set. The mapping table maps each member mapping to exactly the sets containing it. `correct` is empty. When the conflict sets only name positions of the alignment, the index invariant holds |
| InteractiveRepair.InteractiveRepairer.constructor | AgreementMakerLight/src/aml/filter/InteractiveRepairer.java:49 | A new repairer has an empty alignment, no conflict sets, nothing confirmed and empty tables. The Java constructor leaves the fields unset until `repair` and `init` assign them |
| ConflictIndex.Add | AgreementMakerLight/src/aml/filter/InteractiveRepairer.java:126-127 | `Table2List.add(k, v)`: afterwards `k` is a key, and its entry is its old entry (empty if `k` was absent) plus `v`. Every other key keeps its entry, and no other key is added |
| ConflictIndex.InitialTablesConsistent | AgreementMakerLight/src/aml/filter/InteractiveRepairer.java:117-130 | The tables built from any list of conflict sets are exact transposes of each other with no empty entry. The mapping table's keys are exactly the members of the conflict sets. With in-range conflict sets, every listed mapping is a valid position |
| ConflictIndex.TablesIgnoreEmptySet | AgreementMakerLight/src/aml/filter/InteractiveRepairer.java:122-125 | An empty conflict set adds nothing to either table (its inner loop never runs) |
| ConflictIndex.ConflictTableExtend | AgreementMakerLight/src/aml/filter/InteractiveRepairer.java:124-126 | Adding one member to the conflict set being built adds it to that set's entry of the conflict table, and nothing else changes |
| ConflictIndex.MappingTableExtend | AgreementMakerLight/src/aml/filter/InteractiveRepairer.java:124-127 | Adding one member `j` to the conflict set being built adds that set to the entry of `j` in the mapping table, creating the entry if needed, and nothing else changes |
| InteractiveRepair.InteractiveRepairer.Remove | AgreementMakerLight/src/aml/filter/InteractiveRepairer.java:132-147 | Removing mapping `m` deletes every conflict set that contained `m`. Each such set is struck from the entries of its members, and an entry left empty is dropped (`Dissolve`). `m` is no longer listed. The index invariant is kept. A conflict set survives exactly when it did not contain `m`, and keeps its members |
| InteractiveRepair.InteractiveRepairer.DetachConflict | AgreementMakerLight/src/aml/filter/InteractiveRepairer.java:137-143 | Going through the members of conflict set `c` strikes `c` from the entry of each member. A member whose only entry was `c` loses its entry (`Strip`) |
| ConflictIndex.StripStep | AgreementMakerLight/src/aml/filter/InteractiveRepairer.java:139-142 | One member step: an entry of size 1 that holds `c` is deleted. Otherwise `c` is taken out of it. Before the step, the member is still listed and still holds `c` |
| ConflictIndex.StripAllMembers | AgreementMakerLight/src/aml/filter/InteractiveRepairer.java:135-145 | Striking conflict set `c` from all its members is the same as dissolving `c` on top of the sets already dissolved. Every member of `c` is still listed with `c` when its turn comes, so the `get` on line 139 always finds an entry |
| ConflictIndex.RetireKeepsConsistent | AgreementMakerLight/src/aml/filter/InteractiveRepairer.java:132-147 | Dissolving every conflict set that contains `m` keeps the tables transposed with no empty entry, and drops `m`. Only previously listed mappings stay listed. A conflict set stays exactly when it lacks `m` |
| ConflictIndex.DissolveTwice | AgreementMakerLight/src/aml/filter/InteractiveRepairer.java:132-147 | Two removals in a row dissolve the union of their conflict sets, so the order of removals does not matter |
| ConflictIndex.DissolveNothing | AgreementMakerLight/src/aml/filter/InteractiveRepairer.java:132-147 | Dissolving no conflict set leaves an index without empty entries unchanged |
| InteractiveRepair.InteractiveRepairer.GetWorstMapping | AgreementMakerLight/src/aml/filter/InteractiveRepairer.java:97-115 | The result is -1 exactly when every listed mapping is confirmed. Otherwise it is an unconfirmed listed mapping in the largest number of live conflict sets, with a similarity no larger than that of any other candidate with the same count |
| InteractiveRepair.InteractiveRepairer.Adjudicate | AgreementMakerLight/src/aml/filter/InteractiveRepairer.java:69-79 | An accepted mapping joins `correct`, and the tables are unchanged. A rejected one joins the removal set, and `Remove` is applied. Either way, the set of unconfirmed listed mappings strictly shrinks, which bounds the loop |
| ConflictIndex.RetireStep | AgreementMakerLight/src/aml/filter/InteractiveRepairer.java:76-79 | After one more rejection, the live conflict sets are still exactly the initial sets without a rejected member, and the mapping table is still the initial one with the dead sets dissolved |
| InteractiveRepair.BookkeepingStart | AgreementMakerLight/src/aml/filter/InteractiveRepairer.java:61-66 | Right after `init`, the loop invariant holds with nothing confirmed, nothing removed and nothing asked |
| InteractiveRepair.BookkeepingAccept | AgreementMakerLight/src/aml/filter/InteractiveRepairer.java:73-74 | Confirming an unconfirmed candidate the oracle accepts keeps the loop invariant, and appends it to the queries |
| InteractiveRepair.BookkeepingReject | AgreementMakerLight/src/aml/filter/InteractiveRepairer.java:75-79 | Rejecting and removing an unconfirmed candidate keeps the loop invariant. The rejected mapping is no longer listed, and confirmed and removed mappings stay disjoint |
| InteractiveRepair.AskedAtMostOnceEach | AgreementMakerLight/src/aml/filter/InteractiveRepairer.java:67-82 | The oracle is asked at most once per mapping that occurs in some conflict set |
| InteractiveRepair.DistinctBound | AgreementMakerLight/src/aml/filter/InteractiveRepairer.java:67-82 | A query sequence without repeats, drawn from a set, is no longer than the set |
| InteractiveRepair.NothingRejectedKeepsTables | AgreementMakerLight/src/aml/filter/InteractiveRepairer.java:73-74 | As long as the oracle has rejected nothing, both tables are still the ones `init` built |
| ConflictIndex.LiveConflictHasMember | AgreementMakerLight/src/aml/filter/InteractiveRepairer.java:67 | Under the index invariant, there is a live conflict set exactly when some mapping is listed |
| ConflictIndex.ConfirmedCoverLiveSets | AgreementMakerLight/src/aml/filter/InteractiveRepairer.java:80 | Once every listed mapping is confirmed, every live conflict set consists of confirmed mappings only |
| InteractiveRepair.InteractiveRepairer.Assemble | AgreementMakerLight/src/aml/filter/InteractiveRepairer.java:83-88 | The output is the alignment without the positions in the removal set, in the original order. With in-range positions it is exactly that many mappings shorter |
| Alignment.WithoutIsSubsequence | AgreementMakerLight/src/aml/filter/InteractiveRepairer.java:83-88 | The output at each position is the input at the matching surviving position, so it is a subsequence of the input |
| Alignment.KeptIsAscendingSurvivors | AgreementMakerLight/src/aml/filter/InteractiveRepairer.java:84-88 | The surviving positions are listed in strictly increasing order: the original order is kept, with no duplicates. A position is listed exactly when it is in range and not removed |
| Alignment.WithoutSize | AgreementMakerLight/src/aml/filter/InteractiveRepairer.java:83-88 | The output length plus the number of removed in-range positions is the input length |
| Alignment.WithoutValidSize | AgreementMakerLight/src/aml/filter/InteractiveRepairer.java:83-91 | When every removed index is a position, the output is shorter by exactly the number of removed mappings, which is the number line 91 reports |
| Alignment.WithoutNothing | AgreementMakerLight/src/aml/filter/InteractiveRepairer.java:62-63 | Removing nothing gives back the alignment unchanged |
| InteractiveRepair.InteractiveRepairer.Repair | AgreementMakerLight/src/aml/filter/InteractiveRepairer.java:54-93 | The loop as written. With no conflict sets, it returns the alignment unchanged and asks nothing. Otherwise it keeps the loop invariant (`Bookkeeping`): confirmed mappings were accepted, removed ones were rejected, the two are disjoint, every query names a distinct member of a conflict set, and the tables are the initial ones with the rejected mappings' sets dissolved. The queries form a greedy trace (`Greedy`). Each query was a worst mapping, in the sense of `getWorstMapping`, of the state replayed from the earlier queries. Before each query the loop had neither run out of conflict sets nor met its stopping test. The final state is the replay of all queries. A normal return yields the alignment without exactly the removed mappings, with no conflict set left or every live conflict-set index in `correct`. The other exit is reading position -1, reached exactly when every listed mapping is confirmed but some live conflict-set index is not |
| InteractiveRepair.InteractiveRepairer.RepairFixed | AgreementMakerLight/src/aml/filter/InteractiveRepairer.java:54-93 | The loop with the corrected stopping test. It keeps the same invariant and never lacks a candidate. Its queries form a greedy trace under the corrected test, and the final state is their replay. It returns the alignment without exactly the rejected mappings, with every listed mapping confirmed, so every surviving conflict set consists of confirmed mappings |
| InteractiveRepair.InteractiveRepairer.Round | AgreementMakerLight/src/aml/filter/InteractiveRepairer.java:70-79 | One pass of the loop body on a worst mapping `w`, from a state where the loop goes on. The query `w` is appended to the trace, the new state is one `Step` from the old, and the trace stays greedy. The set of unconfirmed listed mappings strictly shrinks |
| InteractiveRepair.ProgressStart | AgreementMakerLight/src/aml/filter/InteractiveRepairer.java:61-67 | Right after `init`, the empty trace is greedy, replays to the initial state, and the loop invariant holds |
| InteractiveRepair.ProgressStep | AgreementMakerLight/src/aml/filter/InteractiveRepairer.java:69-80 | Extending the trace by a worst mapping of the current state, while the loop goes on, keeps the invariant and the greedy trace. The new state is the replay of the longer trace |
| InteractiveRepair.GreedyStep | AgreementMakerLight/src/aml/filter/InteractiveRepairer.java:67-80 | Appending a worst mapping of the replayed state, while the loop goes on, gives a greedy trace, whose replay is one `Step` further |
| InteractiveRepair.GreedyPrefix | AgreementMakerLight/src/aml/filter/InteractiveRepairer.java:67-82 | Every prefix of a greedy trace is a greedy trace |
| InteractiveRepair.GreedyAt | AgreementMakerLight/src/aml/filter/InteractiveRepairer.java:67-80 | Query `p` of a greedy trace was a worst mapping in the state replayed from the queries before it, and the loop had not stopped there. Replaying up to and including query `p` is one `Step` from that state |
| InteractiveRepair.GreedyStopsAt | AgreementMakerLight/src/aml/filter/InteractiveRepairer.java:67-80 | Once the replayed state no longer lets the loop go on, the greedy trace ends there |
| InteractiveRepair.WorstIs | AgreementMakerLight/src/aml/filter/InteractiveRepairer.java:97-115 | A candidate that beats every other candidate is the only one `getWorstMapping` may choose. The others must be in fewer live conflict sets, or in as many with a higher similarity |
| InteractiveRepair.LowPairTables | AgreementMakerLight/src/aml/filter/InteractiveRepairer.java:117-130 | `init` on the single conflict set {1, 2} builds the conflict table 0 → {1, 2}, and the mapping table 1 → {0}, 2 → {0} |
| InteractiveRepair.LowPairFirst | AgreementMakerLight/src/aml/filter/InteractiveRepairer.java:97-115 | In that initial state mapping 1, the less similar, is the only worst mapping, and confirming it changes only `correct` |
| InteractiveRepair.LowPairSecond | AgreementMakerLight/src/aml/filter/InteractiveRepairer.java:97-115 | Once 1 is confirmed, 2 is the only worst mapping, and confirming it changes only `correct` |
| InteractiveRepair.LowPairDone | AgreementMakerLight/src/aml/filter/InteractiveRepairer.java:97-115 | Once 1 and 2 are confirmed, no mapping is left to choose |
| InteractiveRepair.LowPairPrefix | AgreementMakerLight/src/aml/filter/InteractiveRepairer.java:67-79 | A greedy trace on that input, with both mappings confirmed, starts with 1 and then 2, under either stopping test |
| InteractiveRepair.LowPairRun | AgreementMakerLight/src/aml/filter/InteractiveRepairer.java:67-80 | Such a trace is empty, [1] or [1, 2], and its state has `correct` equal to the queries so far and the initial tables. The conflict-set index 0 is never confirmed, and every listed mapping is confirmed exactly when the trace is [1, 2] |
| InteractiveRepair.SharedMemberTables | AgreementMakerLight/src/aml/filter/InteractiveRepairer.java:117-130 | `init` on the conflict sets {0, 1} and {1, 2, 3} builds the conflict table 0 → {0, 1}, 1 → {1, 2, 3}, and the mapping table 0 → {0}, 1 → {0, 1}, 2 → {1}, 3 → {1} |
| InteractiveRepair.SharedMemberFirst | AgreementMakerLight/src/aml/filter/InteractiveRepairer.java:97-115 | In that initial state mapping 1, in two conflict sets, is the only worst mapping. Rejecting it dissolves both sets and empties both tables |
| InteractiveRepair.SharedMemberRun | AgreementMakerLight/src/aml/filter/InteractiveRepairer.java:67-80 | A greedy trace on that input with mapping 1 rejected, which ends where the loop as written stops, is exactly [1], and only 1 is removed |
| InteractiveRepair.SharedMemberOutcome | AgreementMakerLight/src/aml/filter/InteractiveRepairer.java:54-93 | For any four mappings and any oracle that rejects mapping 1, the loop as written asks only about 1 and returns mappings 0, 2 and 3 |
| InteractiveRepair.PairTables | AgreementMakerLight/src/aml/filter/InteractiveRepairer.java:117-130 | `init` on the single conflict set {0, 1} builds the conflict table 0 → {0, 1}, and the mapping table 0 → {0}, 1 → {0} |
| InteractiveRepair.ConfirmedZeroFirst | AgreementMakerLight/src/aml/filter/InteractiveRepairer.java:97-115 | In that initial state mapping 0, the less similar, is the only worst mapping, and confirming it changes only `correct` |
| InteractiveRepair.ConfirmedZeroRun | AgreementMakerLight/src/aml/filter/InteractiveRepairer.java:67-80 | A greedy trace on that input with mapping 0 confirmed, which ends where the loop as written stops, is exactly [0], with nothing removed |
| InteractiveRepair.AllConfirmedReadsPositionMinusOne | AgreementMakerLight/src/aml/filter/InteractiveRepairer.java:67-81 | The loop as written, with one conflict set {1, 2} and an oracle that accepts everything, asks about mapping 1 and then mapping 2, then reaches the read at position -1 |
| InteractiveRepair.AllConfirmedAsksEveryMember | AgreementMakerLight/src/aml/filter/InteractiveRepairer.java:67-82 | The corrected loop on the same input asks about mapping 1 and then mapping 2, stops, and returns the alignment unchanged |
| InteractiveRepair.ConfirmedZeroStopsLoop | AgreementMakerLight/src/aml/filter/InteractiveRepairer.java:67-82 | One conflict set {0, 1} and an oracle that accepts everything: the loop as written asks only about mapping 0, ends normally and returns the alignment unchanged. Confirming mapping 0 already makes `correct` contain the only live conflict-set index, 0 |
| InteractiveRepair.SharedMemberRejected | AgreementMakerLight/src/aml/filter/InteractiveRepairer.java:54-93 | Conflict sets {0, 1} and {1, 2, 3} over four mappings, with an oracle that rejects only mapping 1. The loop as written asks only about mapping 1 and returns mappings 0, 2 and 3 in order |

## Left out

- Computing the conflict sets (`RepairMap`, lines 59-60) is not part of this model. `Repair` takes the conflict sets as input, with the source's precondition that they name only positions of the alignment.
- `AML.getInstance`, `URIMap.getURI` and `Oracle.check` (lines 57-58, 70-73) are not part of this model. Resolving ids to URIs and the oracle's own logic become one total function from (source id, target id, relationship) to a verdict. An oracle whose answer to the same question changes during a run is not modelled.
- Console output and timing (lines 64-65, 89-91) are left out, because they do not affect the result.
- `Table2List` keeps its entries as lists. The model keeps them as sets, because `init` never adds the same pair twice. The repairer reads entry sizes (lines 106, 139), copies an entry into a `HashSet` (line 134), iterates entries (line 137) and removes single values (line 142). With no duplicate in an entry, a list and a set behave the same for all of these, except for iteration order, which the next line covers.
- Java's `HashMap`/`HashSet` iteration order is not modelled. Every loop over a key set picks an arbitrary remaining element. Among candidates with equal count and equal similarity, `GetWorstMapping` may return any one of them.
- Similarity is a Java `double`. The model uses a real number, and only `<` is applied to it.
- `aml.match.MappingRelation` is not part of this model. The repairer only passes it to the oracle, so `Relation` stands in for it unexamined.
- The `Alignment` class's other operations are left out. The model uses only reading by position, size, and adding at the end.
- An exception is modelled only for the one the loop can reach, `toRepair.get(-1)` on line 70: it is the `IndexOutOfRange(-1)` outcome. The reads on lines 106-108 and 137-139 are proved always to find their entry.
- The inner loop of `remove` (lines 137-143) is a separate method, `DetachConflict`, so that each proof stays small. The behaviour is unchanged.

## Findings

| source | as written | input that shows it | evidently intended | confidence | as-written member | corrected member |
|---|---|---|---|---|---|---|
| AgreementMakerLight/src/aml/filter/InteractiveRepairer.java:80 | The loop stops when `correct` (mapping indices) contains every live conflict-set index, which is a different kind of index. If every listed mapping is confirmed and this test does not fire, `getWorstMapping` returns -1, and line 70 calls `toRepair.get(-1)`, which throws | alignment of 3 mappings, one conflict set {1, 2}, an oracle that accepts every mapping: after 1 and 2 are confirmed, `correct` = {1, 2} does not contain conflict-set index 0 | stop once every mapping still in a live conflict set is confirmed (`correct` contains the key set of `mappingConflicts`), so a candidate always exists | high; not executed | InteractiveRepair.AllConfirmedReadsPositionMinusOne | InteractiveRepair.AllConfirmedAsksEveryMember |
