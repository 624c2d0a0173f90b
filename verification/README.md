# Replication bridge: a model in Dafny

The bridge replicates rows of an authoritative PostgreSQL source into LRMIS, a target of many tables
tied by foreign keys. A central database holds an outbox of events, a crosswalk from source row to
target id, an id sequence and a queue of administrative jobs. The SQL is plumbing; what happens between
the statements is a protocol. These modules model that protocol with tables as maps, one atomic update
for each statement, and prove what the repository's comments, tests and design promise of it, or say
exactly when the promise holds.

How the modules hang together:

- `Ordering`, `Outcomes`, `Dag`: names in dictionary order, results, directed graphs with peeling and cycles.
- `SchemaGraph` (the registry), `DeployGate` (what a mapping must supply before it may be deployed), `SafeMappings`
  (which deployable mappings never leave a gap).
- `Store` (both databases as a state, and the statements on them), `Writer` and `Deletion` (one source row
  across the tables, and back out again), `Delivery` (mapping a payload, references between entities, one
  event, a whole refresh), `GenericWriter` and `GenericAgreement` (the second writer, and when it does as the first).
- Theorems about the writer: `Integrity`, `DeliveryIntegrity` (foreign keys stay live), `ByTable` and
  `Idempotence` (a write taken apart table by table; delivering twice), `Ownership`, `RefreshOwnership`,
  `RefreshTwice`, `RefreshRenamed`, `CleanRuns`, `Orphans`, `TargetRebuild` (which rows belong to whom, over whole
  runs, crashes and rebuilds included).
- `Outbox`, `OutboxSafety`, `DeliveryWorker`, `Backoff`: the delivery protocol between the two databases, what it
  guarantees over whole runs, the worker that follows it, retries over those same runs. `EndToEnd` joins the
  protocol to the rows: what a committed status says about the committed target.
- `JoinPlanner`, `ViewPlan`: the join planner of the flattening views.
- `SchemaDrift`, `SchemaContract`: schema comparison and the fingerprinted contract of an entity.
- `AgentStream`, `AgentStreamEvents`, `TornFrames`: the incremental reader of the chat stream. `Jobs`,
  `JobRunner`: the job queue and its runner. `BackupScan`: the search for a marker in a backup file.

Code that updates state step by step is a class or a method with loops, each proved equal to a function of
the old state; the theorems are about those functions. Values the model takes as given are parameters:
transforms and reference identifiers (`Codec`), JSON parsing, type normalisation, the verdict of delivering an
event, the clock. A reference identifier is any function of the payload; nothing proved here needs it to be
injective, except where a lemma asks for distinct references outright. Section 5.5 of RFC 9562 is what the
repository uses for it.

Where the code and its description differ, the code is what is modelled:

- A death between the target's commit and the central one delivers an event twice
  (`OutboxSafety.DeathBetweenCommitsDuplicates`). It leaves a row without an entry exactly when some generated table of
  the fan-out had no live entry for the source row (`Orphans.DeathOrphansIff`, for a batch
  `Orphans.BatchDeathOrphansIff`), and no later write, delete, refresh or rollback removes that row or names it again
  (`Orphans.DeathOrphansForever`, `Orphans.RefreshSparesOrphan`).
- The generic writer trusts a stale crosswalk entry, the first writer heals it; the two agree on a table exactly
  when the entry is live (`GenericWriter.TablesAgreeIffEntryLive`). A key the payload carries for a table without
  generated keys parts them in almost every case (`GenericWriter.CarriedKeysAgreeIff`);
  `GenericAgreement.RowsAgreeIff` puts the tables together.
- A station matched by its own key takes all other columns of the payload on the second delivery, not only
  the nulls (`Idempotence.MatchedByKeyTakesPayload`); one matched by its natural key loses just the columns the
  payload carries as null.
- The deploy gate accepts a required foreign key whose parent is only seeded, one that is itself mapped (delivery
  drops the mapping) and one onto its own table; each of the three can leave the delivered row without it
  (`DeployGate.GapsLeaveRequiredEmpty`). `DeployGate.DeliveredCompleteIffFed` says for which deliveries the rows are
  complete, `SafeMappings.AlwaysCompleteIff` for which mappings they always are.
- A target rebuild restarts ids without clearing the crosswalk. Afterwards deletes keep to the entity's own rows
  exactly when the crosswalk had no entry for a table with generated keys (`TargetRebuild.RebuildHarmlessIff`).
- A finished job can change its status as long as its thread is still to start or at work, or has reported success
  and not yet left (`Jobs.FinishedFlipsIff`), and a job whose first event cannot be written stays running as long as
  the process lives and blocks its scope (`Jobs.OrphanBlocksItsScope`), although the reaper is described as
  preventing a job from running forever. Every other running job can get free (`Jobs.StuckIffOrphan`).
- The blocks and the buffer of the stream reader depend on where the network cuts the text exactly when a CR stands
  before a CR LF (`AgentStream.ChunkInvariantIffNoCrBeforeCrLf`). Its events do not, unless some line holds two or more
  CRs and nothing else before its LF (`AgentStreamEvents.CalmEventsAreChunkInvariant`); with such a line inside a frame
  some cut loses the event, and with no other (`TornFrames.FrameIsSafeIffCalm`). Events and comments sent on
  one line each never contain one (`AgentStream.FramesArrive`).

## Model

| member | source | states |
|---|---|---|
| `Dag.PeelSucceedsIffAcyclic` | src/lrmis_registry.py:376-393 | Taking ready tables one after another lists all of them, parents first, if and only if the graph has no cycle other than self-loops; otherwise what is left over contains a cycle. |
| `Dag.PeelIsLeast` | src/lrmis_registry.py:376-388 | No listing with parents first comes before this one in dictionary order. |
| `Ordering.LessIs` | src/lrmis_registry.py:376 | Dictionary order: the smaller character at the first difference decides, else the shorter name comes first. |
| `Dag.ReachableInside` | src/lrmis_registry.py:315-328 | A set closed under parents that holds the starting parents holds everything reachable. |
| `SchemaGraph.FkClosure` | src/lrmis_registry.py:315-328 | The closure holds exactly the tables reachable over one or more foreign keys that are not self-references, whichever member the frontier pops, and the loop ends. |
| `SchemaGraph.FirstFlagged` | src/lrmis_registry.py:80-90 | The key is the first column flagged as key, the generated column the first flagged so, and there is none only if none is flagged. |
| `SchemaGraph.FollowForeignKeys` | src/lrmis_registry.py:321-327 | One popped table adds exactly its parents not met before. |
| `SchemaGraph.SeedTables` | src/lrmis_registry.py:330-336 | The seeds are the closure without the write set, sorted. |
| `SchemaGraph.SeededWriteSetIsLeastClosed` | src/lrmis_registry.py:330-336 | Write set plus seeds is closed under foreign keys and contained in every closed superset of the write set. |
| `SchemaGraph.OrderIsLeastParentsFirst` | src/lrmis_registry.py:352-393 | The order is refused exactly for a cycle other than a self-loop, and names one; otherwise it is a permutation with parents first and the least such in dictionary order, so it depends on the set alone. |
| `SchemaGraph.BuildGraph` | src/lrmis_registry.py:361-374 | Children sets and counts agree with the foreign keys inside the selection, self-references and repeated parents counted once. |
| `SchemaGraph.LinkChild` | src/lrmis_registry.py:365-374 | A child is hung under each selected parent once and its count is the number of distinct parents. |
| `SchemaGraph.ReleaseChildren` | src/lrmis_registry.py:382-387 | After a table is listed, the counts of its children and the queue are those of the tables left. |
| `SchemaGraph.PeelQueue` | src/lrmis_registry.py:376-388 | The queue loop lists tables exactly as peeling the least ready table each time does. |
| `SchemaGraph.PopHead` | src/lrmis_registry.py:378-387 | One turn of the loop keeps counts, queue and order in step with what is left. |
| `SchemaGraph.TopologicalOrder` | src/lrmis_registry.py:352-393 | For duplicate-free names the result is the order of their set, or the cycle error; an unknown name is reported as such. |
| `DeployGate.GroupByTable` | src/lrmis_writer.py:61-69 | Each written table is listed once, in order of first appearance, and its group is the subsequence of the mappings onto it. |
| `DeployGate.Coverage` | src/services/lrmis_mapping.py:90-134 | The report is ok if and only if for every written table it is known, and so are its mapped columns; each column with neither null, default nor generated number is mapped, a foreign key or an allocated key; and each foreign key onto another table that takes neither null nor default is mapped or has its table written or seeded. The report lists, in order, the entry of each table, the unknown tables and all foreign keys that want a parent. |
| `DeployGate.DeployableIff` | src/services/lrmis_mapping.py:90-134 | The same condition for the gate as the other theorems use it. |
| `DeployGate.MustSupplyIff` | src/services/lrmis_mapping.py:35-51 | A mapping must supply exactly the columns with neither null, default nor generated number that are no foreign key and not the key of an app-assigned table. |
| `DeployGate.SystemHandledIff` | src/services/lrmis_mapping.py:35-43 | Filled by the system are exactly the foreign keys and the key of an app-assigned table. |
| `DeployGate.UnsatisfiableKeys` | src/services/lrmis_mapping.py:118-132 | Lists exactly, and in the order of the table, the required foreign keys onto other tables that are neither mapped nor have a written or seeded parent. |
| `DeployGate.MustSupplyIsFillable` | src/services/lrmis_mapping.py:46-51 | A column the mapping must supply is one that delivery does not drop as managed by the writer. |
| `DeployGate.SuppliedInsertsComplete` | src/lrmis_writer.py:284-328 | If the fan-out supplies what mappings must and each required foreign key is filled or has its parent in the fan-out, every row a write inserts has all required columns, and no table is unknown. |
| `DeployGate.DeployableIsSafe` | src/services/lrmis_mapping.py:90-134 | A mapping that passes the gate, with clean non-null values and every required foreign key of the resolved fan-out filled or with another table of the fan-out as parent, lists no transform error, meets no unknown table and inserts no row lacking a required column. |
| `DeployGate.DeployableCarries` | src/services/lrmis_mapping.py:90-134 | With clean non-null values, what a mapping that passes the gate is delivered as names known tables only and carries every required column other than keys and foreign keys, without a transform error. |
| `DeployGate.CompleteIffFed` | src/lrmis_writer.py:198-208 | When a write that carries those columns goes through, the row it inserts into a table is complete if and only if each required foreign key there has a value in the fan-out or another table of the fan-out as parent. |
| `DeployGate.DeliveredCompleteIffFed` | src/lrmis_delivery.py:268-309 | For a mapping that passes the gate, clean values and an event that is delivered: every row the delivery inserts is complete if and only if each required foreign key of each table a row goes into is filled in the resolved fan-out or has another of its tables as parent. |
| `DeployGate.OpenGateIsAccepted` | src/services/lrmis_mapping.py:90-134 | Behind an open gate, with clean values and every table fed, an engine that asks for a value in each column with neither null, default nor generated number takes every row a delivery inserts. |
| `DeployGate.MissingIsRefused` | src/services/lrmis_mapping.py:46-51 | Each column the report lists as missing is mapped and filled by nobody, and such an engine refuses every row without it. |
| `DeployGate.FedIff` | src/lrmis_writer.py:198-208 | A table is fed if and only if each such column under a foreign key, the allocated key excepted, has a value in the fan-out or another of its tables as parent. |
| `DeployGate.GapsLeaveRequiredEmpty` | src/services/lrmis_mapping.py:118-132 | For each of three gaps, a parent that is only seeded, a foreign key that is itself mapped and a key onto its own table: a mapping passes the gate, its event is delivered for any clean values, and the row inserted has nothing in the required column. |
| `SafeMappings.FanIsWriteSet` | src/lrmis_delivery.py:87-234 | With clean values, a mapping that gives every written table a value of its own delivers to exactly the tables it writes. |
| `SafeMappings.GapIsReached` | src/services/lrmis_mapping.py:118-132 | A required foreign key without another written table as parent is left empty by some delivery that goes through, from some state with some clean payload. |
| `SafeMappings.AlwaysCompleteIff` | src/services/lrmis_mapping.py:90-134 | For such a mapping that passes the gate, over a schema without cycles among the written tables: no delivery with clean values, from any state, inserts an incomplete row if and only if each required foreign key of a table it may insert into has another written table as parent. |
| `Store.First` | src/lrmis_writer.py:186-191 | The matched row is one of the matches and the least of them by key. |
| `Store.FirstIsSmallest` | src/lrmis_writer.py:186-191 | Numbers go by size and texts in dictionary order: the matched key is the smallest number, or the first text when all are texts. |
| `Store.Connections.CrosswalkLookup` | src/lrmis_writer.py:84-96 | Returns the entry recorded under the full key, or none. |
| `Store.Connections.CrosswalkRecord` | src/lrmis_writer.py:99-114 | An upsert: afterwards this key names this id and nothing else changed. |
| `Store.Connections.AllocateId` | src/lrmis_writer.py:128-145 | Hands out the start value first and one more than the last after that, and changes nothing but the sequence. |
| `Store.Connections.RowExists` | src/lrmis_writer.py:232-244 | True exactly when the table has a row under the key. |
| `Store.Connections.Insert` | src/lrmis_writer.py:211-219 | The row gets the counter as its key and the counter moves on. |
| `Store.Connections.InsertExplicit` | src/lrmis_writer.py:277-279 | Refused when the key is taken, and then nothing changes. |
| `Store.Connections.Update` | src/lrmis_writer.py:222-229 | Changes the named columns other than the key of the one row, if it exists. |
| `Writer.FillForeignKeys` | src/lrmis_writer.py:198-208 | Only foreign keys still null are filled, each from the id of its parent in this write, never from the table itself. |
| `Writer.ResolveReferenceId` | src/lrmis_writer.py:152-191 | A key in the payload decides alone; without one a row is found if and only if some other column of the payload has a value and some row has every value the payload carries, and it is such a row; the databases are left alone. |
| `Writer.ResolvesIff` | src/lrmis_writer.py:152-191 | The same for the lookup as such, and of several such rows the least by key. |
| `Writer.WriteAppAssignedRow` | src/lrmis_writer.py:247-281 | Refines the specification: a live entry is updated; otherwise a row is matched and recorded without an update; otherwise one is created under a fresh reserved id. |
| `Writer.WriteGeneratedRow` | src/lrmis_writer.py:314-326 | Refines the specification: a live entry is updated; a stale or missing one leads to an insert and a new record. |
| `Writer.WriteInOrder` | src/lrmis_writer.py:303-328 | The loop over tables refines the recursive specification, stopping at the first failure with the state reached. |
| `Writer.WriteSourceRow` | src/lrmis_writer.py:284-328 | Refines the specification of a whole write, unknown tables and cycles included. |
| `Integrity.WriteRowKeepsIntact` | src/lrmis_writer.py:284-328 | Where every foreign-key value named a row before, it does after a write, whether the write succeeds or fails part way; no row disappears and every returned id names a row. |
| `Integrity.ApplyKeepsLive` | src/lrmis_writer.py:198-208 | Filling foreign keys from parents that exist leaves only null or live foreign keys. |
| `Integrity.ResolvedExists` | src/lrmis_writer.py:152-191 | A resolved reference names a row that exists. |
| `Integrity.AssignedSafe` | src/lrmis_writer.py:247-281 | Writing an app-assigned row, matched, updated or created, keeps foreign keys live. |
| `Integrity.GeneratedSafe` | src/lrmis_writer.py:314-326 | Writing a generated row keeps foreign keys live. |
| `ByTable.WriteOneLocal` | src/lrmis_writer.py:303-326 | What a write does to one table is determined by that table's rows, counter, sequence and crosswalk entry, and it disturbs no other table. |
| `ByTable.WriteRowByTable` | src/lrmis_writer.py:284-328 | A write of many tables succeeds exactly when there are ids consistent with every table's own part taken from the state before; it then leaves each table as its own part says. |
| `Idempotence.RedeliveryIsIdempotent` | src/lrmis_writer.py:247-328 | A second write of the same row returns the same ids, inserts and allocates nothing, keeps every crosswalk entry and every table, except that a row matched the first time now takes the payload. |
| `Idempotence.MatchedRowLosesNullColumns` | src/lrmis_writer.py:257-275 | A row matched by its natural key changes in exactly the columns the payload carries as null, which are cleared. |
| `Idempotence.MatchedByKeyTakesPayload` | src/lrmis_writer.py:160-175 | A row matched by a key in the payload takes every other column of the payload on the second delivery. |
| `Deletion.DeleteFrom` | src/lrmis_writer.py:369-380 | Deletes the listed rows of one table and counts them, or is refused while a remaining row points at them. |
| `Deletion.DeleteInOrder` | src/lrmis_writer.py:360-380 | Tables are emptied from the end of the parents-first order, tables without a key skipped. |
| `Deletion.DeleteEntityRows` | src/lrmis_writer.py:335-386 | Refines the specification: rows named by the entity's entries go, then the entries. |
| `Deletion.DeletesExactlyOwned` | src/lrmis_writer.py:335-386 | A delete that goes through removes from each table exactly the rows the entity's entries name there, touches no reference table, forgets exactly those entries and changes nothing else. |
| `Deletion.DeletesExactlyNamed` | src/lrmis_writer.py:335-386 | A row goes if and only if the table generates its keys and some entry of this entity towards this target names it; the others stay as they were. |
| `Deletion.DeleteReports` | src/lrmis_writer.py:369-386 | The report names exactly the tables with such entries, each with the number of rows that went. |
| `Deletion.DeleteEntityKeepsIntact` | src/lrmis_writer.py:335-386 | Foreign keys stay live, also when the delete is refused part way. |
| `Deletion.DeleteEntityNeverRefused` | src/lrmis_writer.py:357-380 | Children go before parents: if only the entity's own rows point at its rows, no delete is refused. |
| `Delivery.BuildValuesByTable` | src/lrmis_delivery.py:87-126 | Refines the specification of applying mappings: skipped, dropped, failed and cut to width as the code does. |
| `Delivery.ProbeEntities` | src/lrmis_delivery.py:142-177 | Asks each entity with entries for the table until one names a row that exists. |
| `Delivery.ResolveCrossEntityFks` | src/lrmis_delivery.py:180-234 | Refines the specification of resolving references between entities, the unresolved ones listed. |
| `Delivery.Deliver` | src/lrmis_delivery.py:268-309 | Refines the specification of one event, audit envelope and error results included. |
| `Delivery.Refresh` | src/lrmis_delivery.py:312-355 | Refines the specification of a refresh, its report included. |
| `DeliveryIntegrity.BuiltFromMappings` | src/lrmis_delivery.py:87-126 | Every value in the fan-out is what some applied mapping onto that column gives. |
| `DeliveryIntegrity.BuiltCoversMappings` | src/lrmis_delivery.py:87-126 | Every applied mapping whose transform succeeds fills its column, and an error is listed exactly when some applied transform fails. |
| `DeliveryIntegrity.BuiltExactly` | src/lrmis_delivery.py:87-126 | A column has a value if and only if some mapping onto it has both names and its source column, is onto neither foreign nor generated key and its transform succeeds; it is what the last such mapping gives, cut to the column. |
| `DeliveryIntegrity.FitIs` | src/lrmis_delivery.py:117-124 | Text is cut behind as many characters as its column has, and nothing else is changed. |
| `DeliveryIntegrity.BuiltLeavesManagedAlone` | src/lrmis_delivery.py:73-84 | No value lands on a generated key or a foreign key. |
| `DeliveryIntegrity.ResolvedIsLive` | src/lrmis_delivery.py:180-234 | Every reference injected names a row that exists. |
| `DeliveryIntegrity.HitsIff` | src/lrmis_delivery.py:142-177 | An entity answers for a referenced row if and only if its entries record an id for that reference and the row is still there; that id is injected, the least if its entries differ. |
| `DeliveryIntegrity.ForeignKeyFirst` | src/lrmis_delivery.py:180-234 | The reference of a column is the first foreign key declared on it. |
| `DeliveryIntegrity.FanoutIsLive` | src/lrmis_delivery.py:87-234 | What a row is written with has null or live foreign keys only. |
| `DeliveryIntegrity.DeliverKeepsIntact` | src/lrmis_delivery.py:268-309 | For any payload, mappings and crosswalk, stale entries included, delivery keeps an intact target intact, succeed or fail, and removes no row. |
| `DeliveryIntegrity.RefreshKeepsIntact` | src/lrmis_delivery.py:312-355 | A refresh keeps an intact target intact, and rows written plus rows failed make up the source rows. |
| `Ownership.WriteRowAdvances` | src/lrmis_writer.py:284-328 | A write, also one that fails, never lowers a counter and records generated tables only under its own source row, with ids it just drew. |
| `Ownership.RollbackUndoes` | src/worker.py:91-96 | A rollback undoes everything since the last commit of its side, the counters of the target excepted, and leaves the other side alone. |
| `Ownership.CommitLasts` | src/worker.py:91-96 | What was committed comes back with every later rollback. |
| `Ownership.StepTraced` | src/lrmis_writer.py:99-114 | Each step of a run keeps: every entry of a generated table, working or committed, names an id drawn for that very source row. |
| `Ownership.RunTraced` | src/lrmis_writer.py:314-326 | The same over every run of writes, deletes, foreign inserts, commits and rollbacks on either side. |
| `Ownership.DeleteShrinks` | src/lrmis_writer.py:335-386 | A delete, refused part way or not, removes only rows the entity's entries name and only forgets entries. |
| `Ownership.DeleteReachesOwnRowsOnly` | src/lrmis_writer.py:335-386 | After any run from a fresh world, every row a delete removes was generated by a write of that same entity: none of another entity, none from elsewhere, none of a reference table. |
| `RefreshOwnership.WriteEffect` | src/lrmis_writer.py:303-326 | A successful write adds one row under the next id to each generated table, or updates its own row there, and leaves other tables and entries alone. |
| `RefreshOwnership.WriteKeepsTight` | src/lrmis_writer.py:314-326 | A write leaves no orphan: each live generated row is still named by the entry of the source row it was made for. |
| `RefreshOwnership.DeleteClears` | src/lrmis_writer.py:335-386 | A delete that goes through leaves no entry of the entity for generated tables and no orphan. |
| `RefreshOwnership.RefreshIsARun` | src/lrmis_delivery.py:330-355 | The row loop of a refresh is a run of successful writes, as many as the report says were written. |
| `RefreshOwnership.RefreshOwnsExactly` | src/lrmis_delivery.py:312-355 | After a refresh with distinct references the entity owns exactly one row for each generated table of each written source row, the crosswalk names exactly those, and no other live generated row is the entity's. |
| `RefreshOwnership.FilledColumn` | src/lrmis_writer.py:198-208 | A column of a written row holds its mapped value, or the id of a parent one of its foreign keys names. |
| `RefreshOwnership.SameUpToIds` | src/lrmis_writer.py:303-326 | Two placements of the same values differ in a column only where it is the generated key or the id of the same parent. |
| `RefreshOwnership.RefreshTwiceSame` | src/lrmis_delivery.py:312-355 | If two refreshes in a row make the same writes, the second leaves the same rows for every source row up to a renaming of generated ids, and no others. |
| `RefreshTwice.SameResolution` | src/lrmis_delivery.py:180-234 | References between entities resolve alike in two states that agree on every table the mappings do not write, when no foreign key a mapping fills points at one they do. |
| `RefreshTwice.SecondWritesSame` | src/lrmis_delivery.py:330-355 | When no foreign key a mapping fills points at a table the mappings write, a second refresh of the same rows makes the same writes as the first, starting from any sound target. |
| `RefreshTwice.RefreshTwiceIsOnce` | src/lrmis_delivery.py:312-355 | Under that condition on the mappings, two refreshes that go through make equal writes and leave the same rows for every source row up to a renaming of generated ids, and no other generated rows of the entity. |
| `RefreshRenamed.ResolutionAlike` | src/lrmis_delivery.py:180-234 | In two states that differ only in which ids the entity's own entries name, references resolve alike, each to the same id or to ids of one entry. |
| `RefreshRenamed.DeletedAlike` | src/lrmis_writer.py:335-386 | Deleting what a refresh wrote leads back to a state like the one it started from. |
| `RefreshRenamed.RowsAlike` | src/lrmis_delivery.py:330-355 | From two such states, two refreshes that go through write the same source rows with values that differ by the renaming, and end in two such states. |
| `RefreshRenamed.RefreshTwiceIsOnceRenamed` | src/lrmis_delivery.py:312-355 | The same result with references into tables the entity itself writes, app-assigned ones excepted: two refreshes that go through write the same source rows, the entries pair off the ids of the two states one to one, and each generated row differs only in its key, in ids so paired and in ids of its parents. |
| `CleanRuns.RowKeepsNamed` | src/lrmis_writer.py:303-326 | A write, also one that fails part way, removes no row and changes no entry that names a live generated row. |
| `CleanRuns.FailedWriteKeepsSound` | src/worker.py:67-71 | After an event that failed between two tables of its write or after it, the target part rolled back and the crosswalk entries kept, every live generated row still has its entry. |
| `CleanRuns.TurnKeepsInStep` | src/worker.py:50-84 | Work that goes through, a commit on either side, an event that fails between two tables of its write or after it, a foreign row, and a death while the target is not ahead of the central database each leave both databases sound. |
| `CleanRuns.CleanRunsStayInStep` | src/worker.py:99-122 | Over every run in which no process dies between a target commit and the central one, no orphan appears and the hypothesis of the refresh theorems holds. |
| `CleanRuns.FreshIsInStep` | src/lrmis_writer.py:314-326 | A target nothing was delivered to is sound, whatever rows it already holds. |
| `Orphans.DeathOrphansIff` | src/worker.py:76-116 | From a sound world, dying between the two commits of a delivery leaves the databases sound if and only if every generated table of its fan-out already had an entry for the source row that names a live row. |
| `Orphans.BatchDeathOrphansIff` | src/worker.py:99-122 | With a whole batch of deliveries committed in the target, a death before the central commit leaves the databases sound if and only if each of them had, before the batch, a live entry in every generated table it writes. |
| `Orphans.OrphanStays` | src/lrmis_writer.py:284-386 | Over every run of writes, partial writes, deletes, commits, rollbacks and foreign rows, a committed generated row no entry names stays, and stays unnamed. |
| `Orphans.DeathOrphansForever` | src/worker.py:82-116 | The row such a death leaves, also where the entry was stale, stays after every later run, no delete of any entity removes it, and the databases are never sound again. |
| `Orphans.RefreshSparesOrphan` | src/lrmis_delivery.py:312-355 | No later refresh of any entity removes such a row, also when it fails part way. |
| `TargetRebuild.RunNumbered` | src/lrmis_writer.py:211-219 | After every run, entries of generated tables name ids from one on. |
| `TargetRebuild.RebuildHarmlessIff` | scripts/init_lrmis_target.py:118-172 | After a rebuild, in every run each row a delete removes was generated by a write of that same entity, if and only if the crosswalk, working and committed, had no entry for a table with generated keys. |
| `TargetRebuild.RebuildAfterRun` | scripts/init_lrmis_target.py:118-172 | The same for the state any run of a bridge has left by the time of the rebuild. |
| `GenericWriter.Writing.WriteAppAssignedRow` | src/delivery/writer.py:184-207 | Refines the specification of the generic writer for an app-assigned table. |
| `GenericWriter.AppAssignedIff` | src/delivery/writer.py:44-52 | Rows may be created under allocated ids in the tables named so and, where the configuration says so, in every table without generated keys that is not a lookup. |
| `GenericWriter.NonAutoIsCreated` | src/delivery/writer.py:184-206 | Under such a configuration a row nothing matches is created under the next id; without it the write fails and changes nothing. |
| `GenericWriter.Writing.WriteCarriedRow` | src/delivery/writer.py:230-245 | Refines the specification for a table whose key the payload carries. |
| `GenericWriter.Writing.WriteTable` | src/delivery/writer.py:220-270 | Refines the specification of one table: trusted entry, carried key, lookup or insert. |
| `GenericWriter.Writing.WriteInOrder` | src/delivery/writer.py:217-271 | The loop over tables refines the recursive specification. |
| `GenericWriter.Writing.WriteRow` | src/delivery/writer.py:209-271 | Refines the specification of a whole generic write. |
| `GenericWriter.TablesAgreeIffEntryLive` | src/delivery/writer.py:184-271 | Without a carried key the two writers do the same to a written table if and only if no stale crosswalk entry is in the way; lookup tables they always treat alike. |
| `GenericWriter.CarriedKeysAgreeIff` | src/delivery/writer.py:229-245 | With a carried key the two agree on a lookup always, on an app-assigned table exactly when a live entry is recorded, and on any other table exactly when the entry names the carried key and that row already holds every value of the payload. |
| `GenericWriter.StaleEntryDiverges` | src/delivery/writer.py:262-264 | A stale entry makes the generic writer return the dead id and write nothing. |
| `GenericWriter.GenericRefinesFirst` | src/delivery/writer.py:209-271 | With live entries, and no carried keys but those of lookups and of recorded app-assigned rows, the generic writer under the LRMIS plugin is the first writer: same target, crosswalk, sequence, ids and errors. |
| `GenericAgreement.DisagreementShows` | src/delivery/writer.py:184-271 | Where a table does not meet the condition, the writers differ in what they return for it or in its own rows, entry or counters. |
| `GenericAgreement.RowsAgreeIff` | src/delivery/writer.py:209-271 | Where the first writer goes through, the generic one gives the same target, crosswalk, sequence and ids if and only if every table, with the values it is written with, meets the condition for its kind in the state before the write. |
| `Outbox.StepInv` | src/worker.py:50-122 | Every step of every worker keeps the invariant: batches agree with committed rows, no event is held twice, every target commit is accounted for. |
| `OutboxSafety.RunInv` | src/worker.py:99-122 | The invariant over every interleaving. |
| `OutboxSafety.ProtocolIsSafe` | src/integration_store.py:19-36 | In every interleaving with deaths anywhere: committed rows are never processing, a delivered one has its fan-out committed in the target, no two workers hold an event, and what is held is claimable again after a death. |
| `OutboxSafety.EventsStay` | src/integration_store.py:97-133 | No event ever disappears from the outbox. |
| `OutboxSafety.TargetCommitsExplained` | src/worker.py:76-122 | The target commits an event once for each confirmed delivery, once for each batch that died after that commit, and once while in flight; so without deaths there and replays, once exactly when delivered. |
| `OutboxSafety.DeliverOneRuns` | src/worker.py:76-84 | An idle worker can take any claimable event to the point between the two commits. |
| `OutboxSafety.DueIsDelivered` | src/worker.py:76-116 | An event that is pending or in retry, due and in no open batch can be taken up by any idle worker and ends delivered, one attempt and one target commit more, and nothing else changed. |
| `OutboxSafety.EnqueuedIsDelivered` | src/services/onboarding.py:744 | From any reachable state an event that is enqueued can be delivered at once. |
| `OutboxSafety.ReplayedIsDelivered` | src/integration_store.py:136-146 | So can one that is replayed after it was delivered, quarantined or dead-lettered, with attempts counted anew. |
| `OutboxSafety.RetriedIsDelivered` | src/integration_store.py:19-36 | So can one in retry, once its wait is over. |
| `OutboxSafety.DeathBetweenCommitsDuplicates` | src/worker.py:82-116 | From any state with a claimable event, a death between the commits and one more pass commit its fan-out twice. |
| `OutboxSafety.ReturnedCountersBalance` | src/worker.py:99-122 | When a pass returns, claimed equals delivered plus quarantined plus retried, and the committed rows say which. |
| `EndToEnd.DeliveryLands` | src/lrmis_delivery.py:268-309 | A delivery that goes through lands on at least one table, on rows that are there, files the envelope and removes no row and no other envelope, whatever crosswalk and counters its worker sees. |
| `EndToEnd.TurnKeepsJoined` | src/worker.py:50-122 | Each step of a worker, with the rows it writes, and each change others make keeps: one landing for each target commit, its rows still there, the envelope there exactly if anything landed. |
| `EndToEnd.StatusMatchesTarget` | src/worker.py:76-122 | Over every interleaving of workers, deaths, replays and changes by others: target references stay live; an event shown delivered has its envelope in the committed target and every row it was delivered to is still there; without replay or death between its commits, and not in flight, envelope and rows are there exactly if it shows delivered, written once. |
| `DeliveryWorker.Bridge.ClaimEvents` | src/integration_store.py:19-36 | Locks distinct events that are pending or in retry, due and in no open batch, up to the limit; if fewer, all there are. |
| `DeliveryWorker.Bridge.MarkEventDelivered` | src/integration_store.py:97-113 | One step of the protocol: delivered, one attempt more, seen by others only after the commit. |
| `DeliveryWorker.Bridge.QuarantineEvent` | src/integration_store.py:55-68 | One step of the protocol: quarantined. |
| `DeliveryWorker.Bridge.RetryOrDeadLetter` | src/integration_store.py:116-133 | One step of the protocol: retried after the delay, or dead-lettered at the last attempt. |
| `DeliveryWorker.Bridge.ReplayEvent` | src/integration_store.py:136-146 | A finished event goes back to pending with no attempts; any other is refused and left alone. |
| `DeliveryWorker.Bridge.DeliverOneEvent` | src/worker.py:50-84 | Delivering one event is a legal run of the worker's own steps that ends as the verdict says. |
| `DeliveryWorker.Bridge.DeliverAll` | src/worker.py:104-115 | The loop over the claimed events is a legal run that settles each as its verdict says. |
| `DeliveryWorker.Bridge.Commit` | src/worker.py:116 | The batch's writes become visible at once and its locks are released. |
| `DeliveryWorker.Bridge.ProcessOnce` | src/worker.py:99-122 | A pass is a legal run; below the limit it claims every event that is pending or in retry, due and in no open batch; each claimed event ends as its verdict says and is counted once, and the target commits exactly the delivered ones once more. |
| `Backoff.DeadLetteredOnNthClaim` | src/integration_store.py:116-133 | In a legal run in which every committed batch holding a new event failed it and nobody replays it, its attempts are the number of those batches, however many claims died with their worker; it is dead-lettered exactly when that number reaches the maximum, which it never passes. |
| `Backoff.ReplayRestoresBudget` | src/integration_store.py:136-146 | From the moment of a replay in any legal run the same holds again: the whole budget, counted from zero. |
| `Backoff.FailuresCount` | src/integration_store.py:116-133 | From any reachable state and whatever other events and workers do, each committed failing batch adds one attempt, an untouched event keeps its row, and dead-lettered means the attempts have reached the maximum. |
| `Backoff.ClaimWaitsOutDelay` | src/integration_store.py:19-36 | In every legal run, a claim of an event in retry comes at least the delay of its attempts after the very step at which it failed last. |
| `Backoff.FailuresTakeTime` | src/integration_store.py:19-36 | In every legal run, by the time an event has failed n times the clock has gone through the sum of the first n - 1 delays since it was first due. |
| `Backoff.SoonestDeadLetter` | src/integration_store.py:116-133 | From any state with an idle worker and a claimable event without attempts there is a legal run that dead-letters it after exactly that sum, so no larger lower bound on the time holds. |
| `Backoff.DelaysGrowWithinBounds` | src/integration_store.py:117-120 | Delays never shrink and lie between 30 and 3600 seconds. |
| `Backoff.TotalDelayBounded` | src/integration_store.py:117-120 | That sum is at least 30(n - 1), at most 15(2^n - 2) and at most 3600(n - 1), and meets 15(2^n - 2) exactly up to eight attempts. |
| `JoinPlanner.TreeIsShortestPaths` | src/services/view_proposer.py:174-206 | The search reaches exactly the tables foreign keys connect to the source, each by a shortest chain of joins that extends another by one edge. |
| `JoinPlanner.EdgesAreKeys` | src/services/view_proposer.py:159-173 | The edges of a table are exactly the foreign keys that touch it, read from its side, with their own columns. |
| `JoinPlanner.NeighboursAreJoined` | src/services/view_proposer.py:187-206 | Tables are neighbours if and only if a foreign key runs between them, and each foreign key joins its tables in both directions. |
| `JoinPlanner.DirectJoin` | src/services/view_proposer.py:187-206 | A table the source refers to is joined over the first key that does; one that only refers to the source, over its first key that does. |
| `JoinPlanner.FindJoinPath` | src/services/view_proposer.py:143-222 | Returns a linked chain from the source to a nearest table with the column, each edge a foreign key read forwards or backwards; only when foreign keys reach no such table, one edge from a column of the source named after a table to that table's key; else nothing. |
| `JoinPlanner.NearestFound` | src/services/view_proposer.py:181-184 | The first qualifying table visited is at the least distance. |
| `JoinPlanner.NothingFound` | src/services/view_proposer.py:178-206 | When the queue runs dry, no table foreign keys reach qualifies. |
| `JoinPlanner.DiscoverEach` | src/services/view_proposer.py:187-206 | Each neighbour not met yet joins the queue once with the path extended by its edge. |
| `JoinPlanner.GuessJoin` | src/services/view_proposer.py:208-222 | The first other table with the column whose guessed key column the source has, or nothing. |
| `JoinPlanner.NamedEdgeIff` | src/services/view_proposer.py:208-222 | A guess is possible if and only if the source has a column named after the table, in full or in the singular, the full name first. |
| `JoinPlanner.SingularIs` | src/services/view_proposer.py:216 | The singular drops a final es, else a final s, else nothing. |
| `JoinPlanner.QualifiesIff` | src/services/view_proposer.py:181-184 | Looked for is the table asked for, or any but the source, if it has the column. |
| `ViewPlan.FindPathTo` | src/services/view_proposer.py:428-432 | The path to a given table does not depend on which of its columns is wanted. |
| `ViewPlan.TreePathEdges` | src/services/view_proposer.py:187-206 | Every edge on a path is the one that brings its table in, and starts where the one before ended. |
| `ViewPlan.AddPath` | src/services/view_proposer.py:433-437 | Accumulating a path keeps the edges a legal join order with one incoming edge for each table. |
| `ViewPlan.FindColumn` | src/services/view_proposer.py:424-445 | Picks the first listed table other than the source that has the column and that a join path reaches, with that path; nothing only when there is none. |
| `ViewPlan.CollectJoins` | src/services/view_proposer.py:411-475 | Each wanted column is found exactly in the first other listed table that has it and that a join path reaches, or not at all; the edges are those of the paths to the tables found, and form a legal join order. |
| `ViewPlan.CollectedMember` | src/services/view_proposer.py:421-446 | A column of a table is found exactly when it is wanted and that table is the first joinable one for it. |
| `ViewPlan.JoinClauses` | src/services/view_proposer.py:289-305 | For a legal order no edge is refused; each table is joined once and after the table it hangs on. |
| `ViewPlan.DigitsInjective` | src/services/view_proposer.py:236-238 | Different suffixes print differently, so the alias loop ends. |
| `ViewPlan.DigitsWrite` | src/services/view_proposer.py:236-238 | A suffix is the decimal writing of its number. |
| `ViewPlan.FreeName` | src/services/view_proposer.py:231-240 | The name itself if free, else the name, an underscore and the least number from two on with which it is. |
| `ViewPlan.UniqueAliases` | src/services/view_proposer.py:225-243 | Every projected column keeps table and column and, in order, gets its own alias, with its table in front if that is taken, and the least free number behind if that is taken too; no two get the same. |
| `ViewPlan.FirstOfEach` | src/services/view_proposer.py:481-488 | Of each table and column exactly the first projection stays, in order. |
| `ViewPlan.BaseColumns` | src/services/view_proposer.py:403-409 | The source's columns are projected in order under their own names. |
| `ViewPlan.ProposeView` | src/services/view_proposer.py:389-505 | A view results exactly when some wanted column is found in a joinable table, and the join order is never refused: every table joined once after its predecessor, each clause the columns of a foreign key or a guess from the source, the joins exactly those of the paths to the tables found, the selected columns the base columns and those found with their aliases; otherwise the base columns alone, with nothing to join. |
| `ViewPlan.ClausesAreKeys` | src/services/view_proposer.py:289-306 | Every clause joins on the columns of a foreign key read forwards or backwards, or on a guess from the source to a table no foreign keys connect to it. |
| `ViewPlan.ViewIsComplete` | src/services/view_proposer.py:403-505 | Such a view selects every source column and every wanted column found, each from a joined table that has it, none twice, no two under one name. |
| `SchemaDrift.DiffColumns` | src/schema_drift.py:25-45 | For one table, exactly the columns added, removed or changed, each marked breaking exactly if it was removed, was added without taking nulls, or changed type, key or no longer takes nulls. |
| `SchemaDrift.DiffSchemas` | src/schema_drift.py:11-52 | For listings without repetition: empty if and only if both list the same tables with the same columns and attributes; otherwise exactly the tables added and removed and, in tables both list, the columns added, removed and changed, with that breaking mark. A table is marked breaking exactly when some insert valid before is not valid now or the key changed. |
| `SchemaDrift.ReportedIff` | src/schema_drift.py:11-52 | An entry is right about the two listings if and only if it is about the schemas by name. |
| `SchemaDrift.ContractHas` | src/schema_drift.py:12-26 | A schema by name has exactly the columns the listing has, with their attributes. |
| `SchemaDrift.UnbrokenIsCompatible` | src/schema_drift.py:29-45 | Without a breaking entry every insert shape valid before is valid now and keys are kept. |
| `SchemaDrift.BrokenIsIncompatible` | src/schema_drift.py:29-45 | A breaking entry has an insert that used to work and no longer does, or a changed key. |
| `SchemaDrift.RemovedIsIncompatible` | src/schema_drift.py:19-24 | A removed table or column is always incompatible. |
| `SchemaDrift.CompatibleComposes` | src/schema_drift.py:11-52 | Compatible changes compose. |
| `SchemaDrift.KeyChangesUnnoticedIff` | src/schema_drift.py:29-45 | Without a breaking entry the key is another one if and only if a nullable key column was added. |
| `SchemaDrift.PausedIffIncompatible` | src/schema_drift.py:55-64 | An entity is paused exactly when it writes a table that no longer takes what it took. |
| `SchemaContract.GroupRows` | src/schema_ingest.py:115-124 | Each table gets its rows' columns, in row order, and no table is invented or lost. |
| `SchemaContract.FromInformationSchema` | src/schema_ingest.py:115-128 | Documents exactly the tables named by the rows, sorted, each with its columns in row order; a column takes nulls where its row says yes and is key where it says so, in any case of letters, under the type read from it. |
| `SchemaContract.ColumnsAreRead` | src/schema_ingest.py:115-128 | A column is documented if and only if some row of that table reads so. |
| `SchemaContract.SchemaSubset` | src/schema_ingest.py:136-147 | Keeps exactly the documents of wanted tables, whatever their order, in that order and unchanged. |
| `SchemaContract.KeptSorted` | src/schema_ingest.py:136-147 | What is kept of a sorted schema is sorted and names exactly the wanted tables it had. |
| `SchemaContract.EntityTargetContract` | src/schema_ingest.py:158-175 | The contract documents exactly the footprint tables the rows name. |
| `SchemaContract.ContractDependsOnFootprint` | src/schema_ingest.py:158-175 | Two catalogues give the same contract if and only if each footprint table has the same columns in the same order. |
| `SchemaContract.ExchangeKeepsColumns` | src/schema_ingest.py:115-128 | Exchanging neighbouring rows of different tables changes no table's columns. |
| `SchemaContract.OutsideRowsIgnored` | src/schema_ingest.py:136-175 | Two catalogues with the same rows of footprint tables, in the same order, give the entity the same contract, whatever other rows they hold and wherever. |
| `AgentStream.ParseBlock` | web/src/api/client.ts:454-471 | Refines the specification of one block: last event line, data lines joined, nothing on a missing part or bad JSON. |
| `AgentStream.LinesJoin` | web/src/api/client.ts:457-464 | A block is its lines, none with a line end in it, joined by line ends. |
| `AgentStream.TrimIs` | web/src/api/client.ts:458-460 | Trimming takes the white space at both ends of a text and nothing else. |
| `AgentStream.ParseBuffer` | web/src/api/client.ts:473-493 | The boundary loop gives the events of the blocks of the normalised text in order, and the unfinished rest, flushed or kept. |
| `AgentStream.StreamChat` | web/src/api/client.ts:528-540 | The read loop gives the events of its chunks, the decoder's own flush last. |
| `AgentStream.SplitIsCleanCut` | web/src/api/client.ts:478-486 | No block and no rest contains a blank line, also not across the cut. |
| `AgentStream.CleanCutIsSplit` | web/src/api/client.ts:478-486 | Only this way of cutting a text at blank lines has that property. |
| `AgentStream.SplitGivesBack` | web/src/api/client.ts:478-486 | Blocks with their blank lines and the rest make up the text. |
| `AgentStream.NormalizeEarly` | web/src/api/client.ts:478 | Replacing CR LF in a prefix early changes nothing, if no CR stands before a CR LF. |
| `AgentStream.FeedKeepsWhole` | web/src/api/client.ts:538-539 | After one more chunk, blocks and buffer are those of the whole prefix read. |
| `AgentStream.CutAfterCrCrLfDiffers` | web/src/api/client.ts:478 | Cutting right after CR CR LF gives other blocks or another rest than reading at once. |
| `AgentStream.ChunkInvariantIffNoCrBeforeCrLf` | web/src/api/client.ts:528-540 | Every way of cutting a text into chunks reads the same if and only if no CR stands directly before a CR LF. |
| `AgentStream.EventsAreChunkInvariant` | web/src/api/client.ts:528-540 | For such texts the events and their order do not depend on the chunks. |
| `AgentStream.FramesArrive` | src/admin_api/agent_chat.py:51-78 | Events sent as one name and one data line, with either line end of sections 9.2.5 and 9.2.6 of the WHATWG HTML Standard and comments between, arrive exactly and in order, wherever the network cuts. |
| `AgentStream.LastFrameArrives` | web/src/api/client.ts:488-492 | An event whose closing blank line never came still arrives when the stream ends. |
| `AgentStreamEvents.CalmEventsAreChunkInvariant` | web/src/api/client.ts:528-540 | If no line of a text consists of two or more CRs before its LF, any two ways of cutting it into chunks give the same events in the same order. |
| `AgentStreamEvents.SameLinesSameEvent` | web/src/api/client.ts:454-471 | Blocks whose lines differ only in trailing CRs mean the same event. |
| `TornFrames.TornFrameIsLost` | web/src/api/client.ts:478-493 | For every frame with a line of two or more CRs between its name and its data: read at once it gives its event; cut after that line, with an empty read for each further CR, it gives none. |
| `TornFrames.FrameIsSafeIffCalm` | web/src/api/client.ts:473-493 | The events of a frame with a line of k CRs between name and data are the same for every way of cutting it if and only if k is below two, which is when no line of it holds two or more CRs before its LF. |
| `Jobs.StepForward` | src/admin_api/jobs.py:431-463 | Each step moves a row only forward, from queued to running to finished, and keeps its scope. |
| `Jobs.StepOnePerScope` | src/admin_api/jobs.py:319-350 | Each step, with check and insert taken as one, keeps at most one queued or running job for a scope. |
| `Jobs.StepStartedOnce` | src/admin_api/jobs.py:465-530 | Each step keeps that no handler starts twice. |
| `Jobs.RunIsSafe` | src/admin_api/jobs.py:431-530 | Over every interleaving of enqueue, claim, heartbeat, reap, late finish and crash: one live job for a scope, each handler started at most once, rows only forward, none lost. |
| `Jobs.RunFromFreshIsSafe` | src/admin_api/jobs.py:431-530 | The same from any table of jobs with one live job for a scope and no process running. |
| `Jobs.FinishedFlipsIff` | src/admin_api/jobs.py:509-524 | Some legal run gives a finished job another status if and only if its process still has it claimed, in the pool or at work, or it succeeded and its thread has reported that and not yet left. |
| `Jobs.SettledForever` | src/admin_api/jobs.py:509-530 | A finished job outside those stages keeps its status in every later run, and stays outside them. |
| `Jobs.LateFinishRevivesReaped` | src/admin_api/jobs.py:449-463 | A run in which a slow job is failed by the reaper and then succeeds. |
| `Jobs.BeatKeepsRunning` | src/admin_api/jobs.py:48-57 | After a claim, a report of progress or a heartbeat a job stays running through every run of at most a minute in which its own thread does not end it. |
| `Jobs.HandlersExcludeEachOther` | src/admin_api/jobs.py:482-498 | While heartbeats keep up, no two handlers of one scope are ever held at once. |
| `Jobs.AbortedStartOrphans` | src/admin_api/jobs.py:499-505 | If the first event cannot be written, no thread holds the job and the heartbeat still covers it. |
| `Jobs.OrphanBlocksItsScope` | src/admin_api/jobs.py:482-505 | Such a job stays running in every timely run of its process, is never reaped, and every new job of its scope is refused. |
| `Jobs.StuckIffOrphan` | src/admin_api/jobs.py:449-530 | A running job keeps that status in every timely run of its process if and only if no thread holds it while the heartbeat still covers it in time; for any other there is a run in which its thread finishes it or the reaper fails it. |
| `JobRunner.Runner.constructor` | src/admin_api/jobs.py:409-418 | A runner starts with no job active. |
| `JobRunner.Runner.EnqueueJob` | src/admin_api/jobs.py:319-350 | Unknown type, missing role, a conflict naming a queued or running job of the scope, or one new queued row when every job of the scope is finished. |
| `JobRunner.Runner.ClaimNext` | src/admin_api/jobs.py:431-447 | Takes a queued row none is older than and marks it running with a heartbeat now; nothing only when none is queued. |
| `JobRunner.Runner.ReapStale` | src/admin_api/jobs.py:449-463 | Exactly the running rows whose heartbeat is more than 60 seconds old are failed. |
| `JobRunner.Runner.Heartbeat` | src/admin_api/jobs.py:482-498 | Exactly the active running rows beat now. |
| `JobRunner.Runner.SubmitClaimed` | src/admin_api/jobs.py:471-475 | The claimed job becomes active and goes to the pool. |
| `JobRunner.Runner.Dispatch` | src/admin_api/jobs.py:465-480 | One turn is a run of the protocol after which nothing is queued and every job queued before is running, active and in the pool. |
| `JobRunner.Runner.RunJob` | src/admin_api/jobs.py:499-530 | A thread alone is a run of the protocol: it leaves the job succeeded exactly when handler and last event succeed, and lets go of it, unless the first event failed. |
| `BackupScan.BinaryContains` | src/services/backup_recovery.py:183-195 | True exactly when some round's chunk, with the tail of the one before, contains the needle. |
| `BackupScan.OccursIff` | src/services/backup_recovery.py:183-195 | A needle occurs if and only if the text is something, the needle and something. |
| `BackupScan.FoundOccurs` | src/services/backup_recovery.py:183-195 | Nothing is found that the part read does not contain. |
| `BackupScan.OccursFound` | src/services/backup_recovery.py:183-195 | A needle of 1 to chunk size + 1 bytes in the part read is found, across chunk ends and in a short last chunk too. |
| `BackupScan.LongNeedleMissed` | src/services/backup_recovery.py:194 | For every longer needle there is a file that contains it and is reported not to. |
| `BackupScan.ExactIffNeedleFits` | src/services/backup_recovery.py:183-195 | The search is exact for every file and limit if and only if the needle has 1 to chunk size + 1 bytes. |
| `BackupScan.DefaultSearchesThirtyTwoMiB` | src/services/backup_recovery.py:183-188 | With the default sizes a marker is found exactly when it lies in the first 32 MiB. |

## Left out

- GenericWriter.GenericRefinesFirst: values are not cast to the target dialect; casts count as the identity.
- GenericAgreement.RowsAgreeIff: no cast to the target dialect, for the same reason.
- GenericWriter.Writing.WriteRow: no cast to the target dialect, for the same reason.
- Deletion.DeleteFrom: references are checked once, after the whole statement; an engine that checks row by row may refuse a delete in which rows of one table point at each other.
- Deletion.DeleteEntityNeverRefused: assumes that only the entity's own rows point at its rows, and the check after the whole statement; rows of others refuse the delete, as the engine does.
- Integrity.WriteRowKeepsIntact: primary keys of one column, foreign keys onto primary keys and at most one foreign key for each column are taken from the target schema (`SchemaOk`).
- SchemaGraph.TopologicalOrder: names passed twice are not modelled (the source would list a ready table twice or take the surplus name for a cycle); every caller passes the keys of a dictionary or a list of distinct tables.
- DeployGate.GapsLeaveRequiredEmpty: a strict engine would refuse the row instead of storing it, for the reason that follows.
- DeployGate.DeliveredCompleteIffFed: what the engine checks beyond presence (types, ranges, uniqueness) is not modelled; an engine that refuses a missing required value turns the gap into a failed event.
- RefreshRenamed.RefreshTwiceIsOnceRenamed: both refreshes are of the same rows and mappings with nothing in between. Mapped references into an app-assigned table the entity itself writes are excepted: its rows outlive the delete, so one may resolve only the second time.
- RefreshOwnership.RefreshTwiceSame: takes the equality of the writes as given; `RefreshTwice.SecondWritesSame` derives it, `RefreshRenamed.SecondWritesRenamed` its form up to renaming.
- Ownership.RunTraced: ids are never reused, so a rebuild of the target is not a step of a run; `TargetRebuild` has it on its own.
- TargetRebuild.RebuildHarmlessIff: the rebuild goes through, which asks for a schema without cycles, and seeds only tables the bridge has no generated rows in.
- CleanRuns.TurnKeepsInStep: a write stops between two tables, not between the statements of one.
- SafeMappings.AlwaysCompleteIff: mappings that write a table through foreign keys alone, or a table without a key, are not covered.
- TornFrames.FrameIsSafeIffCalm: the exact condition is for frames with the line between name and data; for any text `AgentStreamEvents.CalmEventsAreChunkInvariant` gives one that is enough.
- SchemaDrift.UnbrokenIsCompatible: the key is compared on the columns both schemas have; `SchemaDrift.KeyChangesUnnoticedIff` says what that misses.
- Store.First: a lookup that may return any matching row (LIMIT 1 without an order) takes the one with the smallest key.
- Store.Connections.Insert: an explicit value for the auto-increment column is overwritten by the counter; the delivery path never passes one (`DeliveryIntegrity.BuiltLeavesManagedAlone`).
- Delivery.ProbeEntities: the source probes in no particular order; the model goes alphabetically.
- DeliveryWorker.Bridge.ClaimEvents: the order of claims by creation time and the per-entity enabled flag are left out; any claimable rows may be taken.
- DeliveryWorker.Bridge.DeliverOneEvent: what delivering an event comes to is a parameter here; `EndToEnd` ties it to the rows.
- EndToEnd.StatusMatchesTarget: a delivery reads and writes the target at the moment of its commit there; how the engine interleaves open target transactions is left to it. Refreshes and deletes, which take rows away, are not steps of these runs.
- DeliveryWorker.Bridge.DeliverAll: the outcomes are parameters, and the loop runs without other workers in between; all interleavings are those of `Outbox.Run`.
- DeliveryWorker.Bridge.ProcessOnce: one pass alone at one instant, as for the loop.
- Jobs.RunIsSafe: the check and the insert of a new job count as one step; two transactions interleaved between them could both insert.
- JobRunner.Runner.Dispatch: one turn alone, without an enqueue or a database error in between; the protocol has all interleavings.
- JobRunner.Runner.RunJob: a thread alone, without the finishing update itself failing; the protocol has that case as leaving without a finish.
- ViewPlan.ProposeView: the wanted columns are those left after prefixes are stripped and envelope fields skipped; proposal ids, statuses and SQL text are not modelled.
- Target ids are numbers or texts as stored; the crosswalk's conversion to text and back is taken as faithful.
- Which of several unknown tables an error names is fixed to the least.
- The column catalogue, the regular-expression reading of DDL and hashing are inputs.
- The byte decoder of the stream: chunks are already text, its own flush being the last one.
- Reading files, other than as one sequence of bytes; the search with word boundaries, which is not exact at chunk ends.
- Audit rows beyond the envelope of a delivered event, drift bookkeeping and resolution, the nightly reset, dumps and restores, migrations.
- The agent package, language model providers, routes, sessions, scripts and the user interface.
- Connection pools, cursors, SQL text and quoting.
