# Well microservice: usage counter, record store and endpoint decisions

This project models three parts of the drilling `Well` microservice in Dafny.

- **The usage counter** (`UsageStatisticsWell`). It keeps one day-bucketed history of call counts for each of seven tracked endpoints. It also keeps a `LastSaved` instant and a `BackUpInterval`. A snapshot of the whole object is written when more than the interval has passed since the last save. The process-wide instance is loaded lazily: from the snapshot file when one parses, otherwise fresh.
- **The record store** (`WellManager`). It does create, read, update and delete over one table, `WellTable(ID, MetaInfo, ClusterID, SlotID, Well)`. It has id guards, corruption checks that come back as "nothing", listing loops that stop at the first NULL cell, and all-or-nothing transactional writes.
- **The controller** (`WellController`). For each of its eight HTTP endpoints, the model records which usage counter is bumped, which store calls are made, and which status code (200/400/404/409/500) is answered.

Files:

- `wrappers.dfy`: `Option`.
- `well_model.dfy`: the record (`Well`, `MetaInfo`, 128-bit `Guid` with `EmptyGuid` = 0).
- `usage_statistics.dfy`: histories as values (`Bumped`, `Total`), the serialised state `Snapshot` with its step function `Step`, and the mutable classes `History`, `UsageStatisticsWell` and `UsageStatisticsSingleton`.
- `well_manager.dfy`: the table as a `seq<Row>`, the specification functions for each statement (`Fetch`, `TakeUntilNull`, `UsedSlots`, `UpdateRows`, `RemoveId`), and the `WellManager` class whose methods contain the reader loops and transactions.
- `well_controller.dfy`: the decision functions (`GetByIdResponse`, `PostStatus`, …), lemmas about sequences of calls, and the `WellController` class.
- `controller_scenarios.dfy`: the service tests stated as methods on fresh objects.

Modelling choices:

- A column holds SQL NULL or text. Text is represented by the value it parses to, so JSON serialisation is the identity. The JSON text `null` is `None`.
- Each store call takes an `online` flag. It stands for "a connection was obtained and the statement raised no storage error".
- The outcome of an INSERT is an explicit parameter (`Exec`). That is because whether a duplicate ID is rejected depends on a table schema this model does not have.
- Time is a tick count `now`, and the calendar day is `now / TicksPerDay`. Whether the snapshot file can be written is a `canWrite` flag. The result of reading the snapshot file is an `Option<Snapshot>`.

## Model

| member | source | states |
|---|---|---|
| WellModel.DefaultWell | Model/Well.cs:11-46 | a default record has no MetaInfo, no slot, no cluster, and `IsSingleWell` false |
| UsageStatistics.Bumped | Model/UsageStatisticsWell.cs:42-59 | one call on `today`: an empty history becomes `[(today,1)]`; if the last day is earlier, `(today,1)` is appended; otherwise only the last entry changes, keeping its date with count + 1; the length grows by at most one and earlier entries stay the same |
| UsageStatistics.BumpedTotal | Model/UsageStatisticsWell.cs:42-59 | each call adds exactly one to the total of a history |
| UsageStatistics.BumpedKeepsDaysOrdered | Model/UsageStatisticsWell.cs:42-59 | while the day never goes back, the dates stay strictly increasing (one entry per day) and the last entry is today |
| UsageStatistics.SameDayCalls | Model/UsageStatisticsWell.cs:44-57 | n calls within one day on an empty history leave the single entry `(today, n)` |
| UsageStatistics.SameDayThenRollover | Model/UsageStatisticsWell.cs:50-57 | after n calls on one day, a call on a later day keeps `(day1, n)` and appends `(day2, 1)` |
| UsageStatistics.History.Increment | Model/UsageStatisticsWell.cs:42-59 | updating the list in place gives exactly `Bumped` of the old list |
| UsageStatistics.History.constructor | Model/UsageStatisticsWell.cs:30-40 | a new history is empty |
| UsageStatistics.Fresh | Model/UsageStatisticsWell.cs:65-74 | the state of a new instance: `LastSaved` = MinValue, a five-minute interval, every history empty |
| UsageStatistics.BackupDue | Model/UsageStatisticsWell.cs:204 | the debounce test: more than the interval has passed since `LastSaved` |
| UsageStatistics.LoadOrFresh | Model/UsageStatisticsWell.cs:84-113 | the parsed snapshot if there is one; otherwise `LastSaved` = MinValue, a five-minute interval and every history empty |
| UsageStatistics.Step | Model/UsageStatisticsWell.cs:117-223 | one `Increment…PerDay` call bumps counter k's history (an empty one if it was null) and leaves every other history unchanged; `LastSaved` becomes `now` exactly when `now > LastSaved + BackUpInterval` |
| UsageStatistics.StepCountsOneCall | Model/UsageStatisticsWell.cs:117-200 | each call adds exactly one to the total over all seven histories |
| UsageStatistics.DebounceAfterSave | Model/UsageStatisticsWell.cs:204-206 | after a save at now1, no call up to now1 + interval saves again, and `LastSaved` stays now1 |
| UsageStatistics.FirstCallOnFreshSaves | Model/UsageStatisticsWell.cs:65-66 | on a fresh instance the first call on any counter triggers a save (past the first five minutes of the epoch) |
| UsageStatistics.UsageStatisticsWell.constructor | Model/UsageStatisticsWell.cs:65-74 | a new instance has seven empty histories, `LastSaved` = MinValue and a five-minute interval |
| UsageStatistics.UsageStatisticsWell.FromSnapshot | Model/UsageStatisticsWell.cs:99 | deserialising gives an instance whose state is the snapshot, null histories included |
| UsageStatistics.UsageStatisticsWell.IncrementPerDay | Model/UsageStatisticsWell.cs:117-200 | the new state is `Step(old state, k, now)`; a snapshot of the new state is written exactly when a save is due and writing can succeed |
| UsageStatistics.UsageStatisticsWell.EnsureHistory | Model/UsageStatisticsWell.cs:121-124 | a null history of counter k is replaced by an empty one; the histories of other counters are unchanged |
| UsageStatistics.UsageStatisticsWell.ManageBackup | Model/UsageStatisticsWell.cs:202-223 | `LastSaved := now` iff `now > LastSaved + BackUpInterval`, before the write and whether or not it succeeds; the write happens only then |
| UsageStatistics.UsageStatisticsSingleton.Instance | Model/UsageStatisticsWell.cs:80-115 | the first call builds the instance from `LoadOrFresh(stored)`; later calls return that same instance; the instance returned is always valid |
| WellStore.CountId | Service/Managers/WellManager.cs:102 | `SELECT COUNT(*) … WHERE ID`: never more than the number of rows (positive iff present, by `CountIdPositiveIff`) |
| WellStore.CountIdPositiveIff | Service/Managers/WellManager.cs:102-120 | the count of rows with an ID is positive iff some row has that ID |
| WellStore.CountIdOneUnique | Service/Managers/WellManager.cs:429-430 | when exactly one row has the ID, any two rows with it are the same row |
| WellStore.Admissible | Service/Managers/WellManager.cs:339 | the guard of `AddWell` and `PostWell`: a record with a MetaInfo whose ID is not empty |
| WellStore.CarriesId | Service/Managers/WellManager.cs:410 | the guard of `UpdateWellById` and `PutWellById`: a record whose MetaInfo carries the given ID |
| WellStore.RowOf | Service/Managers/WellManager.cs:350-365 | the inserted row (ID, MetaInfo, ClusterID and SlotID as the id or "", the record as body); rewriting it with the same record leaves it unchanged |
| WellStore.Rewritten | Service/Managers/WellManager.cs:420-428 | an updated row keeps its ID and holds the new record as its body |
| WellStore.UpdateRows | Service/Managers/WellManager.cs:423-428 | the UPDATE keeps the length and the ID column, and leaves every row with another ID unchanged |
| WellStore.FindById | Service/Managers/WellManager.cs:208-212 | the first row (in storage order) with the ID, or none when no row has it |
| WellStore.Fetch | Service/Managers/WellManager.cs:199-243 | nothing for the empty guid or offline; any record returned comes from a row with that ID, and has no MetaInfo or a MetaInfo whose ID is the guid |
| WellStore.FetchAbsent | Service/Managers/WellManager.cs:219-223 | with no row of that ID, nothing is returned |
| WellStore.FetchCorrupt | Service/Managers/WellManager.cs:216-228 | a body that carries another MetaInfo ID is reported as nothing, online or not |
| WellStore.TakeUntilNull | Service/Managers/WellManager.cs:138-142 | the listing is the longest NULL-free prefix of the column: each entry is the cell at that position, and the cell after it is NULL |
| WellStore.Selected | Service/Managers/WellManager.cs:295 | a row is selected iff it is a row of the table whose ClusterID text is the cluster id |
| WellStore.SelectedConcat | Service/Managers/WellManager.cs:295-299 | the selection keeps table order: selecting from two parts of a table is selecting from each part, in turn |
| WellStore.ScanSlots | Service/Managers/WellManager.cs:299-309 | the slot scan over the selected rows: what it returns has at most one id per row and never the empty id |
| WellStore.UsedSlots | Service/Managers/WellManager.cs:286-330 | slots are returned only for a non-empty cluster id and an available store; at most one per row, never the empty id |
| WellStore.ScanSlotsFailsIff | Service/Managers/WellManager.cs:299-306 | the slot scan fails exactly when it reaches, before any NULL body, a body whose cluster is set and different |
| WellStore.ScanAdvance | Service/Managers/WellManager.cs:299-309 | one loop step: a body of another cluster fails the scan; any other row adds its non-null, non-empty slot id |
| WellStore.UpdateChangesOneRow | Service/Managers/WellManager.cs:423-430 | when exactly one row has the ID, the UPDATE rewrites that row and no other |
| WellStore.RemoveId | Service/Managers/WellManager.cs:484 | the table after DELETE holds exactly the rows with another ID |
| WellStore.RemoveIdCounts | Service/Managers/WellManager.cs:484-486 | the delete removes exactly the rows with the ID (possibly none) and keeps the count of every other ID |
| WellStore.AddKeepsConsistent | Service/Managers/WellManager.cs:339-365 | appending the row written for an admissible record keeps every row consistent with its body |
| WellStore.UpdateKeepsConsistent | Service/Managers/WellManager.cs:410-428 | an update with a record whose MetaInfo ID is the guid keeps the rows consistent |
| WellStore.RemoveKeepsConsistent | Service/Managers/WellManager.cs:484 | a delete keeps the rows consistent |
| WellStore.FetchFindsIffPresent | Service/Managers/WellManager.cs:199-231 | on a consistent table, a non-empty ID is found iff some row has it, and the record found carries that ID |
| WellStore.FetchAfterAdd | Service/Managers/WellManager.cs:337-388 | after adding a record of a new ID, reading that ID returns the record |
| WellStore.FetchAfterUpdate | Service/Managers/WellManager.cs:407-447 | after updating ID g with record w, reading g returns w |
| WellStore.FetchAfterRemove | Service/Managers/WellManager.cs:471-506 | after deleting ID g, reading g returns nothing |
| WellStore.ListingsCoverConsistentTable | Service/Managers/WellManager.cs:127-279 | on a consistent table no cell is NULL, so each listing has one entry per row and the bodies come in table order |
| WellStore.UsedSlotsOnConsistent | Service/Managers/WellManager.cs:286-317 | on a consistent table the slot scan never fails, and it returns the slot ids of the cluster's records in table order |
| WellStore.ClusterSlotsMembers | Service/Managers/WellManager.cs:305-308 | a slot id is reported iff it is non-empty and held by a record of that cluster |
| WellStore.ReadUntilNull | Service/Managers/WellManager.cs:138-142 | the reader loop collects exactly the NULL-free prefix of the column |
| WellStore.WellManager.Count | Service/Managers/WellManager.cs:33-62 | the number of rows, or 0 when the database cannot be read |
| WellStore.WellManager.Clear | Service/Managers/WellManager.cs:64-93 | succeeds iff online; on success the table is empty, otherwise it is unchanged |
| WellStore.WellManager.Contains | Service/Managers/WellManager.cs:95-121 | true iff online and some row has the ID |
| WellStore.WellManager.GetAllWellId | Service/Managers/WellManager.cs:127-156 | null when offline; otherwise the ID column up to its first NULL |
| WellStore.WellManager.GetAllWellMetaInfo | Service/Managers/WellManager.cs:162-192 | null when offline; otherwise the MetaInfo column up to its first NULL |
| WellStore.WellManager.GetAllWell | Service/Managers/WellManager.cs:249-279 | null when offline; otherwise the Well column up to its first NULL |
| WellStore.WellManager.GetWellById | Service/Managers/WellManager.cs:199-243 | the scan for the first row with the ID returns exactly `Fetch` |
| WellStore.WellManager.GetAllUsedSlotIDByClusterId | Service/Managers/WellManager.cs:286-330 | the reader loop with its early return on corruption returns exactly `UsedSlots` |
| WellStore.WellManager.AddWell | Service/Managers/WellManager.cs:337-400 | succeeds iff the record is admissible, online, and the insert reports exactly one row; then exactly the row built from the record is appended (null cluster or slot stored as ""); otherwise the table is unchanged |
| WellStore.WellManager.UpdateWellById | Service/Managers/WellManager.cs:407-464 | succeeds iff the guid is non-empty, the record's MetaInfo ID is the guid, online, and exactly one row has the ID; then every row with the ID is rewritten, otherwise the table is unchanged |
| WellStore.WellManager.DeleteWellById | Service/Managers/WellManager.cs:471-518 | succeeds iff the guid is non-empty and online, also when no row matched; then all rows with the ID are removed, otherwise the table is unchanged |
| WellApi.ListResponse | Service/Controllers/WellController.cs:31-108 | 200 with the list iff the store returned one, else 500 |
| WellApi.GetByIdResponse | Service/Controllers/WellController.cs:73-88 | 400 for the empty id, 404 iff the store returns null, and 200 only with a record from a row of that ID |
| WellApi.UsedSlotResponse | Service/Controllers/WellController.cs:118-133 | 400 for the empty cluster; otherwise 200 with the store's slots iff it returns them, else 404 (never 500) |
| WellApi.PostStatus | Service/Controllers/WellController.cs:146-172 | 400 iff the record is inadmissible; 409 iff the store returns a record of that ID; 200 iff none exists and the insert succeeds; never 404 |
| WellApi.PutStatus | Service/Controllers/WellController.cs:185-209 | 400 iff the record's MetaInfo ID is not `id`; 404 iff the store returns null; 200 iff the record exists and the update touches exactly one row; never 409 |
| WellApi.DeleteStatus | Service/Controllers/WellController.cs:221-236 | 404 iff the store returns null; 200 iff the record exists and the delete runs; only 200, 404 or 500 |
| WellApi.PostConflictsIffPresent | Service/Controllers/WellController.cs:146-166 | on a consistent table a post conflicts iff a row already has the record's ID |
| WellApi.PostTwice | ServiceTest/WellControllerTests.cs:76-88 | a new record is posted with 200; posting it again answers 409, whatever the insert would report |
| WellApi.GetAfterPost | ServiceTest/WellControllerTests.cs:91-106 | after a successful post, getting its ID answers 200 with the record |
| WellApi.GetAfterPut | ServiceTest/WellControllerTests.cs:109-122 | after a successful put, getting the ID answers 200 with the record put |
| WellApi.GetAfterDelete | ServiceTest/WellControllerTests.cs:125-135 | after a successful delete, getting the ID answers 404 |
| WellApi.EmptyIdNotFound | Service/Controllers/WellController.cs:185-235 | put and delete answer 404 for the empty id, because they never check it themselves; get answers 400 |
| WellApi.WriteFailureAnswers500 | Service/Controllers/WellController.cs:190-230 | when the existing record is read but the write fails, put and delete answer 500 |
| WellApi.UsedSlotsOfCluster | ServiceTest/WellControllerTests.cs:138-151 | on a consistent table the used-slot endpoint answers 200, with exactly the non-empty slot ids of the cluster's records |
| WellApi.WellController.GetAllWellId | Service/Controllers/WellController.cs:31-43 | bumps only `GetAllWellIdPerDay` (new counter state = `Step`) and answers `ListResponse` of the ID listing |
| WellApi.WellController.GetAllWellMetaInfo | Service/Controllers/WellController.cs:50-62 | bumps only `GetAllWellMetaInfoPerDay` and answers `ListResponse` of the MetaInfo listing |
| WellApi.WellController.GetWellById | Service/Controllers/WellController.cs:70-89 | bumps only `GetWellByIdPerDay` before validating, and answers `GetByIdResponse` |
| WellApi.WellController.GetAllWell | Service/Controllers/WellController.cs:96-108 | bumps only `GetAllWellPerDay` and answers `ListResponse` of the Well listing |
| WellApi.WellController.GetAllUsedSlotMetaInfoByClusterId | Service/Controllers/WellController.cs:116-134 | counts nothing and changes no state, and answers `UsedSlotResponse` |
| WellApi.WellController.PostWell | Service/Controllers/WellController.cs:142-173 | bumps only `PostWellPerDay`; the status is `PostStatus` of the table before the call; a row is appended only on 200 |
| WellApi.WellController.PutWellById | Service/Controllers/WellController.cs:181-210 | bumps only `PutWellByIdPerDay`; the status is `PutStatus`; rows are rewritten only on 200 |
| WellApi.WellController.DeleteWellById | Service/Controllers/WellController.cs:218-237 | bumps only `DeleteWellByIdPerDay`; the status is `DeleteStatus`; rows are removed only on 200 |
| ControllerScenarios.GetAllWellIdOnEmptyStore | ServiceTest/WellControllerTests.cs:66-73 | an empty store answers 200 with an empty list of ids |
| ControllerScenarios.PostSameWellTwice | ServiceTest/WellControllerTests.cs:76-88 | posting the same record twice answers 200, then 409, and the store still holds exactly one row of that ID |
| ControllerScenarios.GetBeforeAndAfterPost | ServiceTest/WellControllerTests.cs:91-106 | getting an unknown ID answers 404; after posting it, 200 with a record of that ID |
| ControllerScenarios.PutThenGet | ServiceTest/WellControllerTests.cs:109-122 | a renamed record is put with 200 and read back with the new name |
| ControllerScenarios.PostDeleteGet | ServiceTest/WellControllerTests.cs:125-135 | post, delete (200), then get answers 404 |
| ControllerScenarios.TwoWellsInOneCluster | ServiceTest/WellControllerTests.cs:138-151 | two records posted in one cluster: the used-slot endpoint answers 200 with both slot ids, in posting order |
| ControllerScenarios.ClearThenCount | Service/Managers/WellManager.cs:33-93 | after a successful `Clear`, `Count` is 0 and the ID listing is empty, whatever the table held |
| ControllerScenarios.PostDefaultWell | Service/Controllers/WellController.cs:146-171 | a default-constructed record has no MetaInfo, so posting it answers 400 and stores nothing |
| ControllerScenarios.InstanceIsShared | Model/UsageStatisticsWell.cs:80-115 | a second `Instance` call returns the first call's object, and a call counted on it bumps the loaded history |
| ControllerScenarios.AddThenContains | Service/Managers/WellManager.cs:95-121 | after a successful `AddWell`, `Contains` finds the record's ID |
| ControllerScenarios.RejectedPostIsCounted | Service/Controllers/WellController.cs:144-171 | a post of a null body answers 400, and the usage counter has still recorded one call for today |

## Left out

- SQL text, string interpolation and injection, connections, commands and readers. Each statement is its abstract effect on the row sequence.
- The table schema and `SqlConnectionManager`, which are not part of this model. The outcome of an INSERT, including any rejection of a duplicate ID, is the `insert` parameter of `AddWell`.
- JSON serialisation is the identity. The uncaught `JsonException` of a malformed stored body is not modelled, and neither is the `FormatException` of an unparsable ID cell.
- Logging, the `lock_` monitor and thread interleavings.
- The `WellManager` singleton and its logger. The controller is given its manager and an already obtained usage instance. `UsageStatisticsSingleton.Instance` models the lazy static instance separately.
- File I/O of the snapshot. Reading is the `stored` parameter of `Instance`. `Directory.Exists` together with a successful write is `canWrite`. `LastSaved` advances even when `canWrite` is false, because it is assigned before the write is tried (Model/UsageStatisticsWell.cs:206, before the `try` at :207). The `catch` at :219 only stops a failed write from reaching the caller. A missing directory (:210) raises nothing; the write is simply skipped.
- UsageStatistics.History.Increment: does not model `ulong` wrap-around of the count at 2^64; counts are unbounded naturals.
- UsageStatistics.Step: the source reads `DateTime.UtcNow` several times per call. The model takes one instant `now` per call, so a call straddling midnight or the backup threshold is not modelled.
- WellStore.WellManager.Count: does not model the `(int)` truncation of a 64-bit count above 2^31 - 1.
- WellModel.Well: the dates are tick counts, not `DateTimeOffset` with an offset. Of `MetaInfo`, only `ID` is modelled.
- The seven `Increment…PerDay` methods are one method, `IncrementPerDay`, parameterised by the counter.
- WellApi.WellController.PostWell: a storage failure can differ between the store read and the store write. So `PostWell`, `PutWellById` and `DeleteWellById` take one availability flag per store call (`readOnline`, `writeOnline`).
- WellStore.FindById: when several rows share an ID (possible if the schema allows it), `SELECT … WHERE ID` is taken to read the first in storage order; SQLite does not promise an order.
- `Service/Controllers/WellUsageStatisticsController.cs`, a passthrough returning the singleton, is not part of this model. Neither are the `WebApp` helpers.
- When the store fails while the existing record is read, get, put and delete answer 404, not 500. That is because `GetWellById` returns null both for an absent record and for a failed read (Service/Managers/WellManager.cs:221-228, 233-236). When the write fails, put and delete answer 500 (`WriteFailureAnswers500`). The model follows the code: `GetByIdResponse`, `PutStatus` and `DeleteStatus`.
