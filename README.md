# KdbListModel, modelled and verified in Dafny

This project models `KdbListModel`, the list model of ownKeepass. Each open
list window of the app (the database's top-level groups, the contents of one
group, or a search result) has one. The model holds:

- the rows the window shows, groups first and then entries;
- the token (`m_modelId`) of the backend subscription that feeds it, and whether
  it holds one (`m_registered`);
- the group a search is scoped to (`m_searchRootGroupId`).

Rows arrive from the backend worker as asynchronous add, update and delete
events. The token decides which of those events the model takes. Requests from
the view (load the top-level groups, load a group, search) empty the model,
hand back the old token and ask the backend for new rows.

The project has three modules:

- `Items` (`items.dfy`) holds the rows and the list surgery on them:
  - insertion at the group boundary;
  - renaming by id;
  - removal by id, exactly as the loop of the source does it.

  It also holds reference definitions to compare them with: the kind filters
  `GroupsOf`/`NonGroupsOf` and the "remove every match" filter `WithoutId`.
- `ModelSpec` (`model_spec.dfy`) gives the model's behaviour as pure step
  functions over the four fields, with every signal a step emits. It also has
  lemmas over any sequence of operations:
  - groups stay first;
  - the empty/non-empty signal fires on the edges;
  - every token the model takes on is handed back exactly once, in order.
- `ListModel` (`list_model.dfy`) holds the class `KdbListModel`. It has the
  source's fields, a ghost log of emitted signals, and the source's loops.
  Each mutator is proved to produce exactly the state and the signals of its
  `ModelSpec` step.

The signals the model emits are kept as a ghost log of `Signal` values:

- `unregisterFromKdbInterface(id)`, `loadMasterGroups`,
  `loadGroupsAndEntries(g)` and `searchEntries(s, root)` go to the backend
  worker;
- `modelDataChanged` and `isEmptyChanged` go to the view.

Some behaviour of the code is easy to misread. The model follows the code as
written:

- `clear()`/`clearListModel()` empty the list but leave the token as it is
  (`clear` at lines 189-198 does not touch `m_registered`). Of the operations
  that empty the list, only the three loaders hand the token back (lines
  145-151, 159-165 and 231-236). The destructor hands it back too (lines
  69-74).
- The comments at lines 99 and 218 tie `isEmptyChanged` to the list becoming
  non-empty ("if list view was empty before") and becoming empty ("if last
  item was deleted"). But `clearListModel()` emits it even on an empty list
  (lines 189-203). `EmptySignalOnEdges` states this exception.
- The delete loop advances its index after `removeAt`, so of two neighbouring
  rows with the deleted id the second one stays (lines 210-214).
  `DeleteAsWritten` models the loop as written.
  `DeleteRemovesAllWithoutAdjacentPair` proves it equals "remove every match"
  when no two matching rows are adjacent. `AdjacentDuplicateSurvives`
  exhibits the other case.
- The update slot compares tokens even when the model holds none (line 125).
- The add slot emits `modelDataChanged` even when it rejects the row
  (line 108).

## Model

All source paths are in `common/src/keepassPlugin/databaseInterface/`; the table writes them out in full.

| member | source | states |
|---|---|---|
| Items.GroupRunLength | common/src/keepassPlugin/databaseInterface/KdbListModel.cpp:93-94 | the length of the leading run of groups: every row before it is a group, and the row at it (if any) is not |
| Items.GroupRunLengthIsFirstNonGroup | common/src/keepassPlugin/databaseInterface/KdbListModel.cpp:93-94 | the `while` scan of the add slot stops exactly at the end of the leading group run |
| Items.GroupsFirstSplit | common/src/keepassPlugin/databaseInterface/KdbListModel.cpp:92-97 | in a groups-first list the group rows are exactly the leading run and the other rows exactly the rest |
| Items.InsertionIndex | common/src/keepassPlugin/databaseInterface/KdbListModel.cpp:86-97 | an entry goes at the end; any other kind goes after the leading run of groups, before the first non-group |
| Items.Inserted | common/src/keepassPlugin/databaseInterface/KdbListModel.cpp:84-98 | an accepted add makes the list one longer, puts the row at InsertionIndex, and leaves the other rows in their order; groups-first is preserved |
| Items.InsertedAddsOneRow | common/src/keepassPlugin/databaseInterface/KdbListModel.cpp:84-98 | an add loses no row: the new list is the old one plus the new row, as a multiset |
| Items.InsertedByKind | common/src/keepassPlugin/databaseInterface/KdbListModel.cpp:86-97 | through the kind filters: a new group joins the end of the groups, a new entry the end of the list, a row of any other kind the head of the non-groups |
| Items.Updated | common/src/keepassPlugin/databaseInterface/KdbListModel.cpp:127-136 | a rename keeps the length, the ids and the kinds, and leaves every other row unchanged; matching rows take the new title and subtitle; with no match the list is unchanged; groups-first is preserved |
| Items.UpdatedIdempotent | common/src/keepassPlugin/databaseInterface/KdbListModel.cpp:127-136 | renaming twice with the same arguments is renaming once |
| Items.DeleteAsWritten | common/src/keepassPlugin/databaseInterface/KdbListModel.cpp:210-223 | the rows the removal loop leaves, never more than before |
| Items.DeleteProgressStart | common/src/keepassPlugin/databaseInterface/KdbListModel.cpp:210 | the loop invariant of the removal loop holds at index 0 |
| Items.DeleteProgressRemove | common/src/keepassPlugin/databaseInterface/KdbListModel.cpp:211-214 | a removal at `i` followed by `i++` keeps the loop invariant: the row that slid into place `i` is passed over |
| Items.DeleteProgressKeep | common/src/keepassPlugin/databaseInterface/KdbListModel.cpp:210-211 | passing over a row with another id keeps the loop invariant |
| Items.DeleteProgressDone | common/src/keepassPlugin/databaseInterface/KdbListModel.cpp:210 | when the loop stops, the rows are DeleteAsWritten of the original rows |
| Items.DeleteAsWrittenOnlyRemoves | common/src/keepassPlugin/databaseInterface/KdbListModel.cpp:210-223 | every row left after the delete was there before |
| Items.DeleteRemovesFirstMatch | common/src/keepassPlugin/databaseInterface/KdbListModel.cpp:210-214 | the first row with the id is always removed: the rows before it stay, and the row right after it stays too, passed over, with the loop going on from the row after that |
| Items.DeleteRemovesWhenPresent | common/src/keepassPlugin/databaseInterface/KdbListModel.cpp:210-214 | when some row has the id, the delete leaves fewer rows than before |
| Items.DeleteAbsentIsNoOp | common/src/keepassPlugin/databaseInterface/KdbListModel.cpp:210-211 | deleting an id that no row has leaves the list unchanged |
| Items.DeleteKeepsOthers | common/src/keepassPlugin/databaseInterface/KdbListModel.cpp:210-223 | every row with another id survives, in its relative order |
| Items.DeleteKeepsGroupsFirst | common/src/keepassPlugin/databaseInterface/KdbListModel.cpp:210-223 | removal keeps groups before entries |
| Items.DeleteRemovesAllWithoutAdjacentPair | common/src/keepassPlugin/databaseInterface/KdbListModel.cpp:210-223 | when no two neighbouring rows carry the id, the loop removes every matching row (it equals WithoutId) |
| Items.AdjacentDuplicateSurvives | common/src/keepassPlugin/databaseInterface/KdbListModel.cpp:210-214 | of two neighbouring rows with the deleted id the second survives, where WithoutId would remove both |
| ModelSpec.AddStep | common/src/keepassPlugin/databaseInterface/KdbListModel.cpp:77-109 | an unregistered model adopts the incoming token; the row is inserted exactly when the token matches; `isEmptyChanged` fires exactly when an accepted row lands in an empty list; `modelDataChanged` fires on every call; consistency is preserved |
| ModelSpec.UpdateStep | common/src/keepassPlugin/databaseInterface/KdbListModel.cpp:119-140 | only the rows change, and only when the token matches, even for a model without one; `modelDataChanged` fires exactly then; a consistent model holding no token is left unchanged |
| ModelSpec.DeleteStep | common/src/keepassPlugin/databaseInterface/KdbListModel.cpp:205-224 | whatever the token, only the rows change; deleting an absent id changes nothing and emits nothing; deleting a present id removes at least one row and emits `modelDataChanged`; consistency is preserved; `isEmptyChanged` fires exactly when a non-empty list becomes empty |
| ModelSpec.DeleteSignalsShrink | common/src/keepassPlugin/databaseInterface/KdbListModel.cpp:217-221 | each removal adds one `modelDataChanged` to the log, then `isEmptyChanged` if it removed the last row |
| ModelSpec.ClearStep | common/src/keepassPlugin/databaseInterface/KdbListModel.cpp:189-198 | clear empties the rows, leaves the token as it is, and emits `modelDataChanged` then `isEmptyChanged` |
| ModelSpec.Unload | common/src/keepassPlugin/databaseInterface/KdbListModel.cpp:144-151 | a loader clears a non-empty list and hands back a held token: exactly those signals, in that order, with no rows and no token after |
| ModelSpec.LoadMasterStep | common/src/keepassPlugin/databaseInterface/KdbListModel.cpp:142-154 | loading the top-level groups ends with no rows and no token |
| ModelSpec.LoadGroupStep | common/src/keepassPlugin/databaseInterface/KdbListModel.cpp:156-168 | loading a group ends with no rows and no token |
| ModelSpec.SearchStep | common/src/keepassPlugin/databaseInterface/KdbListModel.cpp:226-244 | a search ends with no rows and the search token -1 held |
| ModelSpec.LoaderSignals | common/src/keepassPlugin/databaseInterface/KdbListModel.cpp:142-168 | each loader, and the search at lines 226-244, emits an unregister signal exactly when the model held a token, and only for that token; it emits `isEmptyChanged` exactly when there were rows; its backend request comes last |
| ModelSpec.DestructorSignals | common/src/keepassPlugin/databaseInterface/KdbListModel.cpp:69-74 | the destructor emits at most one signal: the unregister signal for the held token, exactly when one is held |
| ModelSpec.RunKeepsConsistent | common/src/keepassPlugin/databaseInterface/KdbListModel.cpp:80-98 | after any sequence of operations, groups still come before entries and a model with rows holds a token |
| ModelSpec.EmptySignalOnEdges | common/src/keepassPlugin/databaseInterface/KdbListModel.cpp:99-102 | for every operation, `isEmptyChanged` fires exactly when the list goes from empty to non-empty or back, or on clearListModel of an empty list (lines 196-197 and 218-221 are the other emitters) |
| ModelSpec.NothingHandedBack | common/src/keepassPlugin/databaseInterface/KdbListModel.cpp:77-140 | adds and renames (lines 77-140), deletes (lines 205-224) and clears (lines 189-203) never emit an unregister signal |
| ModelSpec.UnregisterOnlyWhenRegistered | common/src/keepassPlugin/databaseInterface/KdbListModel.cpp:148-151 | no operation emits an unregister signal unless the model holds a token, and then only for that token |
| ModelSpec.StepPairsTokens | common/src/keepassPlugin/databaseInterface/KdbListModel.cpp:80-83 | one step keeps the books: tokens handed back plus the token held after equal the token held before plus the tokens taken on |
| ModelSpec.RunPairsTokens | common/src/keepassPlugin/databaseInterface/KdbListModel.cpp:80-83 | the same balance over any sequence of operations |
| ModelSpec.LifetimeUnregistersEveryToken | common/src/keepassPlugin/databaseInterface/KdbListModel.cpp:69-74 | from construction through any operations to destruction, the tokens handed back are exactly the tokens taken on, in order: none leaked, none handed back twice |
| ListModel.KdbListModel.constructor | common/src/keepassPlugin/databaseInterface/KdbListModel.cpp:30-35 | a new model has no rows, token 0, no registration and search root 0, and has emitted nothing |
| ListModel.KdbListModel.Destroy | common/src/keepassPlugin/databaseInterface/KdbListModel.cpp:69-74 | the destructor appends DestructorSignals of the current state to the log |
| ListModel.KdbListModel.SlotAddItemToListModel | common/src/keepassPlugin/databaseInterface/KdbListModel.cpp:77-109 | the slot reaches the state and emits the signals of AddStep, and keeps the model consistent |
| ListModel.KdbListModel.InsertItem | common/src/keepassPlugin/databaseInterface/KdbListModel.cpp:86-97 | the append or the scan-and-insert leaves the rows equal to Inserted of the old rows |
| ListModel.KdbListModel.SlotUpdateItemInListModel | common/src/keepassPlugin/databaseInterface/KdbListModel.cpp:119-140 | the slot reaches the state and emits the signals of UpdateStep, and keeps the model consistent |
| ListModel.KdbListModel.SlotDeleteItem | common/src/keepassPlugin/databaseInterface/KdbListModel.cpp:205-224 | the slot reaches the state and emits the signals of DeleteStep, and keeps the model consistent |
| ListModel.KdbListModel.RemoveRowsWithId | common/src/keepassPlugin/databaseInterface/KdbListModel.cpp:210-223 | the removal loop leaves DeleteAsWritten of the old rows and logs one `modelDataChanged` per removed row, then `isEmptyChanged` if the list became empty |
| ListModel.KdbListModel.RemoveRowAt | common/src/keepassPlugin/databaseInterface/KdbListModel.cpp:213-221 | one removal drops row `i` only and logs `modelDataChanged`, then `isEmptyChanged` if no row is left |
| ListModel.KdbListModel.LoadMasterGroupsFromDatabase | common/src/keepassPlugin/databaseInterface/KdbListModel.cpp:142-154 | the request reaches the state and emits the signals of LoadMasterStep |
| ListModel.KdbListModel.LoadGroupsAndEntriesFromDatabase | common/src/keepassPlugin/databaseInterface/KdbListModel.cpp:156-168 | the request reaches the state and emits the signals of LoadGroupStep |
| ListModel.KdbListModel.SearchEntriesInKdbDatabase | common/src/keepassPlugin/databaseInterface/KdbListModel.cpp:226-244 | the request reaches the state and emits the signals of SearchStep |
| ListModel.KdbListModel.RowCount | common/src/keepassPlugin/databaseInterface/KdbListModel.cpp:170-174 | the row count is the number of rows |
| ListModel.KdbListModel.IsEmpty | common/src/keepassPlugin/databaseInterface/KdbListModel.cpp:176-179 | empty exactly when the row count is 0 |
| ListModel.KdbListModel.Data | common/src/keepassPlugin/databaseInterface/KdbListModel.cpp:181-187 | no value exactly for a row below 0 or at or beyond the row count; otherwise the row itself |
| ListModel.KdbListModel.Clear | common/src/keepassPlugin/databaseInterface/KdbListModel.cpp:189-198 | clear reaches the state and emits the signals of ClearStep |
| ListModel.KdbListModel.ClearListModel | common/src/keepassPlugin/databaseInterface/KdbListModel.cpp:200-203 | the public clear does exactly what clear does |

## Left out

- Qt signal/slot wiring in the constructor (lines 37-66) is framework plumbing. The model records emitted signals in a ghost log instead.
- The row notifications `beginInsertRows`/`endInsertRows`, `beginRemoveRows`/`endRemoveRows` and `beginResetModel`/`endResetModel`, and the `qDebug` logging, are presentation and output only. They are not modelled.
- ListModel.KdbListModel.Data: does not model `KdbItem::get(role)` (line 186). Its role dispatch is not part of this model, so `Data` returns the whole row.
- The item kind is an `int` in the source, compared with the `ENTRY` and `GROUP` constants of `KdbListModel.h`. That header is not part of this model. Kinds are therefore the datatype `Group | Entry | Unknown`. `Unknown` stands for any other code, which takes the group path on insertion just as in the source.
- The `searchRootGroupId` property setter lives in `KdbListModel.h`, which is not part of this model. The field is public and a search reads it.
- Ids and tokens are C++ `int`. No arithmetic is done on them, so unbounded integers model them exactly.
- `private/KdbInterface.h` is left out: the process-wide singleton, its thread and the backend worker it owns. The worker's token allocation, routing and search matching are not part of this model. Tokens arrive as parameters of the add and update slots.
- `OwnKeepassHelper.h` is left out: filesystem and SD-card lookups, unrelated to the list model.
- Concurrency (events queued across threads) is left out. Each slot is modelled as one atomic step on the foreground thread.
- The add slot's list surgery is the separate method `InsertItem`. The delete slot's loop is `RemoveRowsWithId`, and one removal is `RemoveRowAt`. Each still mutates the `items` field in place and emits into the same log, in the source's order.
