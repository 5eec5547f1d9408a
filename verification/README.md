# Kanban task store, modelled in Dafny

This project models the core of a client-side kanban board. The board keeps
one flat, ordered list of tasks. Each of its three columns (To do, In progress,
Done) shows the tasks of one status, in the order they have in that list. A
task store owns the list and the projects. Each project caches a task count.
The store changes them through four updaters:

- `reorderTasks` moves a task when a card is dropped.
- `addTask` appends a task.
- `updateTaskStatus` changes a task's status.
- `deleteTask` removes a task.

Around the store sit a few small view functions:

- the board's column projection, drop handler and card colours;
- the search dialog's case-insensitive filter;
- the settings page's summary, "clear completed" button, caption noun and
  notification switches;
- the add-task dialog's draft.

Every updater is a pure function over immutable values: `seq<Task>` for the
list and a `Store` datatype for the list together with the projects. The
properties are stated over column projections (`TaskStore.Column`, a filter by
status) and over order preservation (`Seqs.IsSubsequence`). Two invariants
recur: unique ids (`Types.UniqueIds`) and "a finished task shows 100"
(`Types.DoneComplete`). The code never checks either. Lemmas assume them
where the behaviour depends on them.

Files, in dependency order:

- `seqs.dfy` (`Seqs`): JavaScript's `filter` and `findIndex`, and the
  subsequence relation. Also the sequence lemmas the other proofs use.
- `types.dfy` (`Types`): statuses, tasks, drafts and projects, plus the
  invariants stated over a task list.
- `task_store.dfy` (`TaskStore`): columns, the seed data, `addTask`,
  `updateTaskStatus` and `deleteTask`.
- `reorder.dfy` (`Reorder`): `reorderTasks` and its properties.
- `search.dfy` (`Search`): lower-casing, `includes`, `trim`, the search filter,
  and the status caption and colour maps.
- `board.dfy` (`Board`): column headers, cards, `onDragEnd` and the card colours.
- `settings.dfy` (`Settings`): the summary, "clear completed", the caption noun
  and the notification switches.
- `add_task_form.dfy` (`AddTaskForm`): the add-task form and its draft.

Some choices the model makes about the code:

- The store takes the id of a new task as a parameter (`freshId`). Where a
  property needs the id to be unused, that is a precondition of the lemma.
- A drag's start index is an `int`. An index outside the source column finds no
  task, so the list comes back unchanged. The end index is a `nat` (see Left out).
- A same-column, same-index reorder keeps every column unless the dragged task
  is finished and shows less than 100, because its re-statused copy shows 100
  (`Reorder.ReorderSameSlotColumn`). `Reorder.ReorderSameSlot` states the result
  under the invariant that every finished task shows 100. Even then the flat
  list can change (`Reorder.ReorderSameSlotCanShiftFlatList`).
  The board's guard never makes that call, and `Board.GuardSkipsOnlyNoOps`
  states that the guard changes no column.
- Deleting a task does not touch the projects, so a project's cached count goes
  stale. The model does not hide this: `TaskStore.DeleteLeavesCountStale` and
  `TaskStore.DeleteBreaksSeedCounts` state it.

## Model

| member | source | states |
|---|---|---|
| `Types.ParseStatus` | src/types/index.ts:1 | only the three spellings `todo`, `in-progress` and `done` are statuses |
| `Types.StatusNameRoundTrip` | src/types/index.ts:1 | every status's spelling parses back to that status |
| `Types.FromDraft` | src/context/TaskContext.tsx:95-99 | the new task is the draft with the supplied id added and every other field copied |
| `Seqs.Filter` | src/context/TaskContext.tsx:126 | an element is kept exactly when it passes the predicate, and the result is never longer than the input |
| `Seqs.FindIndex` | src/context/TaskContext.tsx:143 | `findIndex` gives -1 exactly when no element passes; otherwise it gives the first passing position |
| `Seqs.FilterIsSubsequence` | src/context/TaskContext.tsx:126 | filtering keeps the surviving elements in their original relative order |
| `TaskStore.Column` | src/components/Board.tsx:169-172 | a column holds exactly the tasks of its status |
| `TaskStore.SeedIsConsistent` | src/context/TaskContext.tsx:19-62 | the seed tasks have unique ids, progress values in 0..100 and a finished task at 100; every seed project's cached count equals the number of tasks naming it |
| `TaskStore.SeedProjectCount` | src/context/TaskContext.tsx:19-62 | all three seed tasks name "Design system" and no other project |
| `TaskStore.WithStatus` | src/context/TaskContext.tsx:108-112 | the re-statused task gets the new status and shows 100 when the status is done, otherwise its old progress; every other field is unchanged |
| `TaskStore.WithSameStatus` | src/context/TaskContext.tsx:129-133 | re-applying a task's own status changes it exactly when it is a finished task below 100 |
| `TaskStore.UpdateTaskStatus` | src/context/TaskContext.tsx:108-112 | every task with the id gets the new status, with progress 100 when done and unchanged otherwise, and keeps its id, title, description, due date, counters, assignees and project name; every other task is untouched and the length is kept |
| `TaskStore.UpdateUnknownIdIsNoOp` | src/context/TaskContext.tsx:108-112 | an unknown id leaves the list as it was |
| `TaskStore.UpdateKeepsInvariants` | src/context/TaskContext.tsx:108-112 | a status change keeps every id in place, keeps ids unique, keeps progress in range and keeps finished tasks at 100 |
| `TaskStore.UpdateIdempotent` | src/context/TaskContext.tsx:108-112 | applying the same status change twice equals applying it once |
| `TaskStore.DeleteTask` | src/context/TaskContext.tsx:114-116 | a task survives exactly when it was there and has another id |
| `TaskStore.DeleteKeepsOrder` | src/context/TaskContext.tsx:114-116 | the survivors keep their relative order |
| `TaskStore.DeleteUnknownIdIsNoOp` | src/context/TaskContext.tsx:114-116 | deleting an unknown id changes nothing |
| `TaskStore.DeleteAt` | src/context/TaskContext.tsx:114-116 | with unique ids, deleting a task's id cuts out exactly its position |
| `TaskStore.UniqueIdsFilter` | src/context/TaskContext.tsx:114-116 | any filter of a list with unique ids has unique ids |
| `TaskStore.DeleteLeavesCountStale` | src/context/TaskContext.tsx:114-116 | deletion leaves the cached count of the deleted task's project one too high |
| `TaskStore.DeleteBreaksSeedCounts` | src/context/TaskContext.tsx:58-62 | deleting seed task "1" leaves the seed project counts inconsistent |
| `TaskStore.AddTask` | src/context/TaskContext.tsx:95-106 | the new task is appended after the unchanged old list; exactly the projects whose name equals the draft's project name gain 1 in their count; project ids and names are kept |
| `TaskStore.AddTaskKeepsCounts` | src/context/TaskContext.tsx:100-105 | adding a task keeps every cached count equal to the number of tasks naming the project |
| `TaskStore.AddTaskKeepsInvariants` | src/context/TaskContext.tsx:95-100 | under an unused id, ids stay unique; a well-formed draft keeps progress in range and finished tasks at 100 |
| `Reorder.InsertionIndex` | src/context/TaskContext.tsx:136-148 | the splice position is always a valid position of the list without the dragged task |
| `Reorder.ReorderTasks` | src/context/TaskContext.tsx:118-153 | a start index outside the source column returns the list unchanged; otherwise the re-statused dragged task is in the result |
| `Reorder.InsertionIndexSplits` | src/context/TaskContext.tsx:139-148 | with unique ids, the splice position cuts the destination column at `min(end, count)` |
| `Reorder.SplitBeforeEntry` | src/context/TaskContext.tsx:140-143 | before an existing destination task, the splice position is that task's position, which cuts the column at `end` |
| `Reorder.SplitAfterLast` | src/context/TaskContext.tsx:144-147 | past the end of a non-empty column, the splice position follows its last task, leaving the whole column before it |
| `Reorder.DeleteSparesOtherColumns` | src/context/TaskContext.tsx:126 | removing the dragged task by id leaves every column of another status unchanged |
| `Reorder.DeleteFromOwnColumn` | src/context/TaskContext.tsx:120-126 | removing the dragged task by id cuts exactly its entry out of its own column |
| `Reorder.DraggedAt` | src/context/TaskContext.tsx:120-126 | the dragged task has the source status and a flat position; removing it cuts out exactly that position and keeps ids unique |
| `Reorder.ReorderKeepsIds` | src/context/TaskContext.tsx:126-150 | with unique ids, a reorder keeps the length and keeps the ids unique |
| `Reorder.ReorderMovesOneTask` | src/context/TaskContext.tsx:126-150 | removing the dragged task from input and output leaves the same list, so every other task keeps its relative order; cutting the re-statused task out of its new position gives the input with the dragged task cut out of its old one |
| `Reorder.ReorderPermutes` | src/context/TaskContext.tsx:126-150 | as a multiset, the result is the input with the dragged task swapped for its re-statused copy |
| `Reorder.ReorderKeepsIdSet` | src/context/TaskContext.tsx:118-153 | the set of ids is the same before and after |
| `Reorder.ReorderKeepsOtherColumns` | src/context/TaskContext.tsx:126-150 | the column of any status other than the source and destination is unchanged |
| `Reorder.ReorderDestinationSplice` | src/context/TaskContext.tsx:136-150 | the destination column is the remaining destination tasks with the re-statused task inserted at `min(end, count)` |
| `Reorder.ReorderDestinationColumn` | src/context/TaskContext.tsx:120-150 | across columns, the remaining destination tasks are the input's destination column; within one column, they are the source column without its `start`-th entry |
| `Reorder.ReorderIntoEmptyColumn` | src/context/TaskContext.tsx:139-150 | a drop into a column with no other task appends the re-statused task to the end of the flat list |
| `Reorder.ReorderSourceColumn` | src/context/TaskContext.tsx:120-126 | across columns, the source column loses exactly its `start`-th entry |
| `Reorder.ReorderSameSlotColumn` | src/context/TaskContext.tsx:118-153 | a drop back onto its own slot changes its column only by re-applying the status to the dragged task |
| `Reorder.ReorderSameSlot` | src/context/TaskContext.tsx:118-153 | when finished tasks already show 100, a drop back onto its own slot leaves every column as it was |
| `Reorder.ReorderSameSlotCanShiftFlatList` | src/context/TaskContext.tsx:136-150 | a drop back onto its own slot can still move the task past a task of another status in the flat list |
| `Reorder.ReorderKeepsProgress` | src/context/TaskContext.tsx:129-133 | a reorder keeps progress in range and keeps finished tasks at 100 |
| `Board.Columns` | src/components/Board.tsx:107-111 | there are three headers, and no count exceeds the number of tasks |
| `Board.ColumnCountsAddUp` | src/components/Board.tsx:107-111 | the three column counts add up to the length of the list |
| `Board.ColumnsCoverStatuses` | src/components/Board.tsx:107-111 | the headers are To do, In progress and Done, in that order; each count is the length of its column; each caption is the one the search dialog shows |
| `Board.Cards` | src/components/Board.tsx:169-172 | a column renders one card per task of its status: the `i`-th card holds the `i`-th task of that status in list order and carries index `i` |
| `Board.OnDragEnd` | src/components/Board.tsx:122-133 | a drop calls nothing exactly when there is no destination or the destination is the source slot; any other drop forwards both indices and both column ids unchanged |
| `Board.ApplyDrop` | src/components/Board.tsx:122-133 | a drop outside every column, or back onto its own slot, leaves the list unchanged |
| `Board.GuardSkipsOnlyNoOps` | src/components/Board.tsx:124-125 | with unique ids and finished tasks at 100, every column after a guarded drop equals the column after the unguarded reorder |
| `Board.DragMovesTheCard` | src/components/Board.tsx:169-172 | dragging the `i`-th card moves that card's task and leaves every other task in order, because card indices are the reorder's index space |
| `Board.ProgressColor` | src/components/Board.tsx:15-19 | the bar is green exactly from 80, orange exactly from 40 to 79, and pink exactly below 40 |
| `Board.ProgressColorMonotone` | src/components/Board.tsx:15-19 | more progress never shows a colder bar colour |
| `Board.DoneCardsAreGreen` | src/components/Board.tsx:15-19 | when finished tasks show 100, every Done card has a green bar |
| `Board.BadgeColor` | src/components/Board.tsx:64-69 | the due-date badge is indigo exactly for to-do tasks |
| `Board.BadgeMatchesSearch` | src/components/Board.tsx:64-69 | the board's badge colour and the search dialog's colour agree on every status |
| `Search.LowerChar` | src/components/SearchModal.tsx:29 | an ASCII capital maps to its small letter; every other character is kept |
| `Search.Lower` | src/components/SearchModal.tsx:29-31 | lower-casing keeps the length and maps each character |
| `Search.LowerIdempotent` | src/components/SearchModal.tsx:29-31 | a lower-cased string has no capital left, so lower-casing again changes nothing |
| `Search.Includes` | src/components/SearchModal.tsx:29 | a match is never longer than the text, and the empty query matches everything |
| `Search.IncludesIffOccurs` | src/components/SearchModal.tsx:29 | `includes` holds exactly when the needle occurs at some position |
| `Search.IncludesKeepsChars` | src/components/SearchModal.tsx:29 | every character of a contained needle is a character of the text |
| `Search.TrimStart` | src/components/SearchModal.tsx:26 | the result is the suffix after the leading white space, and it does not start with white space |
| `Search.TrimEnd` | src/components/SearchModal.tsx:26 | the result is the prefix before the trailing white space, and it does not end with white space |
| `Search.Trim` | src/components/SearchModal.tsx:26 | a non-empty trimmed query starts and ends with a character that is not white space |
| `Search.TrimEmptyIffBlank` | src/components/SearchModal.tsx:26 | the trimmed query is empty exactly when every character is white space |
| `Search.Matches` | src/components/SearchModal.tsx:28-31 | a task matches exactly when the lower-cased query occurs at some position of its lower-cased title, description or project name |
| `Search.Filtered` | src/components/SearchModal.tsx:26-33 | a blank query gives no result, and the result is never longer than the list |
| `Search.FilteredMembership` | src/components/SearchModal.tsx:26-33 | for a query that is not blank, a task is listed exactly when it is on the board and a field of it contains the query, ignoring case |
| `Search.BlankQueryListsNothing` | src/components/SearchModal.tsx:26-33 | a query of white space alone lists nothing |
| `Search.FilteredIsSubsequence` | src/components/SearchModal.tsx:27 | the results keep the board order |
| `Search.UntrimmedQueryMustOccur` | src/components/SearchModal.tsx:26-31 | the query is matched untrimmed, so a padding character that no field contains keeps the task out |
| `Search.StatusLabel` | src/components/SearchModal.tsx:15-19 | every status has a non-empty caption |
| `Search.StatusColor` | src/components/SearchModal.tsx:9-13 | the badge is green exactly for finished tasks |
| `Search.StatusMapsAreInjective` | src/components/SearchModal.tsx:9-19 | both maps are total, and no two statuses share a caption or a colour |
| `Settings.TaskSummary` | src/app/settings/page.tsx:43-44 | the total is the list length, and the completed and in-progress counts never exceed it together |
| `Settings.SummaryMatchesBoard` | src/app/settings/page.tsx:139-143 | the completed and in-progress figures are the Done and In progress column counts, and the total is the sum of all three |
| `Settings.IdsAreTaskIds` | src/app/settings/page.tsx:272 | an id is in the list of ids exactly when some task has it |
| `Settings.DeleteAll` | src/app/settings/page.tsx:272 | deleting ids in turn keeps exactly the tasks whose id is not listed |
| `Settings.DeleteAllIsFilter` | src/app/settings/page.tsx:272 | deleting ids one by one equals one order-preserving filter |
| `Settings.ClearCompleted` | src/app/settings/page.tsx:270-273 | a declined confirmation changes nothing; after an accepted one no finished task remains and nothing new appears |
| `Settings.ClearCompletedKeepsOthers` | src/app/settings/page.tsx:272 | with unique ids, clearing keeps exactly the unfinished tasks, in their original order |
| `Settings.ClearCompletedWithoutDoneIsNoOp` | src/app/settings/page.tsx:272 | with no finished task, clearing changes nothing |
| `Settings.ClearCompletedSummary` | src/app/settings/page.tsx:43-44 | after clearing, the completed count is 0, the total drops by the old completed count, and the in-progress count is kept |
| `Settings.NotDoneCount` | src/app/settings/page.tsx:272 | the unfinished tasks number the list length minus the Done column |
| `Settings.TaskNoun` | src/app/settings/page.tsx:280 | the caption says "task" exactly when the count is 1 and "tasks" otherwise |
| `Settings.Toggle` | src/app/settings/page.tsx:239 | clicking a switch flips that key and leaves the other three unchanged |
| `Settings.ToggleLaws` | src/app/settings/page.tsx:239 | two clicks on one switch restore the settings, and clicks on two switches commute |
| `Settings.InitialNotifsOffOnlyNewComments` | src/app/settings/page.tsx:30-35 | on a fresh page, every switch but new comments is on |
| `AddTaskForm.DefaultProjectName` | src/components/AddTaskModal.tsx:12 | the preselected project is the first project's name, or empty when there is no project |
| `AddTaskForm.OpenForm` | src/components/AddTaskModal.tsx:10-12 | the form first opens with an empty title and description and the default project |
| `AddTaskForm.Submit` | src/components/AddTaskModal.tsx:14-28 | a submit goes through exactly when title and description are non-empty; the draft is a to-do card with progress 0, no comments, no attachments and no assignees, has no id, and takes the form's text; the text inputs are cleared afterwards |
| `AddTaskForm.SubmittedTaskLandsLastInTodo` | src/components/AddTaskModal.tsx:16-26 | under an unused id, the submitted task becomes the last To do card with a pink bar; the other columns are unchanged and every store invariant holds |
| `AddTaskForm.DefaultProjectGetsTheTask` | src/components/AddTaskModal.tsx:12 | submitting with the preselected project adds 1 to the first project's count |

## Left out

- Persistence is not modelled: reading and writing local storage, JSON encoding, rehydration, and the theme switch with its document class. It is browser I/O. The seed data is the initial state.
- Id generation with `Math.random` is not modelled. The store takes `freshId` as a parameter, and lemmas that need an unused id require one.
- The due date of a new task is a parameter (`today`). The real value comes from the clock through a locale-dependent date format.
- The board's `taskOffset` ratio, the "n/10" progress figure and the completion percentages of the 3D widgets are left out. They are floating-point decoration.
- All three.js scenes and animations are left out, and so is the drag-and-drop library itself. A drop is modelled only as the library's result record, with an optional destination.
- Sidebar, Header, the page layout, the error boundary and "reset all data" are left out. They clear storage and reload, or render fixed content.
- Reorder.ReorderTasks: the end index is a natural number. With a negative end index, `reorderTasks` always throws: `endIndex < destTasks.length` holds even for an empty column, and reading `.id` of the missing `destTasks[endIndex]` fails. The drag library never reports a negative index.
- AddTaskForm.OpenForm: only the first opening is modelled. The dialog stays mounted, so closing it without submitting keeps the typed title, description and project choice for the next opening.
- Board.Location: drop-zone ids are the three statuses, not arbitrary strings. The board creates exactly one drop zone per status.
- Search.LowerChar: `toLowerCase` is modelled for ASCII letters only. Other characters keep their case in the model.
- Search.StatusColor: the Tailwind class strings are represented by their colour family (indigo, orange, green). Board.BadgeColor does the same.
- Settings.TaskNoun: only the noun of the "Remove all N completed task(s)" caption is modelled, not the number formatting.
- The add-task form checks its required fields in the browser. The model treats that check as a non-empty test, which is what the `required` attribute does.
- Updaters are applied one after another, as React applies queued state updaters. Rendering and batching are not modelled.
