# TaskFlow client model in Dafny

TaskFlow is a single-page React task board. Tasks carry a title, a
description, a category, a priority, an optional due date and a completion
flag with its completion time. They live in an in-memory mock task service.
The `TaskManager` page loads the tasks and the categories and keeps its own
copy of the tasks. From that copy it derives three views: the per-category
counts shown in the sidebar, the list filtered by the selected category and
the search text, and the completion statistics shown in the header. The
page's handlers call the service (create, toggle, move) and fold each reply
into that copy. The add-task modal validates and shapes the form before it
reaches the page. A task card turns checkbox clicks into toggles and drags
into drop items, and the list turns drops into moves.

The model is purely functional:

- The service's array is a `seq<Task>`. The mutating calls return the new
  array together with their result (`Reply`): `create` always resolves, while
  `update`, `delete` and `toggleComplete` can reject, and a rejected call
  returns the array unchanged. The read-only calls (`getById`, `getByCategory`, `search`) and
  `updateOrder` return plain values.
- Each page handler takes the service's outcome as a parameter (the failure
  path included).
- The `Flows` module wires the page to the service. It proves that each
  handler keeps the page's copy equal to the store, with distinct ids and
  current category counts.

JavaScript truthiness is written out wherever the code relies on it:

- an empty `selectedCategory` is no filter;
- `updates.completed` counts only when it is `true`;
- `x || ''`, `x || 'medium'` and `x || null` treat `""` as absent.

Modules, one per file:

| file | module | models |
|---|---|---|
| `wrappers.dfy` | `Wrappers` | `Option`, `Result` |
| `seqs.dfy` | `Seqs` | `Array.prototype.filter` and counting, with subsequence and multiset facts |
| `text.dfy` | `Text` | `toLowerCase`, `includes`, `trim` |
| `domain.dfy` | `Domain` | the task and category records |
| `task_service.dfy` | `TaskService` | the mock task service |
| `task_manager.dfy` | `TaskManager` | the page's state, derived views and reply handling |
| `add_task_modal.dfy` | `AddTaskModal` | validation, field edits, submission |
| `task_card.dfy` | `TaskCard` | priority tables, drag item, toggle dispatch |
| `header.dfy` | `Header` | completion percentage, remaining count |
| `category_sidebar.dfy` | `CategorySidebar` | "All Tasks" total, selection, highlight |
| `task_list.dfy` | `TaskList` | drop rule, category lookup |
| `flows.dfy` | `Flows` | page and service composed; end-to-end properties |

Two behaviours of the code are kept exactly as written, because the rest of
the board depends on them:

- **An update that omits `completed` clears `completedAt` on a completed task**
  (`src/services/api/taskService.js:48-50`). Every drag-and-drop move sends
  only `categoryId`, so moving a completed task leaves it completed with no
  completion time. See `TaskService.MoveOfCompletedTaskClearsCompletedAt`,
  `TaskService.UpdateConsistencyIff` and `Flows.MoveTaskKeepsSynced`.
- **A drop on the "All Tasks" list moves the task to category `null`.** The
  page gives its list the selected category, which is `null` in that view
  (`src/components/pages/TaskManager.jsx:214`). See `TaskList.DropOfCard` and
  `Flows.DropInAllTasksViewUncategorises`.

Other behaviour of the code worth knowing before reading the model:

- `update` can leave a completed task without `completedAt`
  (`src/services/api/taskService.js:46-50`), as described above.
- The page's move handler does not refuse a move onto the task's current
  category. Only the drop site compares, against the list's category
  (`src/components/organisms/TaskList.jsx:21`).
- `create` accepts any title. The modal validates it
  (`src/components/organisms/AddTaskModal.jsx:37-50`), and also rejects a
  title that is white space only.
- A failed load keeps both collections as they were and shows the error
  screen (`src/components/pages/TaskManager.jsx:34-36`).
- The count effect does nothing when there are no categories
  (`src/components/pages/TaskManager.jsx:56`).

## Model

| member | source | states |
|---|---|---|
| TaskService.FindIndex | src/services/api/taskService.js:40-43 | `findIndex`: absent exactly when no task has the id; otherwise the first position holding it |
| TaskService.GetById | src/services/api/taskService.js:15-19 | `null` exactly when no task has the id; otherwise the task at the first index holding the id |
| TaskService.GetByIdUnique | src/services/api/taskService.js:15-19 | with distinct ids, `getById` returns a task exactly when that task is stored under the id |
| TaskService.Create | src/services/api/taskService.js:21-36 | always resolves; the store gains exactly the new task at its end; title and category are copied; description defaults to `''`, priority to `'medium'` and due date to `null` when missing or empty; the new task is uncompleted with no completion time |
| TaskService.CreateKeepsInvariants | src/services/api/taskService.js:21-36 | with a fresh id, ids stay distinct, the new task satisfies the completion invariant, and `getById` finds it |
| TaskService.Merge | src/services/api/taskService.js:45 | the spread keeps the id, the creation time and the completion time (the keys an update never carries), and keeps `completed` when the update omits it |
| TaskService.Updated | src/services/api/taskService.js:45-50 | supplied fields overwrite, others are kept, id and creation time are never touched; `completedAt` is set on a truthy `completed` for an uncompleted task, cleared on a non-truthy one for a completed task, and kept otherwise |
| TaskService.Update | src/services/api/taskService.js:38-54 | rejects with "Task not found" exactly when the id is unknown, leaving the store as it was; otherwise writes the merged task at the first position with the id and resolves with it; length and id order are kept |
| TaskService.UpdateConsistencyIff | src/services/api/taskService.js:45-50 | on a consistent task, an update keeps `completed` and `completedAt` in agreement if and only if it supplies `completed` or the task was uncompleted |
| TaskService.MoveOfCompletedTaskClearsCompletedAt | src/services/api/taskService.js:48-50 | a category-only update of a completed task leaves it completed with `completedAt` cleared |
| TaskService.Delete | src/services/api/taskService.js:56-64 | rejects with "Task not found" exactly when the id is unknown; otherwise removes exactly the first task with the id: the tasks before it stay in place, the ones after it move up by one, and it resolves with `true` |
| TaskService.DeleteRemovesId | src/services/api/taskService.js:56-64 | with distinct ids, no task carries the id after a successful delete |
| TaskService.GetByCategory | src/services/api/taskService.js:66-69 | exactly the tasks filed under the category, with their multiplicities, in store order |
| TaskService.Search | src/services/api/taskService.js:71-78 | exactly the tasks whose lower-cased title or description contains the lower-cased query, in store order |
| TaskService.SearchEmptyQuery | src/services/api/taskService.js:71-78 | an empty query returns every task in order |
| TaskService.ListedTasks | src/services/api/taskService.js:92-98 | at most one task per listed id, each a stored task whose id is listed and the first stored task carrying that id |
| TaskService.ListedTasksFollowIds | src/services/api/taskService.js:92-98 | the listed tasks carry the listed ids in the listed order, with ids that no task carries skipped |
| TaskService.ListedTasksIds | src/services/api/taskService.js:92-98 | when every listed id exists, the listed tasks carry exactly the listed ids in the listed order |
| TaskService.FilterByIdIsLookup | src/services/api/taskService.js:94 | with distinct ids, filtering by one id yields exactly what `find` returns |
| TaskService.ListedTasksMultiset | src/services/api/taskService.js:92-98 | with no repeated ids on either side, the listed tasks are, as a multiset, the tasks whose id is listed |
| TaskService.UpdateOrder | src/services/api/taskService.js:89-109 | the leading part is exactly the listed tasks (for each listed id in turn, the first stored task with it), so it carries the listed ids in the listed order with unknown ids skipped; every unlisted task follows, in its previous order, with its multiplicity (the length is the listed part plus the number of unlisted tasks); nothing new appears |
| TaskService.UpdateOrderIsPermutation | src/services/api/taskService.js:89-109 | with no repeated ids, the new order is a permutation of the old |
| TaskService.UpdateOrderFollowsIds | src/services/api/taskService.js:89-109 | when `ids` names every task and only existing ones, the new id order is exactly `ids` |
| TaskService.ToggleComplete | src/services/api/taskService.js:80-87 | rejects with "Task not found" exactly when the id is unknown; otherwise flips `completed`, stamps `completedAt` with the current time when switching on and clears it when switching off, changes no other field, and writes the task back in place |
| TaskService.ToggledTwiceRecord | src/services/api/taskService.js:80-87 | a record toggled twice differs from the original at most in `completedAt`, which reflects the second toggle |
| TaskService.ToggleTwice | src/services/api/taskService.js:80-87 | two toggles restore the store except that task's `completedAt`, which reflects the second toggle |
| TaskService.ToggleTwiceRestores | src/services/api/taskService.js:80-87 | for a consistent uncompleted task, two toggles restore the store exactly |
| Text.ToLower | src/services/api/taskService.js:73 | same length; each capital A-Z becomes its lower-case letter; every other character unchanged |
| Text.ToLowerWithoutCapitals | src/services/api/taskService.js:73 | a string with no capital letter lower-cases to itself |
| Text.IncludesImpliesOccurs | src/services/api/taskService.js:75-76 | when `includes` holds, the query occurs at some position |
| Text.OccursImpliesIncludes | src/services/api/taskService.js:75-76 | an occurrence of the query at any position makes `includes` hold |
| Text.IncludesIffOccurs | src/services/api/taskService.js:75-76 | `includes` holds exactly when the query occurs at some position |
| Text.Includes | src/services/api/taskService.js:75-76 | no contract of its own: `includes` as recursion on the text, characterised by `Text.IncludesIffOccurs` |
| Text.NotIncludesWithoutFirstChar | src/services/api/taskService.js:75-76 | a non-empty query whose first character never appears in the text is not included in it |
| Text.Trim | src/components/organisms/AddTaskModal.jsx:40 | the result is a contiguous slice of the input with only white space before and after it, and does not itself start or end with white space; it is empty exactly when the input is all white space |
| TaskManager.LoadData | src/components/pages/TaskManager.jsx:22-40 | loading always ends; on success both collections are replaced and the error is cleared; on failure both collections are kept and the error is the rejection's message, or the fallback when that is empty |
| TaskManager.LoadDataSettles | src/components/pages/TaskManager.jsx:138-173 | the spinner shows before the load; afterwards the board shows on success and the error screen on failure |
| TaskManager.ScreenOf | src/components/pages/TaskManager.jsx:138-173 | no contract of its own: the three render branches, loading before a truthy error before the board; `TaskManager.LoadDataSettles` states how loading moves through them |
| TaskManager.WithTaskCounts | src/components/pages/TaskManager.jsx:46-59 | every category's count becomes the number of tasks filed under it; all other fields, the order and the length are kept |
| TaskManager.Recount | src/components/pages/TaskManager.jsx:48-51 | the `map` itself: same categories, each with its filed-task count |
| TaskManager.WithTaskCountsIgnoresReportedCounts | src/components/pages/TaskManager.jsx:48-51 | the result does not depend on the counts already stored, and recounting twice changes nothing |
| TaskManager.FilteredTasks | src/components/pages/TaskManager.jsx:62-80 | a subsequence holding exactly the tasks in the selected category (when one is selected) that match the search text (when it is non-empty); with neither, every task in order |
| TaskManager.FilteredTasksIsServiceQuery | src/components/pages/TaskManager.jsx:62-80 | the page's filter equals the service's `search` over the service's `getByCategory` |
| TaskManager.CompletionStats | src/components/pages/TaskManager.jsx:83-87 | `total` is the number of tasks and `completed <= total`; they are equal exactly when all tasks are completed, and `completed` is 0 exactly when none is |
| TaskManager.HandleAddTask | src/components/pages/TaskManager.jsx:90-99 | a created task is appended; on failure the tasks are kept and the error is rethrown |
| TaskManager.ReplaceById | src/components/pages/TaskManager.jsx:105-107 | same length; every task with the id becomes the updated task; every other task is kept |
| TaskManager.ReplaceByIdIsStoreWrite | src/components/pages/TaskManager.jsx:123-125 | with distinct ids, the page's replacement is the service's in-place write, or no change for an unknown id |
| TaskManager.ApplyReply | src/components/pages/TaskManager.jsx:102-131 | a resolved reply replaces by id; a rejected one leaves the tasks unchanged |
| AddTaskModal.ValidateForm | src/components/organisms/AddTaskModal.jsx:37-50 | a title error exactly when the title is all white space, a category error exactly when no category is chosen, no other key, and every entry is a message |
| AddTaskModal.ValidIff | src/components/organisms/AddTaskModal.jsx:37-50 | the form is valid exactly when the title has a non-white-space character and a category is chosen; both errors are reported together |
| AddTaskModal.HandleChange | src/components/organisms/AddTaskModal.jsx:30-35 | only the edited field changes; its error becomes `null` only if it had one; other errors stay |
| AddTaskModal.HandleSubmit | src/components/organisms/AddTaskModal.jsx:52-82 | errors are the validation's; `onSubmit` is called exactly when the form is valid, with the form's fields, a `null` due date exactly for an empty one and otherwise the ISO conversion of the entered date; the modal closes and resets exactly when valid and `onSubmit` resolves; otherwise the form is kept |
| AddTaskModal.SubmittedTaskMatchesForm | src/components/organisms/AddTaskModal.jsx:60-65 | the task the service builds from a valid submission carries the form's title, description and category; its priority is the form's, or medium if empty; it has a due date exactly when one was entered |
| TaskCard.PriorityColor | src/components/molecules/TaskCard.jsx:50-57 | each known priority maps to its own variant, in both directions; any other priority maps to "default" |
| TaskCard.PriorityIcon | src/components/molecules/TaskCard.jsx:59-66 | high and low have their own icons, in both directions; medium and unknown priorities share "Minus" |
| TaskCard.PriorityDot | src/components/molecules/TaskCard.jsx:129-131 | high is red and medium amber, in both directions; everything else is shown as low |
| TaskCard.DotAgreesWithBadgeIffKnown | src/components/molecules/TaskCard.jsx:129-131 | the dot matches the badge exactly for the three known priorities |
| TaskCard.DragItemOf | src/components/molecules/TaskCard.jsx:21-23 | the drag item carries the task's id and category |
| TaskCard.HandleToggleComplete | src/components/molecules/TaskCard.jsx:29-48 | `onToggleComplete` is called once with the task's id; the celebration runs exactly for a truthy argument on an uncompleted task |
| TaskCard.CheckboxClickCelebratesIffUncompleted | src/components/molecules/TaskCard.jsx:112-116 | since the checkbox passes its event object, a click celebrates exactly when the task is uncompleted |
| Header.CompletionPercentage | src/components/organisms/Header.jsx:15-17 | 0 with no tasks; within [0, 100]; 100 exactly when all of at least one task are completed; 0 exactly when there are no tasks or none is completed; with tasks, the value times the total is 100 times the completed count |
| Header.Remaining | src/components/organisms/Header.jsx:70 | between 0 and the total |
| Header.PercentageOfTasks | src/components/organisms/Header.jsx:11-17 | the default stats show 0; for the page's stats the percentage is in [0, 100] and is 100 exactly when all of at least one task are completed; "remaining" is the number of uncompleted tasks |
| CategorySidebar.AllTasksCount | src/components/molecules/CategorySidebar.jsx:50 | 0 with no categories; non-negative when every count is |
| CategorySidebar.RecountSum | src/components/molecules/CategorySidebar.jsx:50 | with distinct category ids, the sum of recounted counts is the number of tasks filed under one of the categories |
| CategorySidebar.AllTasksCountIsFiledTasks | src/components/molecules/CategorySidebar.jsx:50 | once counts are derived, the "All Tasks" badge counts the tasks filed under an existing category; it never exceeds the number of tasks |
| CategorySidebar.Entries | src/components/molecules/CategorySidebar.jsx:30-60 | "All Tasks" first, then one entry per category in order |
| CategorySidebar.Selection | src/components/molecules/CategorySidebar.jsx:34-60 | a click on "All Tasks" emits `null` and one on a category emits its id, and the emitted selection highlights the clicked entry |
| CategorySidebar.Highlighted | src/components/molecules/CategorySidebar.jsx:36-62 | no contract of its own: `selectedCategory === null` for "All Tasks", `=== category.id` for a category; the `Only…Highlighted` lemmas and `CategorySidebar.ExactlyOneHighlighted` state what it selects |
| CategorySidebar.OnlyAllTasksHighlighted | src/components/molecules/CategorySidebar.jsx:36 | with nothing selected exactly one entry, "All Tasks", is highlighted |
| CategorySidebar.OnlyItsCategoryHighlighted | src/components/molecules/CategorySidebar.jsx:62 | selecting an existing id highlights exactly one entry |
| CategorySidebar.NothingHighlightedForUnknownId | src/components/molecules/CategorySidebar.jsx:36-62 | an id naming no category highlights nothing |
| CategorySidebar.ExactlyOneHighlighted | src/components/molecules/CategorySidebar.jsx:34-62 | clicking an entry highlights that entry; a `null` or existing selection highlights exactly one entry, and an unknown one none |
| TaskList.Drop | src/components/organisms/TaskList.jsx:20-24 | a move is requested exactly when the card's category differs from the list's, and it moves that task to the list's category |
| TaskList.DropOnList | src/components/organisms/TaskList.jsx:37-63 | an empty list has no drop target; otherwise the drop rule applies |
| TaskList.DropOfCard | src/components/organisms/TaskList.jsx:14-24 | a card dropped on its own category's list requests nothing; a categorised card dropped on the `null` list is moved to `null` |
| TaskList.GetCategoryById | src/components/organisms/TaskList.jsx:30 | absent exactly when no category has the id; otherwise the first category with it |
| TaskList.GetCategoryByIdUnique | src/components/organisms/TaskList.jsx:30 | with distinct ids, the lookup returns a category exactly when it is listed under that id |
| Flows.Mount | src/components/pages/TaskManager.jsx:21-59 | after a successful load the page shows the board with the store's tasks; the categories are the loaded ones with their counts re-derived from the store's tasks; with distinct ids it is in step with the store |
| Flows.AddTask | src/components/pages/TaskManager.jsx:90-99 | no contract of its own: `create` on the store, then `handleAddTask` and the count effect; `Flows.AddTaskKeepsSynced` states its effect |
| Flows.AddTaskKeepsSynced | src/components/pages/TaskManager.jsx:90-99 | with a fresh id, adding keeps the page in step with the store and adds one task; the categories are the old ones recounted over the new store; total goes up by one and completed stays the same |
| Flows.ToggleTask | src/components/pages/TaskManager.jsx:102-114 | no contract of its own: `toggleComplete` on the store, then the page's replace-by-id and the count effect on success; `Flows.ToggleTaskKeepsSynced` and `Flows.ToggleTaskMovesCompletedCount` state its effect |
| Flows.ToggleTaskKeepsSynced | src/components/pages/TaskManager.jsx:102-114 | a toggle keeps the page in step; an unknown id changes nothing; the page's tasks become the service's toggled array and the categories are the old ones recounted over the new store |
| Flows.ToggleTaskMovesCompletedCount | src/components/pages/TaskManager.jsx:83-114 | toggling an existing task keeps the total and moves the completed count by one in the toggled direction |
| Flows.MoveTask | src/components/pages/TaskManager.jsx:117-131 | no contract of its own: `update` with only `categoryId`, then replace-by-id and the count effect on success; `Flows.MoveTaskKeepsSynced` states its effect |
| Flows.MoveTaskKeepsSynced | src/components/pages/TaskManager.jsx:117-131 | a move keeps the page in step; an unknown id changes nothing; otherwise only that task changes, ids are kept, the counts are re-derived from the new tasks, the task's category is the new one, and if it was completed it stays completed without `completedAt` |
| Flows.DropCard | src/components/pages/TaskManager.jsx:209-215 | no contract of its own: a drop on the list compared against the current selected category, passed to `Flows.MoveTask`; the `Flows.DropIn…` lemmas state its effect |
| Flows.DropInCategoryViewIsNoop | src/components/pages/TaskManager.jsx:209-215 | with a category selected and the drop handler reading the current category, dropping any visible card changes nothing |
| Flows.DropCardAsMounted | src/components/organisms/TaskList.jsx:18-28 | no contract of its own: the same drop compared against the `null` category the list held at its first render; `Flows.MountTimeDropInCategoryViewUncategorises` states its effect |
| Flows.MountTimeDropInCategoryViewUncategorises | src/components/organisms/TaskList.jsx:18-28 | with the drop handler fixed at the first render (list category `null`), dropping a visible card in a category view moves it to `null`, keeping the page in step, where the current-value handler changes nothing |
| Flows.DropInAllTasksViewIsMove | src/components/pages/TaskManager.jsx:209-215 | in the "All Tasks" view, dropping a visible card that has a category is a move of that task to `null` |
| Flows.DropInAllTasksViewUncategorises | src/components/pages/TaskManager.jsx:209-215 | that drop keeps the page in step; the task stays in the store, with category `null` |
| Flows.UncategorisingLowersAllTasksCount | src/components/molecules/CategorySidebar.jsx:50 | clearing the category of a task filed under an existing category lowers the "All Tasks" total of the re-derived counts by one |
| Flows.StoredAtItsIndex | src/services/api/taskService.js:15-19 | with distinct ids, a stored task is the one the lookup of its id finds |
| Flows.MoveOutLowersAllTasksCount | src/components/pages/TaskManager.jsx:117-131 | moving a stored task filed under an existing category to `null` lowers the "All Tasks" badge by one |
| Flows.DropInAllTasksViewLowersAllTasksCount | src/components/pages/TaskManager.jsx:209-215 | with distinct category ids, that drop lowers the "All Tasks" badge by one when the task was filed under an existing category |
| Flows.SubmitForm | src/components/organisms/AddTaskModal.jsx:52-82 | no contract of its own: validation, then `handleAddTask`, whose rethrown error decides whether the modal closes; `Flows.SubmitFormFlow` states its effect |
| Flows.SubmitFormFlow | src/components/organisms/AddTaskModal.jsx:52-82 | an invalid form changes nothing and keeps the modal open; a valid one appends exactly one uncompleted task with the form's title and category, keeps the page in step, and closes and resets the modal |
| Flows.SingleTaskCounts | src/components/pages/TaskManager.jsx:48-51 | with a single task, a category counts 1 exactly when the task is filed under it |
| Flows.DraftTitleHasDraft | src/components/pages/TaskManager.jsx:72-76 | "draft" matches a task titled "Draft report" |
| Flows.DraftTitleLacksZzz | src/components/pages/TaskManager.jsx:72-76 | "zzz" does not match a task titled "Draft report" with no description |
| Flows.DraftTitleMatches | src/components/pages/TaskManager.jsx:72-76 | "draft" matches a task titled "Draft report" and "zzz" does not |
| Flows.ExampleQueriesLowered | src/components/pages/TaskManager.jsx:71 | the queries "draft" and "zzz" are already lower-case |
| Flows.SearchFindsDraft | src/components/pages/TaskManager.jsx:71-77 | over a single task titled "Draft report", searching "draft" shows it |
| Flows.SearchMissesDraft | src/components/pages/TaskManager.jsx:71-77 | over that task, searching "zzz" shows nothing |
| Flows.SearchForDraft | src/components/pages/TaskManager.jsx:71-77 | over that single task, searching "draft" shows it and searching "zzz" shows nothing |
| Flows.AddToEmptyBoard | src/components/pages/TaskManager.jsx:90-99 | adding the first task to an empty board leaves the store and the page holding just that task, in step, with the categories recounted over it |
| Flows.ToggleOnlyTask | src/components/pages/TaskManager.jsx:102-114 | toggling the only task leaves one task with its completion flipped and every other field but `completedAt` kept, in step, with the categories recounted over it |
| Flows.MoveOnlyTask | src/components/pages/TaskManager.jsx:117-131 | moving the only task leaves one task under the new category with title and description kept, in step, with the categories recounted over it |
| Flows.WorkThenPersonalWalkthrough | src/components/pages/TaskManager.jsx:46-131 | walkthrough: a task added under "work" counts 1 there; completing it gives 1 of 1; moving it to "personal" moves the count; "draft" finds it and "zzz" finds nothing |

## Left out

- Delays, `Date.now()` ids and `new Date().toISOString()` timestamps: the fresh id and the current time are parameters. Freshness of the id is a precondition where distinct ids matter.
- `getAll`: it only copies the array, so the store is read directly.
- The category service is not part of this model. `loadData` receives the combined outcome of both fetches as one `Result`. Which of two rejections `Promise.all` reports depends on timing.
- Concurrency: overlapping async handlers, and the "last write wins" race on one id, are not modelled. Each flow runs to completion before the next.
- Stale closures in general: `useDrag` in the card is created without dependencies, so its item may carry an older copy of the task. The model uses the current values. The list's drop handler is the one case modelled both ways; see "## Findings".
- Flows.DropInCategoryViewIsNoop: holds only for a drop handler that reads the current closure values. In the program, `useDrop` gets a spec factory with no dependency list, so the list keeps the handler from its first render, whose category is the initial `null`. That behaviour is `Flows.DropCardAsMounted`, and `Flows.MountTimeDropInCategoryViewUncategorises` states its effect.
- Flows.Mount: assumes the two state updates in `loadData` are batched into one render, as React 18 does, so the count effect sees the loaded categories. Without batching the effect would run while the categories are still empty and would not run again.
- Text.ToLower: lowers ASCII letters only. JavaScript's full Unicode case mapping is left out.
- Header.CompletionPercentage: computed over exact reals rather than IEEE doubles. `ProgressRing`'s rounding and drawing are left out.
- TaskService.Create: an input without `title` or without `categoryId` is not modelled. The model's title is always a string, and an absent `categoryId` is stored as `null`. The source stores `undefined` instead; `getByCategory(null)` would then skip that task, the list's `!==` test would treat it as categorised, and `search` would throw on the missing title. The page's only caller, the modal, always supplies both fields, because it rejects a blank title and an empty category.
- TaskService.Update: update objects carrying `id`, `createdAt` or `completedAt` keys are not modelled. The page only ever sends `completed` or `categoryId`.
- The search bar's debounce, toasts, confetti, animation and the heading text are presentation only.
- Due-date formatting and colouring with `date-fns`, and the modal's `initialData` prefill, are left out. The page never passes `initialData`.
- The `isSubmitting` flag is left out.
- AddTaskModal.HandleSubmit: the due-date conversion is a parameter `toIso`. The exception `toISOString` throws on an invalid date is not modelled.
- `onEdit` and `onDelete` on the card and list are left out. The page never passes them, so delete is reachable only through the service, where `TaskService.Delete` models it.

## Findings

| source | as written | input that shows it | evidently intended | confidence | as-written member | corrected member |
|---|---|---|---|---|---|---|
| src/components/organisms/TaskList.jsx:18-28 | the drop spec is handed to `useDrop` as a factory with no dependency list, so it keeps the `categoryId` of the list's first render, which is `null` | select category "work", then drop a visible card filed under "work" on the list: the handler sees `"work" !== null` and moves the task to `null` | the drop compares against the list's current category, so a drop in a category view on that category's own card does nothing | medium, not executed; rests on react-dnd building a spec factory once when no dependency list is given | Flows.MountTimeDropInCategoryViewUncategorises | Flows.DropInCategoryViewIsNoop |
