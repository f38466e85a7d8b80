/** The task-manager page: the state it holds, the views it derives from that
    state (filtered list, per-category counts, completion statistics), and how
    it folds the task service's replies into its own copy of the tasks. */
module TaskManager {
  import opened Wrappers
  import opened Seqs
  import opened Text
  import opened Domain
  import TaskService

  /** The message shown when the initial load rejects with an empty message. */
  const LoadFailed: string := "Failed to load data"

  /** The page's state hooks (the modal's open flag is left to the modal). */
  datatype PageState = PageState(
    tasks: seq<Task>,
    categories: seq<Category>,
    selectedCategory: Option<Id>,
    searchQuery: string,
    loading: bool,
    error: Option<string>)

  /** The state on mount: nothing loaded, no filter, loading. */
  function Initial(): PageState {
    PageState([], [], None, "", true, None)
  }

  /** What the page renders: the spinner, the error screen, or the board. */
  datatype Screen = Spinner | ErrorScreen(message: string) | Board

  /** The render branches: loading first, then a (truthy) error, then the board. */
  function ScreenOf(s: PageState): Screen {
    if s.loading then Spinner
    else if s.error.Some? && s.error.value != "" then ErrorScreen(s.error.value)
    else Board
  }

  /** `loadData`: `fetched` is how `Promise.all` over both fetches settled. On
      success both collections are replaced and the error cleared; on failure
      the collections stay as they were and the error holds the rejection's
      message or, when that is empty, the fallback message. Loading ends either way. */
  function LoadData(s: PageState, fetched: Result<(seq<Task>, seq<Category>), string>): (r: PageState)
    ensures !r.loading
    ensures r.selectedCategory == s.selectedCategory && r.searchQuery == s.searchQuery
    ensures fetched.Success? ==> r.tasks == fetched.value.0 && r.categories == fetched.value.1 && r.error.None?
    ensures fetched.Failure? ==> r.tasks == s.tasks && r.categories == s.categories
    ensures fetched.Failure? ==> r.error.Some? && r.error.value != ""
    ensures fetched.Failure? && fetched.error != "" ==> r.error == Some(fetched.error)
    ensures fetched.Failure? && fetched.error == "" ==> r.error == Some(LoadFailed)
  {
    var started := s.(loading := true, error := None);
    var settled :=
      match fetched
      case Success(data) => started.(tasks := data.0, categories := data.1)
      case Failure(message) => started.(error := Some(if message != "" then message else LoadFailed));
    settled.(loading := false)
  }

  /** After the load settles the page leaves the spinner: it shows the board on
      success and the error screen on failure. */
  lemma LoadDataSettles(s: PageState, fetched: Result<(seq<Task>, seq<Category>), string>)
    ensures fetched.Success? ==> ScreenOf(LoadData(s, fetched)) == Board
    ensures fetched.Failure? ==> ScreenOf(LoadData(s, fetched)).ErrorScreen?
    ensures ScreenOf(Initial()) == Spinner
  {
  }

  /** The category-count effect: when there are categories, each one's
      `taskCount` becomes the number of tasks filed under it; every other field,
      the order and the length are kept. With no categories nothing happens. */
  function WithTaskCounts(tasks: seq<Task>, categories: seq<Category>): (r: seq<Category>)
    ensures |r| == |categories|
    ensures forall i :: 0 <= i < |r| ==>
      r[i] == categories[i].(taskCount := r[i].taskCount)
      && r[i].taskCount == |TaskService.GetByCategory(tasks, Some(categories[i].id))|
  {
    if |categories| > 0 then Recount(tasks, categories) else categories
  }

  /** `categories.map(category => ({ ...category, taskCount: ... }))`. */
  function Recount(tasks: seq<Task>, categories: seq<Category>): (r: seq<Category>)
    ensures |r| == |categories|
    ensures forall i :: 0 <= i < |r| ==>
      r[i] == categories[i].(taskCount := Count(tasks, TaskService.InCategory(Some(categories[i].id))))
  {
    if |categories| == 0 then []
    else
      var c := categories[0];
      [c.(taskCount := Count(tasks, TaskService.InCategory(Some(c.id))))] + Recount(tasks, categories[1..])
  }

  /** Re-deriving the counts a second time changes nothing, and the counts the
      backend reported play no part: only the tasks decide them. */
  lemma WithTaskCountsIgnoresReportedCounts(tasks: seq<Task>, categories: seq<Category>, reported: seq<Category>)
    requires |reported| == |categories|
    requires forall i :: 0 <= i < |categories| ==> reported[i] == categories[i].(taskCount := reported[i].taskCount)
    ensures WithTaskCounts(tasks, reported) == WithTaskCounts(tasks, categories)
    ensures WithTaskCounts(tasks, WithTaskCounts(tasks, categories)) == WithTaskCounts(tasks, categories)
  {
    var a, b := WithTaskCounts(tasks, reported), WithTaskCounts(tasks, categories);
    assert forall i :: 0 <= i < |a| ==> a[i] == b[i];
    var c := WithTaskCounts(tasks, b);
    assert forall i :: 0 <= i < |c| ==> c[i] == b[i];
  }

  /** `if (selectedCategory)`: a category filter is in force for a non-empty id only. */
  predicate CategoryFilterActive(selected: Option<Id>) {
    selected.Some? && selected.value != ""
  }

  /** `filteredTasks`: the tasks of the selected category (when one is selected),
      then those matching the search text (when it is non-empty). */
  function FilteredTasks(tasks: seq<Task>, selected: Option<Id>, query: string): (r: seq<Task>)
    ensures IsSubsequence(r, tasks)
    ensures forall t :: t in r <==>
      && t in tasks
      && (CategoryFilterActive(selected) ==> t.categoryId == selected)
      && (query != "" ==> TaskService.MatchesQuery(t, ToLower(query)))
    ensures !CategoryFilterActive(selected) && query == "" ==> r == tasks
  {
    var byCategory := if CategoryFilterActive(selected) then TaskService.GetByCategory(tasks, selected) else tasks;
    SubsequenceRefl(tasks);
    if query != "" then
      var r := TaskService.Search(byCategory, query);
      SubsequenceTrans(r, byCategory, tasks);
      r
    else byCategory
  }

  /** The page's filtered view is the service's `search` applied to the service's
      `getByCategory` when a category is selected, and to all tasks otherwise. */
  lemma FilteredTasksIsServiceQuery(tasks: seq<Task>, selected: Option<Id>, query: string)
    ensures FilteredTasks(tasks, selected, query) ==
      var base := if CategoryFilterActive(selected) then TaskService.GetByCategory(tasks, selected) else tasks;
      TaskService.Search(base, query)
  {
    if query == "" {
      var base := if CategoryFilterActive(selected) then TaskService.GetByCategory(tasks, selected) else tasks;
      TaskService.SearchEmptyQuery(base);
    }
  }

  /** The header's statistics. */
  datatype Stats = Stats(completed: nat, total: nat)

  /** `task => task.completed`. */
  function IsCompleted(): Task -> bool {
    (t: Task) => t.completed
  }

  /** `completionStats`: how many tasks are completed, out of how many. */
  function CompletionStats(tasks: seq<Task>): (r: Stats)
    ensures r.total == |tasks| && r.completed <= r.total
    ensures r.completed == r.total <==> forall i :: 0 <= i < |tasks| ==> tasks[i].completed
    ensures r.completed == 0 <==> forall i :: 0 <= i < |tasks| ==> !tasks[i].completed
  {
    CountAll(tasks, IsCompleted());
    CountNone(tasks, IsCompleted());
    Stats(Count(tasks, IsCompleted()), |tasks|)
  }

  /** `handleAddTask`: the page's tasks and the error it rethrows to the modal. */
  datatype AddOutcome = AddOutcome(tasks: seq<Task>, rethrown: Option<string>)

  /** `handleAddTask`: on success the created task is appended to the page's
      tasks; on failure they are kept and the error is rethrown. */
  function HandleAddTask(tasks: seq<Task>, created: Result<Task, string>): (r: AddOutcome)
    ensures created.Success? ==> r.tasks == tasks + [created.value] && r.rethrown.None?
    ensures created.Failure? ==> r.tasks == tasks && r.rethrown == Some(created.error)
  {
    match created
    case Success(t) => AddOutcome(tasks + [t], None)
    case Failure(e) => AddOutcome(tasks, Some(e))
  }

  /** `prev.map(task => task.id === taskId ? updatedTask : task)`. */
  function ReplaceById(tasks: seq<Task>, taskId: Id, updated: Task): (r: seq<Task>)
    ensures |r| == |tasks|
    ensures forall i :: 0 <= i < |tasks| && tasks[i].id != taskId ==> r[i] == tasks[i]
    ensures forall i :: 0 <= i < |tasks| && tasks[i].id == taskId ==> r[i] == updated
  {
    if |tasks| == 0 then []
    else [if tasks[0].id == taskId then updated else tasks[0]] + ReplaceById(tasks[1..], taskId, updated)
  }

  /** With distinct ids, replacing by id is the service's write at the position it found. */
  lemma ReplaceByIdIsStoreWrite(tasks: seq<Task>, taskId: Id, updated: Task)
    requires DistinctIds(tasks)
    ensures !HasId(tasks, taskId) ==> ReplaceById(tasks, taskId, updated) == tasks
    ensures HasId(tasks, taskId) ==>
      ReplaceById(tasks, taskId, updated) == tasks[TaskService.FindIndex(tasks, taskId).value := updated]
  {
    var r := ReplaceById(tasks, taskId, updated);
    if HasId(tasks, taskId) {
      var k := TaskService.FindIndex(tasks, taskId).value;
      assert forall i :: 0 <= i < |tasks| ==> r[i] == tasks[k := updated][i];
    } else {
      assert forall i :: 0 <= i < |tasks| ==> r[i] == tasks[i];
    }
  }

  /** The reconciliation shared by `handleToggleComplete` and `handleTaskDrop`:
      a resolved reply replaces the tasks with that id, a rejected one changes nothing. */
  function ApplyReply(tasks: seq<Task>, taskId: Id, reply: Result<Task, string>): (r: seq<Task>)
    ensures reply.Failure? ==> r == tasks
    ensures reply.Success? ==> r == ReplaceById(tasks, taskId, reply.value)
  {
    match reply
    case Success(t) => ReplaceById(tasks, taskId, t)
    case Failure(_) => tasks
  }
}
