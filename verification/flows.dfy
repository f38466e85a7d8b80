/** The page wired to the mock task service. Each user action runs the
    service call against the store, folds the reply into the page's copy of
    the tasks and, when that copy changed, lets the category-count effect
    re-derive the counts. */
module Flows {
  import opened Wrappers
  import opened Seqs
  import opened Domain
  import TaskService
  import TaskManager
  import AddTaskModal
  import TaskCard
  import TaskList
  import CategorySidebar
  import Text

  /** The service's array and the page's state. */
  datatype App = App(store: seq<Task>, page: TaskManager.PageState)

  /** The category-count effect, run after the page's tasks change. */
  function Refresh(page: TaskManager.PageState): TaskManager.PageState {
    page.(categories := TaskManager.WithTaskCounts(page.tasks, page.categories))
  }

  /** The page mirrors the store, ids are distinct and the counts are current. */
  ghost predicate Synced(app: App) {
    && app.page.tasks == app.store
    && DistinctIds(app.store)
    && app.page.categories == TaskManager.WithTaskCounts(app.store, app.page.categories)
  }

  /** Arrays with the same ids position by position agree on distinctness. */
  lemma SameIdsKeepDistinct(a: seq<Task>, b: seq<Task>)
    requires Ids(a) == Ids(b) && DistinctIds(a)
    ensures DistinctIds(b)
  {
    forall i, j | 0 <= i < j < |b| ensures b[i].id != b[j].id {
      assert b[i].id == Ids(b)[i] == Ids(a)[i] == a[i].id;
      assert b[j].id == Ids(b)[j] == Ids(a)[j] == a[j].id;
    }
  }

  /** Mount: `loadData` over both `getAll` calls, which resolve here (the mock
      task service never rejects it and the category service resolves with an
      empty list on failure), followed by the count effect. */
  function Mount(store: seq<Task>, categories: seq<Category>): (r: App)
    ensures r.store == store && r.page.tasks == store
    ensures TaskManager.ScreenOf(r.page) == TaskManager.Board
    ensures DistinctIds(store) ==> Synced(r)
    ensures r.page.categories == TaskManager.WithTaskCounts(store, categories)
  {
    TaskManager.WithTaskCountsIgnoresReportedCounts(store, categories, categories);
    App(store, Refresh(TaskManager.LoadData(TaskManager.Initial(), Success((store, categories)))))
  }

  /** The page after `handleAddTask`, and what it rethrew. */
  datatype Added = Added(app: App, rethrown: Option<string>)

  /** `handleAddTask` calling the service's `create`. */
  function AddTask(app: App, input: TaskService.TaskInput, freshId: Id, now: Timestamp): Added {
    var reply := TaskService.Create(app.store, input, freshId, now);
    var out := TaskManager.HandleAddTask(app.page.tasks, reply.result);
    var page := app.page.(tasks := out.tasks);
    Added(App(reply.tasks, if reply.result.Success? then Refresh(page) else page), out.rethrown)
  }

  /** Adding a task with a fresh id keeps the page in step with the store, adds
      one to the total and leaves the completed count alone. */
  lemma AddTaskKeepsSynced(app: App, input: TaskService.TaskInput, freshId: Id, now: Timestamp)
    requires Synced(app) && !HasId(app.store, freshId)
    ensures var r := AddTask(app, input, freshId, now);
      && Synced(r.app) && r.rethrown.None?
      && r.app.page.categories == TaskManager.WithTaskCounts(r.app.store, app.page.categories)
      && |r.app.store| == |app.store| + 1
      && TaskManager.CompletionStats(r.app.page.tasks).total == TaskManager.CompletionStats(app.page.tasks).total + 1
      && TaskManager.CompletionStats(r.app.page.tasks).completed == TaskManager.CompletionStats(app.page.tasks).completed
  {
    var r := AddTask(app, input, freshId, now);
    var t := TaskService.Create(app.store, input, freshId, now).result.value;
    TaskService.CreateKeepsInvariants(app.store, input, freshId, now);
    TaskManager.WithTaskCountsIgnoresReportedCounts(r.app.store, app.page.categories, app.page.categories);
    FilterConcat(app.store, [t], TaskManager.IsCompleted());
  }

  /** `handleToggleComplete` calling the service's `toggleComplete`. */
  function ToggleTask(app: App, taskId: Id, now: Timestamp): App {
    var reply := TaskService.ToggleComplete(app.store, taskId, now);
    var page := app.page.(tasks := TaskManager.ApplyReply(app.page.tasks, taskId, reply.result));
    App(reply.tasks, if reply.result.Success? then Refresh(page) else page)
  }

  /** A toggle keeps the page in step with the store; on an unknown id nothing
      changes, and otherwise the page's tasks are the service's toggled array. */
  lemma ToggleTaskKeepsSynced(app: App, taskId: Id, now: Timestamp)
    requires Synced(app)
    ensures Synced(ToggleTask(app, taskId, now))
    ensures !HasId(app.store, taskId) ==> ToggleTask(app, taskId, now) == app
    ensures ToggleTask(app, taskId, now).page.tasks == TaskService.ToggleComplete(app.store, taskId, now).tasks
    ensures ToggleTask(app, taskId, now).page.categories
      == TaskManager.WithTaskCounts(ToggleTask(app, taskId, now).store, app.page.categories)
  {
    var reply := TaskService.ToggleComplete(app.store, taskId, now);
    if reply.result.Success? {
      TaskManager.ReplaceByIdIsStoreWrite(app.store, taskId, reply.result.value);
      SameIdsKeepDistinct(app.store, reply.tasks);
      TaskManager.WithTaskCountsIgnoresReportedCounts(reply.tasks, app.page.categories, app.page.categories);
    }
  }

  /** A toggle of an existing task keeps the total and moves the completed
      count by one in the toggled direction. */
  lemma ToggleTaskMovesCompletedCount(app: App, taskId: Id, now: Timestamp)
    requires Synced(app) && HasId(app.store, taskId)
    ensures
      var before := TaskManager.CompletionStats(app.page.tasks);
      var after := TaskManager.CompletionStats(ToggleTask(app, taskId, now).page.tasks);
      var wasCompleted := app.store[TaskService.FindIndex(app.store, taskId).value].completed;
      && after.total == before.total
      && after.completed == if wasCompleted then before.completed - 1 else before.completed + 1
  {
    ToggleTaskKeepsSynced(app, taskId, now);
    var reply := TaskService.ToggleComplete(app.store, taskId, now);
    var k := TaskService.FindIndex(app.store, taskId).value;
    CountUpdate(app.store, k, reply.result.value, TaskManager.IsCompleted());
  }

  /** `handleTaskDrop` calling the service's `update` with only the new `categoryId`. */
  function MoveTask(app: App, taskId: Id, categoryId: Option<Id>, now: Timestamp): App {
    var reply := TaskService.Update(app.store, taskId, TaskService.CategoryOnly(categoryId), now);
    var page := app.page.(tasks := TaskManager.ApplyReply(app.page.tasks, taskId, reply.result));
    App(reply.tasks, if reply.result.Success? then Refresh(page) else page)
  }

  /** A move keeps the page in step with the store and files the task under
      the new category; on an unknown id nothing changes. */
  lemma MoveTaskKeepsSynced(app: App, taskId: Id, categoryId: Option<Id>, now: Timestamp)
    requires Synced(app)
    ensures Synced(MoveTask(app, taskId, categoryId, now))
    ensures !HasId(app.store, taskId) ==> MoveTask(app, taskId, categoryId, now) == app
    ensures HasId(app.store, taskId) ==>
      var k := TaskService.FindIndex(app.store, taskId).value;
      var after := MoveTask(app, taskId, categoryId, now).store;
      && after == app.store[k := after[k]]
      && Ids(after) == Ids(app.store)
      && MoveTask(app, taskId, categoryId, now).page.categories == TaskManager.WithTaskCounts(after, app.page.categories)
      && after[k].categoryId == categoryId
      && after[k].completed == app.store[k].completed
      && (app.store[k].completed ==> after[k].completedAt.None?)
  {
    var reply := TaskService.Update(app.store, taskId, TaskService.CategoryOnly(categoryId), now);
    if reply.result.Success? {
      TaskManager.ReplaceByIdIsStoreWrite(app.store, taskId, reply.result.value);
      SameIdsKeepDistinct(app.store, reply.tasks);
      TaskManager.WithTaskCountsIgnoresReportedCounts(reply.tasks, app.page.categories, app.page.categories);
    }
  }

  /** A card dropped on the page's one list, whose drop handler compares
      against `listCategoryId`; a move request goes to `handleTaskDrop`. */
  function DropOnPage(app: App, listCategoryId: Option<Id>, item: TaskCard.DragItem, now: Timestamp): App {
    var visible := TaskManager.FilteredTasks(app.page.tasks, app.page.selectedCategory, app.page.searchQuery);
    match TaskList.DropOnList(visible, listCategoryId, item)
    case None => app
    case Some(m) => MoveTask(app, m.taskId, m.categoryId, now)
  }

  /** The drop as the page intends it: the list's category is the page's
      current selected category. */
  function DropCard(app: App, item: TaskCard.DragItem, now: Timestamp): App {
    DropOnPage(app, app.page.selectedCategory, item, now)
  }

  /** The drop as the list holds it: `useDrop` receives a spec factory and no
      dependency list, so the spec is built once, at the list's first render.
      That render follows loading, when no category has been selected yet, so
      every later drop compares against `null`. */
  function DropCardAsMounted(app: App, item: TaskCard.DragItem, now: Timestamp): App {
    DropOnPage(app, None, item, now)
  }

  /** While a category is selected every visible card already belongs to it,
      so dropping one of them changes nothing. */
  lemma DropInCategoryViewIsNoop(app: App, t: Task, now: Timestamp)
    requires TaskManager.CategoryFilterActive(app.page.selectedCategory)
    requires t in TaskManager.FilteredTasks(app.page.tasks, app.page.selectedCategory, app.page.searchQuery)
    ensures DropCard(app, TaskCard.DragItemOf(t), now) == app
  {
  }

  /** In a category view the mount-time handler moves a dropped visible card
      out of its category, to `null`, where the current-value handler leaves
      the page alone: the page stays in step and the task stays stored with no
      category. */
  lemma MountTimeDropInCategoryViewUncategorises(app: App, t: Task, now: Timestamp)
    requires Synced(app)
    requires TaskManager.CategoryFilterActive(app.page.selectedCategory)
    requires t in TaskManager.FilteredTasks(app.page.tasks, app.page.selectedCategory, app.page.searchQuery)
    ensures DropCard(app, TaskCard.DragItemOf(t), now) == app
    ensures var r := DropCardAsMounted(app, TaskCard.DragItemOf(t), now);
      && t.categoryId.Some?
      && Synced(r)
      && TaskService.GetById(r.store, t.id).Some?
      && TaskService.GetById(r.store, t.id).value.categoryId.None?
  {
    var visible := TaskManager.FilteredTasks(app.page.tasks, app.page.selectedCategory, app.page.searchQuery);
    assert |visible| > 0;
    assert TaskList.DropOnList(visible, None, TaskCard.DragItemOf(t)) == Some(TaskList.MoveRequest(t.id, None));
    assert t in app.store;
    MoveTaskKeepsSynced(app, t.id, None, now);
    var r := MoveTask(app, t.id, None, now);
    TaskService.FindIndexSameIds(r.store, app.store, t.id);
  }

  /** Clearing the category of a task filed under an existing category lowers
      the "All Tasks" total of the re-derived counts by one. */
  lemma UncategorisingLowersAllTasksCount(store: seq<Task>, k: nat, x: Task, categories: seq<Category>)
    requires DistinctCategoryIds(categories) && k < |store|
    requires store[k].categoryId.Some? && store[k].categoryId.value in CategoryIds(categories)
    requires x.categoryId.None?
    ensures CategorySidebar.AllTasksCount(TaskManager.WithTaskCounts(store[k := x], categories))
      == CategorySidebar.AllTasksCount(TaskManager.WithTaskCounts(store, categories)) - 1
  {
    var filed := CategorySidebar.FiledUnder(CategoryIds(categories));
    CategorySidebar.AllTasksCountIsFiledTasks(store[k := x], categories);
    CategorySidebar.AllTasksCountIsFiledTasks(store, categories);
    CountUpdate(store, k, x, filed);
    assert filed(store[k]) && !filed(x);
  }

  /** In the "All Tasks" view a visible card filed under a category is a move to `null`. */
  lemma DropInAllTasksViewIsMove(app: App, t: Task, now: Timestamp)
    requires app.page.selectedCategory.None?
    requires t in TaskManager.FilteredTasks(app.page.tasks, None, app.page.searchQuery)
    requires t.categoryId.Some?
    ensures DropCard(app, TaskCard.DragItemOf(t), now) == MoveTask(app, t.id, None, now)
  {
    var visible := TaskManager.FilteredTasks(app.page.tasks, None, app.page.searchQuery);
    assert |visible| > 0;
    assert TaskList.DropOnList(visible, None, TaskCard.DragItemOf(t)) == Some(TaskList.MoveRequest(t.id, None));
  }

  /** In the "All Tasks" view, dropping a visible card filed under an existing
      category moves the task to category `null`: the page stays in step and
      the task stays in the store, with no category. */
  lemma DropInAllTasksViewUncategorises(app: App, t: Task, now: Timestamp)
    requires Synced(app)
    requires app.page.selectedCategory.None?
    requires t in TaskManager.FilteredTasks(app.page.tasks, None, app.page.searchQuery)
    requires t.categoryId.Some?
    ensures var r := DropCard(app, TaskCard.DragItemOf(t), now);
      && Synced(r)
      && |r.store| == |app.store|
      && TaskService.GetById(r.store, t.id).Some?
      && TaskService.GetById(r.store, t.id).value.categoryId.None?
  {
    DropInAllTasksViewIsMove(app, t, now);
    assert t in app.store;
    MoveTaskKeepsSynced(app, t.id, None, now);
    var r := MoveTask(app, t.id, None, now);
    TaskService.FindIndexSameIds(r.store, app.store, t.id);
  }

  /** The same drop lowers the "All Tasks" badge by one when the task was
      filed under an existing category: it drops out of every category count. */
  lemma DropInAllTasksViewLowersAllTasksCount(app: App, t: Task, now: Timestamp)
    requires Synced(app) && DistinctCategoryIds(app.page.categories)
    requires app.page.selectedCategory.None?
    requires t in TaskManager.FilteredTasks(app.page.tasks, None, app.page.searchQuery)
    requires t.categoryId.Some? && t.categoryId.value in CategoryIds(app.page.categories)
    ensures CategorySidebar.AllTasksCount(DropCard(app, TaskCard.DragItemOf(t), now).page.categories)
      == CategorySidebar.AllTasksCount(app.page.categories) - 1
  {
    DropInAllTasksViewIsMove(app, t, now);
    StoredAtItsIndex(app.store, t);
    MoveOutLowersAllTasksCount(app, t.id, now);
  }

  /** With distinct ids, a stored task is the one its id's lookup finds. */
  lemma StoredAtItsIndex(store: seq<Task>, t: Task)
    requires DistinctIds(store) && t in store
    ensures HasId(store, t.id) && store[TaskService.FindIndex(store, t.id).value] == t
  {
    var i :| 0 <= i < |store| && store[i] == t;
    assert HasId(store, t.id);
    assert TaskService.FindIndex(store, t.id).value == i;
  }

  /** Moving a stored task filed under an existing category to `null` lowers
      the "All Tasks" badge by one. */
  lemma MoveOutLowersAllTasksCount(app: App, taskId: Id, now: Timestamp)
    requires Synced(app) && DistinctCategoryIds(app.page.categories)
    requires HasId(app.store, taskId)
    requires var t := app.store[TaskService.FindIndex(app.store, taskId).value];
      t.categoryId.Some? && t.categoryId.value in CategoryIds(app.page.categories)
    ensures CategorySidebar.AllTasksCount(MoveTask(app, taskId, None, now).page.categories)
      == CategorySidebar.AllTasksCount(app.page.categories) - 1
  {
    var k := TaskService.FindIndex(app.store, taskId).value;
    MoveTaskKeepsSynced(app, taskId, None, now);
    var r := MoveTask(app, taskId, None, now);
    UncategorisingLowersAllTasksCount(app.store, k, r.store[k], app.page.categories);
  }

  /** Submitting the modal: validation, then `handleAddTask`, whose rethrown
      error (if any) decides whether the modal closes. */
  function SubmitForm(app: App, form: AddTaskModal.FormData, toIso: string -> string, freshId: Id, now: Timestamp)
    : (App, AddTaskModal.SubmitOutcome)
  {
    if AddTaskModal.IsValid(form) then
      var added := AddTask(app, AddTaskModal.TaskData(form, toIso), freshId, now);
      (added.app, AddTaskModal.HandleSubmit(form, toIso, added.rethrown))
    else (app, AddTaskModal.HandleSubmit(form, toIso, None))
  }

  /** An invalid form reaches neither the page nor the service; a valid one
      appends exactly one uncompleted task built from the form, keeps the page
      in step, and closes and resets the modal. */
  lemma SubmitFormFlow(app: App, form: AddTaskModal.FormData, toIso: string -> string, freshId: Id, now: Timestamp)
    requires Synced(app) && !HasId(app.store, freshId)
    ensures var (r, out) := SubmitForm(app, form, toIso, freshId, now);
      && (!AddTaskModal.IsValid(form) ==> r == app && !out.closed && out.submitted.None?)
      && (AddTaskModal.IsValid(form) ==>
            && Synced(r) && out.closed && out.form == AddTaskModal.EmptyForm()
            && |r.store| == |app.store| + 1 && r.store[..|app.store|] == app.store
            && r.store[|app.store|].title == form.title
            && r.store[|app.store|].categoryId == Some(form.categoryId)
            && !r.store[|app.store|].completed)
  {
    if AddTaskModal.IsValid(form) {
      AddTaskKeepsSynced(app, AddTaskModal.TaskData(form, toIso), freshId, now);
    }
  }

  /** With a single task, each category counts one exactly when the task is filed under it. */
  lemma SingleTaskCounts(t: Task, categories: seq<Category>)
    ensures forall i :: 0 <= i < |categories| ==>
      TaskManager.WithTaskCounts([t], categories)[i].taskCount == if t.categoryId == Some(categories[i].id) then 1 else 0
  {
    forall i | 0 <= i < |categories|
      ensures TaskManager.WithTaskCounts([t], categories)[i].taskCount == if t.categoryId == Some(categories[i].id) then 1 else 0
    {
      var g := TaskService.GetByCategory([t], Some(categories[i].id));
      if t.categoryId == Some(categories[i].id) {
        assert t in g;
      } else {
        assert multiset(g) == multiset{};
      }
    }
  }

  /** The task "Draft report" matches the query "draft". */
  lemma DraftTitleHasDraft(t: Task)
    requires t.title == "Draft report"
    ensures TaskService.MatchesQuery(t, "draft")
  {
    var lower := Text.ToLower(t.title);
    assert lower[..5] == "draft";
  }

  /** The task "Draft report" with no description does not match "zzz". */
  lemma DraftTitleLacksZzz(t: Task)
    requires t.title == "Draft report" && t.description == ""
    ensures !TaskService.MatchesQuery(t, "zzz")
  {
    var lower := Text.ToLower(t.title);
    forall j | 0 <= j < |lower| ensures lower[j] != 'z' {
      if j > 0 {
        assert lower[j] == t.title[j];
      }
    }
    Text.NotIncludesWithoutFirstChar(lower, "zzz");
    Text.NotIncludesWithoutFirstChar(Text.ToLower(t.description), "zzz");
  }

  /** The text test the search box applies, on the title "Draft report". */
  lemma DraftTitleMatches(t: Task)
    requires t.title == "Draft report" && t.description == ""
    ensures TaskService.MatchesQuery(t, "draft")
    ensures !TaskService.MatchesQuery(t, "zzz")
  {
    DraftTitleHasDraft(t);
    DraftTitleLacksZzz(t);
  }

  /** Both example queries are already lower-case. */
  lemma ExampleQueriesLowered()
    ensures Text.ToLower("draft") == "draft"
    ensures Text.ToLower("zzz") == "zzz"
  {
    Text.ToLowerWithoutCapitals("draft");
    Text.ToLowerWithoutCapitals("zzz");
  }

  /** The search box over one task titled "Draft report" finds it by "draft". */
  lemma SearchFindsDraft(t: Task)
    requires t.title == "Draft report" && t.description == ""
    ensures TaskManager.FilteredTasks([t], None, "draft") == [t]
  {
    DraftTitleHasDraft(t);
    ExampleQueriesLowered();
    assert TaskService.Matching("draft")(t);
    FilterAll([t], TaskService.Matching("draft"));
    assert TaskManager.FilteredTasks([t], None, "draft") == TaskService.Search([t], "draft");
  }

  /** The search box over one task titled "Draft report" finds nothing by "zzz". */
  lemma SearchMissesDraft(t: Task)
    requires t.title == "Draft report" && t.description == ""
    ensures TaskManager.FilteredTasks([t], None, "zzz") == []
  {
    DraftTitleLacksZzz(t);
    ExampleQueriesLowered();
  }

  /** The search box over one task titled "Draft report" with no description:
      a lower-case fragment of the title finds it, an absent one finds nothing. */
  lemma SearchForDraft(t: Task)
    requires t.title == "Draft report" && t.description == ""
    ensures TaskManager.FilteredTasks([t], None, "draft") == [t]
    ensures TaskManager.FilteredTasks([t], None, "zzz") == []
  {
    SearchFindsDraft(t);
    SearchMissesDraft(t);
  }

  /** Adding the first task to an empty board: the store and the page hold
      just that task, and the categories are recounted over it. */
  lemma AddToEmptyBoard(a0: App, input: TaskService.TaskInput, id: Id, now: Timestamp)
    requires Synced(a0) && a0.store == []
    ensures var a1 := AddTask(a0, input, id, now).app;
      var t := TaskService.Create([], input, id, now).result.value;
      && Synced(a1)
      && a1.store == [t] && a1.page.tasks == [t]
      && a1.page.categories == TaskManager.WithTaskCounts([t], a0.page.categories)
  {
    AddTaskKeepsSynced(a0, input, id, now);
    var t := TaskService.Create([], input, id, now).result.value;
    assert [] + [t] == [t];
  }

  /** Toggling the only task on the board: it is the one task afterwards,
      with its completion flipped and everything else kept, and the
      categories are recounted over it. */
  lemma ToggleOnlyTask(a1: App, t: Task, now: Timestamp)
    requires Synced(a1) && a1.store == [t]
    ensures var a2 := ToggleTask(a1, t.id, now);
      && Synced(a2)
      && |a2.store| == 1 && a2.page.tasks == a2.store
      && a2.store[0].completed == !t.completed
      && a2.store[0].(completed := t.completed, completedAt := t.completedAt) == t
      && a2.page.categories == TaskManager.WithTaskCounts(a2.store, a1.page.categories)
  {
    ToggleTaskKeepsSynced(a1, t.id, now);
    assert TaskService.FindIndex(a1.store, t.id) == Some(0);
  }

  /** Moving the only task on the board: it is the one task afterwards, under
      the new category with its title and description kept, and the
      categories are recounted over it. */
  lemma MoveOnlyTask(a2: App, t: Task, categoryId: Option<Id>, now: Timestamp)
    requires Synced(a2) && a2.store == [t]
    ensures var a3 := MoveTask(a2, t.id, categoryId, now);
      && Synced(a3)
      && |a3.store| == 1 && a3.page.tasks == a3.store
      && a3.store[0].categoryId == categoryId
      && a3.store[0].title == t.title && a3.store[0].description == t.description
      && a3.page.categories == TaskManager.WithTaskCounts(a3.store, a2.page.categories)
  {
    MoveTaskKeepsSynced(a2, t.id, categoryId, now);
    assert TaskService.FindIndex(a2.store, t.id) == Some(0);
  }

  /** A walk through the board: one task filed under "work" is counted there,
      completing it gives 1 of 1, moving it to "personal" moves the count, and
      the search box finds it by a lower-case fragment of its title. */
  lemma WorkThenPersonalWalkthrough(cats: seq<Category>, input: TaskService.TaskInput)
    requires cats == [Category("work", "Work", "blue", "briefcase", 0), Category("personal", "Personal", "green", "user", 0)]
    requires input == TaskService.TaskInput("Draft report", None, Some("work"), None, None)
    ensures
      var a0 := Mount([], cats);
      var a1 := AddTask(a0, input, "1", "t1").app;
      var a2 := ToggleTask(a1, "1", "t2");
      var a3 := MoveTask(a2, "1", Some("personal"), "t3");
      && a1.page.categories[0].taskCount == 1 && a1.page.categories[1].taskCount == 0
      && TaskManager.CompletionStats(a2.page.tasks) == TaskManager.Stats(1, 1)
      && a3.page.categories[0].taskCount == 0 && a3.page.categories[1].taskCount == 1
      && TaskManager.FilteredTasks(a3.page.tasks, None, "draft") == a3.page.tasks
      && |a3.page.tasks| == 1
      && TaskManager.FilteredTasks(a3.page.tasks, None, "zzz") == []
  {
    var a0 := Mount([], cats);
    assert a0.page.categories[0].id == "work" && a0.page.categories[1].id == "personal";

    AddToEmptyBoard(a0, input, "1", "t1");
    var a1 := AddTask(a0, input, "1", "t1").app;
    var t1 := TaskService.Create([], input, "1", "t1").result.value;
    SingleTaskCounts(t1, a0.page.categories);
    assert a1.page.categories[0].id == "work" && a1.page.categories[1].id == "personal";

    ToggleOnlyTask(a1, t1, "t2");
    var a2 := ToggleTask(a1, "1", "t2");
    var t2 := a2.store[0];
    assert a2.store == [t2] && t2.completed && t2.title == "Draft report";
    assert TaskManager.IsCompleted()(t2);
    assert TaskManager.CompletionStats(a2.page.tasks) == TaskManager.Stats(1, 1);
    assert a2.page.categories[0].id == "work" && a2.page.categories[1].id == "personal";

    MoveOnlyTask(a2, t2, Some("personal"), "t3");
    var a3 := MoveTask(a2, "1", Some("personal"), "t3");
    var t3 := a3.store[0];
    assert a3.store == [t3] && t3.title == "Draft report" && t3.description == "";
    SingleTaskCounts(t3, a2.page.categories);

    SearchForDraft(t3);
  }

}
