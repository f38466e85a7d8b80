/** The two records the application works with: tasks and categories. */
module Domain {
  import opened Wrappers

  /** Task and category identifiers are strings (`Date.now().toString()` for new tasks). */
  type Id = string

  /** An ISO-8601 timestamp, treated as an opaque value supplied by the clock. */
  type Timestamp = string

  /** The three priorities the forms offer; a task's priority is a free string. */
  const High: string := "high"
  const Medium: string := "medium"
  const Low: string := "low"

  /** A task record. `categoryId` is `None` when the task was moved to `null`;
      `dueDate` and `completedAt` are `None` when they are `null`. */
  datatype Task = Task(
    id: Id,
    title: string,
    description: string,
    categoryId: Option<Id>,
    priority: string,
    dueDate: Option<string>,
    completed: bool,
    createdAt: Timestamp,
    completedAt: Option<Timestamp>)

  /** A category record; `taskCount` is whatever the backend reported until the page re-derives it. */
  datatype Category = Category(id: Id, name: string, color: string, icon: string, taskCount: int)

  /** Some task in `tasks` carries `id`. */
  predicate HasId(tasks: seq<Task>, id: Id) {
    exists i :: 0 <= i < |tasks| && tasks[i].id == id
  }

  /** No two tasks share an id. */
  ghost predicate DistinctIds(tasks: seq<Task>) {
    forall i, j :: 0 <= i < j < |tasks| ==> tasks[i].id != tasks[j].id
  }

  /** The task identifiers, position by position. */
  function Ids(tasks: seq<Task>): (r: seq<Id>)
    ensures |r| == |tasks|
    ensures forall i :: 0 <= i < |tasks| ==> r[i] == tasks[i].id
  {
    if |tasks| == 0 then [] else [tasks[0].id] + Ids(tasks[1..])
  }

  /** The ids of a task followed by more tasks. */
  lemma IdsCons(t: Task, rest: seq<Task>)
    ensures Ids([t] + rest) == [t.id] + Ids(rest)
  {
    assert ([t] + rest)[1..] == rest;
  }

  /** Overwriting a task by one with the same id keeps the ids. */
  lemma IdsOverwrite(tasks: seq<Task>, k: nat, t: Task)
    requires k < |tasks| && t.id == tasks[k].id
    ensures Ids(tasks[k := t]) == Ids(tasks)
  {
    assert forall i :: 0 <= i < |tasks| ==> Ids(tasks[k := t])[i] == Ids(tasks)[i];
  }

  /** The category identifiers, position by position. */
  function CategoryIds(categories: seq<Category>): (r: seq<Id>)
    ensures |r| == |categories|
    ensures forall i :: 0 <= i < |categories| ==> r[i] == categories[i].id
  {
    if |categories| == 0 then [] else [categories[0].id] + CategoryIds(categories[1..])
  }

  /** No two categories share an id. */
  ghost predicate DistinctCategoryIds(categories: seq<Category>) {
    forall i, j :: 0 <= i < j < |categories| ==> categories[i].id != categories[j].id
  }

  /** The intended invariant of a task record: it has a completion time exactly when it is completed. */
  predicate CompletionConsistent(t: Task) {
    t.completed <==> t.completedAt.Some?
  }
}
