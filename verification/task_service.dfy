/** The mock task service: an ordered in-memory array of task records behind
    asynchronous CRUD calls. Each call is modelled as a pure function from the
    array before the call to a `Reply`: the array after the call and what the
    promise settles with. A rejected call leaves the array as it was. */
module TaskService {
  import opened Wrappers
  import opened Seqs
  import opened Text
  import opened Domain

  /** The message every call on an unknown id rejects with. */
  const NotFound: string := "Task not found"

  /** The object handed to `create`; `None` is an absent (undefined) property. */
  datatype TaskInput = TaskInput(
    title: string,
    description: Option<string>,
    categoryId: Option<Id>,
    priority: Option<string>,
    dueDate: Option<string>)

  /** The object handed to `update`: `None` leaves a field alone, `Some(v)` overwrites it with `v`. */
  datatype TaskUpdate = TaskUpdate(
    title: Option<string>,
    description: Option<string>,
    categoryId: Option<Option<Id>>,
    priority: Option<string>,
    dueDate: Option<Option<string>>,
    completed: Option<bool>)

  /** The update `toggleComplete` issues: only `completed` is supplied. */
  function CompletedOnly(completed: bool): TaskUpdate {
    TaskUpdate(None, None, None, None, None, Some(completed))
  }

  /** The update a drag-and-drop move issues: only `categoryId` is supplied. */
  function CategoryOnly(categoryId: Option<Id>): TaskUpdate {
    TaskUpdate(None, None, Some(categoryId), None, None, None)
  }

  /** The array after a call, and the value the call resolves with or the message it rejects with. */
  datatype Reply<T> = Reply(tasks: seq<Task>, result: Result<T, string>)

  /** `x || fallback` for a string property: undefined and "" both fall back. */
  function OrDefault(x: Option<string>, fallback: string): string {
    if x.Some? && x.value != "" then x.value else fallback
  }

  /** `x || null` for a string property. */
  function OrNull(x: Option<string>): Option<string> {
    if x.Some? && x.value != "" then x else None
  }

  /** `findIndex(t => t.id === id)`: the first position holding `id`, or `None` for -1. */
  function FindIndex(tasks: seq<Task>, id: Id): (r: Option<nat>)
    ensures r.None? <==> !HasId(tasks, id)
    ensures r.Some? ==> r.value < |tasks| && tasks[r.value].id == id
    ensures r.Some? ==> forall j :: 0 <= j < r.value ==> tasks[j].id != id
  {
    if |tasks| == 0 then None
    else if tasks[0].id == id then Some(0)
    else
      match FindIndex(tasks[1..], id)
      case None =>
        assert forall j :: 1 <= j < |tasks| ==> tasks[j] == tasks[1..][j - 1];
        None
      case Some(k) => Some(k + 1)
  }

  /** Two arrays with the same ids position by position agree on every lookup. */
  lemma {:induction false} FindIndexSameIds(a: seq<Task>, b: seq<Task>, id: Id)
    requires Ids(a) == Ids(b)
    ensures FindIndex(a, id) == FindIndex(b, id)
    decreases |a|
  {
    if |a| > 0 {
      assert a[0].id == Ids(a)[0] == Ids(b)[0] == b[0].id;
      assert forall i :: 0 <= i < |a| - 1 ==> Ids(a[1..])[i] == Ids(a)[i + 1] == Ids(b)[i + 1] == Ids(b[1..])[i];
      assert Ids(a[1..]) == Ids(b[1..]);
      FindIndexSameIds(a[1..], b[1..], id);
    }
  }

  /** `getById`: a copy of the first task with that id, or `null`. */
  function GetById(tasks: seq<Task>, id: Id): (r: Option<Task>)
    ensures r.None? <==> !HasId(tasks, id)
    ensures r.Some? ==> r.value in tasks && r.value.id == id
    ensures r.Some? ==> FindIndex(tasks, id).Some? && r.value == tasks[FindIndex(tasks, id).value]
  {
    match FindIndex(tasks, id)
    case None => None
    case Some(k) => Some(tasks[k])
  }

  /** With distinct ids, `getById` finds exactly the task carrying the id. */
  lemma GetByIdUnique(tasks: seq<Task>, id: Id, t: Task)
    requires DistinctIds(tasks)
    ensures GetById(tasks, id) == Some(t) <==> t in tasks && t.id == id
  {
    if t in tasks && t.id == id {
      var i :| 0 <= i < |tasks| && tasks[i] == t;
      var k := FindIndex(tasks, id).value;
      assert k == i;
    }
  }

  /** The record `create` builds from its input, a fresh id and the clock's reading. */
  function NewTask(input: TaskInput, id: Id, now: Timestamp): Task {
    Task(id, input.title, OrDefault(input.description, ""), input.categoryId,
         OrDefault(input.priority, Medium), OrNull(input.dueDate), false, now, None)
  }

  /** `create`: appends one new, uncompleted task at the end and resolves with it. */
  function Create(tasks: seq<Task>, input: TaskInput, freshId: Id, now: Timestamp): (r: Reply<Task>)
    ensures r.result.Success? && r.tasks == tasks + [r.result.value]
    ensures r.result.value.id == freshId && r.result.value.createdAt == now
    ensures r.result.value.title == input.title && r.result.value.categoryId == input.categoryId
    ensures r.result.value.description == input.description.GetOr("")
    ensures input.priority.None? || input.priority == Some("") ==> r.result.value.priority == Medium
    ensures input.priority.Some? && input.priority.value != "" ==> r.result.value.priority == input.priority.value
    ensures r.result.value.dueDate.None? <==> input.dueDate.None? || input.dueDate == Some("")
    ensures r.result.value.dueDate.Some? ==> r.result.value.dueDate == input.dueDate
    ensures !r.result.value.completed && r.result.value.completedAt.None?
  {
    var t := NewTask(input, freshId, now);
    Reply(tasks + [t], Success(t))
  }

  /** A task made by `create` satisfies the completion invariant, and a fresh id keeps ids distinct. */
  lemma CreateKeepsInvariants(tasks: seq<Task>, input: TaskInput, freshId: Id, now: Timestamp)
    requires DistinctIds(tasks) && !HasId(tasks, freshId)
    ensures var r := Create(tasks, input, freshId, now);
      DistinctIds(r.tasks) && CompletionConsistent(r.result.value) && GetById(r.tasks, freshId) == Some(r.result.value)
  {
    var r := Create(tasks, input, freshId, now);
    assert forall i :: 0 <= i < |tasks| ==> r.tasks[i] == tasks[i];
    assert r.tasks[|tasks|].id == freshId;
    assert FindIndex(r.tasks, freshId) == Some(|tasks|);
  }

  /** `{ ...task, ...updates }`: every supplied field overwrites the task's own. */
  function Merge(t: Task, u: TaskUpdate): (r: Task)
    ensures r.id == t.id && r.createdAt == t.createdAt && r.completedAt == t.completedAt
    ensures u.completed.None? ==> r.completed == t.completed
  {
    Task(t.id,
         if u.title.Some? then u.title.value else t.title,
         if u.description.Some? then u.description.value else t.description,
         if u.categoryId.Some? then u.categoryId.value else t.categoryId,
         if u.priority.Some? then u.priority.value else t.priority,
         if u.dueDate.Some? then u.dueDate.value else t.dueDate,
         if u.completed.Some? then u.completed.value else t.completed,
         t.createdAt,
         t.completedAt)
  }

  /** `{ ...task, ...updates }` followed by the `completedAt` bookkeeping of `update`:
      stamped when `completed` is switched on, cleared whenever a completed task
      gets an update whose `completed` is not `true` (including one that omits it). */
  function Updated(before: Task, u: TaskUpdate, now: Timestamp): (after: Task)
    ensures after.id == before.id && after.createdAt == before.createdAt
    ensures after.title == u.title.GetOr(before.title)
    ensures after.description == u.description.GetOr(before.description)
    ensures after.categoryId == u.categoryId.GetOr(before.categoryId)
    ensures after.priority == u.priority.GetOr(before.priority)
    ensures after.dueDate == u.dueDate.GetOr(before.dueDate)
    ensures after.completed == u.completed.GetOr(before.completed)
    ensures u.completed == Some(true) && !before.completed ==> after.completedAt == Some(now)
    ensures u.completed != Some(true) && before.completed ==> after.completedAt.None?
    ensures (u.completed == Some(true)) == before.completed ==> after.completedAt == before.completedAt
  {
    var merged := Merge(before, u);
    if u.completed == Some(true) && !before.completed then merged.(completedAt := Some(now))
    else if u.completed != Some(true) && before.completed then merged.(completedAt := None)
    else merged
  }

  /** `update`: rejects with "Task not found" for an unknown id; otherwise replaces
      the first task with that id by its updated copy and resolves with it. */
  function Update(tasks: seq<Task>, id: Id, u: TaskUpdate, now: Timestamp): (r: Reply<Task>)
    ensures r.result.Failure? <==> !HasId(tasks, id)
    ensures r.result.Failure? ==> r.result.error == NotFound && r.tasks == tasks
    ensures r.result.Success? ==> FindIndex(tasks, id).Some?
    ensures r.result.Success? ==>
      var k := FindIndex(tasks, id).value;
      r.result.value == Updated(tasks[k], u, now) && r.tasks == tasks[k := r.result.value]
    ensures |r.tasks| == |tasks| && Ids(r.tasks) == Ids(tasks)
  {
    match FindIndex(tasks, id)
    case None => Reply(tasks, Failure(NotFound))
    case Some(k) =>
      var t := Updated(tasks[k], u, now);
      IdsOverwrite(tasks, k, t);
      Reply(tasks[k := t], Success(t))
  }

  /** An update keeps the completion invariant of a consistent task exactly when it
      supplies `completed` or the task was not completed: an update that omits
      `completed` clears `completedAt` of a completed task but leaves it completed. */
  lemma UpdateConsistencyIff(before: Task, u: TaskUpdate, now: Timestamp)
    requires CompletionConsistent(before)
    ensures CompletionConsistent(Updated(before, u, now)) <==> u.completed.Some? || !before.completed
  {
  }

  /** Moving a completed task to another category leaves it completed with no completion time. */
  lemma MoveOfCompletedTaskClearsCompletedAt(before: Task, categoryId: Option<Id>, now: Timestamp)
    requires before.completed
    ensures var after := Updated(before, CategoryOnly(categoryId), now);
      after.completed && after.completedAt.None? && !CompletionConsistent(after)
      && after.categoryId == categoryId
  {
  }

  /** `delete`: rejects with "Task not found" for an unknown id; otherwise removes the
      first task with that id, keeping the others in their order, and resolves with `true`. */
  function Delete(tasks: seq<Task>, id: Id): (r: Reply<bool>)
    ensures r.result.Failure? <==> !HasId(tasks, id)
    ensures r.result.Failure? ==> r.result.error == NotFound && r.tasks == tasks
    ensures r.result.Success? ==>
      && r.result.value
      && |r.tasks| == |tasks| - 1
      && IsSubsequence(r.tasks, tasks)
      && FindIndex(tasks, id).Some?
      && multiset(r.tasks) == multiset(tasks) - multiset{tasks[FindIndex(tasks, id).value]}
      && (forall i :: 0 <= i < FindIndex(tasks, id).value ==> r.tasks[i] == tasks[i])
      && (forall i :: FindIndex(tasks, id).value <= i < |r.tasks| ==> r.tasks[i] == tasks[i + 1])
  {
    match FindIndex(tasks, id)
    case None => Reply(tasks, Failure(NotFound))
    case Some(k) =>
      RemoveAt(tasks, k, tasks[..k] + tasks[k + 1..]);
      Reply(tasks[..k] + tasks[k + 1..], Success(true))
  }

  /** With distinct ids, after a successful delete no task carries the id any more. */
  lemma DeleteRemovesId(tasks: seq<Task>, id: Id)
    requires DistinctIds(tasks) && HasId(tasks, id)
    ensures !HasId(Delete(tasks, id).tasks, id)
  {
    var k := FindIndex(tasks, id).value;
    var r := Delete(tasks, id).tasks;
    assert r == tasks[..k] + tasks[k + 1..];
    forall i | 0 <= i < |r|
      ensures r[i].id != id
    {
      if i < k {
        assert r[i] == tasks[i];
      } else {
        assert r[i] == tasks[i + 1];
      }
    }
  }

  /** The test `t => t.categoryId === categoryId`. */
  function InCategory(categoryId: Option<Id>): Task -> bool {
    (t: Task) => t.categoryId == categoryId
  }

  /** `getByCategory`: the tasks with that `categoryId`, in store order. */
  function GetByCategory(tasks: seq<Task>, categoryId: Option<Id>): (r: seq<Task>)
    ensures IsSubsequence(r, tasks)
    ensures forall t :: t in r <==> t in tasks && t.categoryId == categoryId
    ensures forall t :: multiset(r)[t] == if t.categoryId == categoryId then multiset(tasks)[t] else 0
  {
    Filter(tasks, InCategory(categoryId))
  }

  /** The task's lower-cased title or description contains `lowerQuery`. */
  predicate MatchesQuery(t: Task, lowerQuery: string) {
    Includes(ToLower(t.title), lowerQuery) || Includes(ToLower(t.description), lowerQuery)
  }

  /** The test applied by `search` and by the page's text filter, with the query lower-cased once. */
  function Matching(query: string): Task -> bool {
    var q := ToLower(query);
    (t: Task) => MatchesQuery(t, q)
  }

  /** `search`: case-insensitive substring search over title and description, in store order. */
  function Search(tasks: seq<Task>, query: string): (r: seq<Task>)
    ensures IsSubsequence(r, tasks)
    ensures forall t :: t in r <==> t in tasks && MatchesQuery(t, ToLower(query))
    ensures forall t :: multiset(r)[t] == if MatchesQuery(t, ToLower(query)) then multiset(tasks)[t] else 0
  {
    Filter(tasks, Matching(query))
  }

  /** Searching for the empty string returns every task, in order. */
  lemma SearchEmptyQuery(tasks: seq<Task>)
    ensures Search(tasks, "") == tasks
  {
    forall i | 0 <= i < |tasks|
      ensures MatchesQuery(tasks[i], ToLower(""))
    {
      IncludesEmpty(ToLower(tasks[i].title));
    }
    FilterAll(tasks, Matching(""));
  }

  /** The test `t => t.id === id`. */
  function WithId(id: Id): Task -> bool {
    (t: Task) => t.id == id
  }

  /** The tasks whose id is in `ids`. */
  function Listed(ids: seq<Id>): Task -> bool {
    (t: Task) => t.id in ids
  }

  /** The test `task => !taskIds.includes(task.id)`. */
  function Unlisted(ids: seq<Id>): Task -> bool {
    (t: Task) => t.id !in ids
  }

  /** The first half of `updateOrder`: for each listed id in turn, the first task with that id, skipping unknown ids. */
  function ListedTasks(tasks: seq<Task>, ids: seq<Id>): (r: seq<Task>)
    ensures |r| <= |ids|
    ensures forall t :: t in r ==> t in tasks && t.id in ids
    ensures forall i :: 0 <= i < |r| ==> GetById(tasks, r[i].id) == Some(r[i])
    decreases |ids|
  {
    if |ids| == 0 then []
    else
      var tail := ListedTasks(tasks, ids[1..]);
      assert ids == [ids[0]] + ids[1..];
      match GetById(tasks, ids[0])
      case Some(t) =>
        ConsShifts(t, tail, [t] + tail);
        [t] + tail
      case None => tail
  }

  /** `updateOrder`: the listed tasks first, in the order of `ids`, then every
      task whose id is not listed, in its previous order. */
  function UpdateOrder(tasks: seq<Task>, ids: seq<Id>): (r: seq<Task>)
    ensures forall t :: t in r ==> t in tasks
    ensures forall t :: t in tasks && t.id !in ids ==> t in r
    ensures |ListedTasks(tasks, ids)| <= |r|
    ensures forall i :: 0 <= i < |r| ==> (r[i].id in ids <==> i < |ListedTasks(tasks, ids)|)
    ensures IsSubsequence(r[|ListedTasks(tasks, ids)|..], tasks)
    ensures Ids(r[..|ListedTasks(tasks, ids)|]) == Filter(ids, Known(tasks))
    ensures |r| == |ListedTasks(tasks, ids)| + Count(tasks, Unlisted(ids))
    ensures r[..|ListedTasks(tasks, ids)|] == ListedTasks(tasks, ids)
  {
    var listed := ListedTasks(tasks, ids);
    var rest := Filter(tasks, Unlisted(ids));
    ListedTasksFollowIds(tasks, ids);
    assert (listed + rest)[..|listed|] == listed;
    assert (listed + rest)[|listed|..] == rest;
    assert forall i :: |listed| <= i < |listed + rest| ==> (listed + rest)[i] in rest;
    listed + rest
  }

  /** With distinct ids, the tasks filtered by one id are exactly what `getById` finds. */
  lemma {:induction false} FilterByIdIsLookup(tasks: seq<Task>, id: Id)
    requires DistinctIds(tasks)
    ensures Filter(tasks, WithId(id)) == match GetById(tasks, id) case Some(t) => [t] case None => []
    decreases |tasks|
  {
    if |tasks| > 0 {
      var tl := tasks[1..];
      FilterByIdIsLookup(tl, id);
      if tasks[0].id != id {
        match FindIndex(tl, id)
        case None =>
        case Some(k) =>
          assert FindIndex(tasks, id) == Some(k + 1);
      }
    }
  }

  /** The listed tasks are, as a multiset, the tasks whose id is listed, when
      neither the tasks nor the listed ids repeat an id. */
  lemma {:induction false} ListedTasksMultiset(tasks: seq<Task>, ids: seq<Id>)
    requires DistinctIds(tasks)
    requires forall i, j :: 0 <= i < j < |ids| ==> ids[i] != ids[j]
    ensures multiset(ListedTasks(tasks, ids)) == multiset(Filter(tasks, Listed(ids)))
    decreases |ids|
  {
    if |ids| > 0 {
      var a, rest := ids[0], ids[1..];
      assert ids == [a] + rest;
      assert forall i, j :: 0 <= i < j < |rest| ==> rest[i] != rest[j] by {
        forall i, j | 0 <= i < j < |rest| ensures rest[i] != rest[j] {
          assert rest[i] == ids[i + 1] && rest[j] == ids[j + 1];
        }
      }
      ListedTasksMultiset(tasks, rest);
      FilterByIdIsLookup(tasks, a);
      FilterDisjointUnion(tasks, WithId(a), Listed(rest), Listed(ids));
    }
  }

  /** When neither the tasks nor the listed ids repeat an id, `updateOrder` only
      permutes the tasks. */
  lemma UpdateOrderIsPermutation(tasks: seq<Task>, ids: seq<Id>)
    requires DistinctIds(tasks)
    requires forall i, j :: 0 <= i < j < |ids| ==> ids[i] != ids[j]
    ensures multiset(UpdateOrder(tasks, ids)) == multiset(tasks)
  {
    ListedTasksMultiset(tasks, ids);
    FilterComplement(tasks, Listed(ids), Unlisted(ids));
  }

  /** When `ids` names only existing tasks and names every task, the new order
      is exactly `ids`. */
  lemma {:induction false} UpdateOrderFollowsIds(tasks: seq<Task>, ids: seq<Id>)
    requires forall i :: 0 <= i < |ids| ==> HasId(tasks, ids[i])
    requires forall i :: 0 <= i < |tasks| ==> tasks[i].id in ids
    ensures Ids(UpdateOrder(tasks, ids)) == ids
  {
    ListedTasksIds(tasks, ids);
    forall i | 0 <= i < |tasks| ensures !Unlisted(ids)(tasks[i]) {
      assert tasks[i].id in ids;
    }
    CountNone(tasks, Unlisted(ids));
    assert UpdateOrder(tasks, ids) == ListedTasks(tasks, ids) + [];
  }

  /** The test "some task carries this id". */
  function Known(tasks: seq<Task>): Id -> bool {
    (id: Id) => HasId(tasks, id)
  }

  /** The listed tasks carry the listed ids in the listed order, with the ids
      no task carries skipped. */
  lemma {:induction false} ListedTasksFollowIds(tasks: seq<Task>, ids: seq<Id>)
    ensures Ids(ListedTasks(tasks, ids)) == Filter(ids, Known(tasks))
    decreases |ids|
  {
    if |ids| > 0 {
      ListedTasksFollowIds(tasks, ids[1..]);
      var tail := ListedTasks(tasks, ids[1..]);
      if HasId(tasks, ids[0]) {
        var t := GetById(tasks, ids[0]).value;
        assert ListedTasks(tasks, ids) == [t] + tail;
        IdsCons(t, tail);
      } else {
        assert ListedTasks(tasks, ids) == tail;
      }
    }
  }

  /** When every listed id exists, the listed tasks carry exactly the listed ids. */
  lemma ListedTasksIds(tasks: seq<Task>, ids: seq<Id>)
    requires forall i :: 0 <= i < |ids| ==> HasId(tasks, ids[i])
    ensures Ids(ListedTasks(tasks, ids)) == ids
  {
    ListedTasksFollowIds(tasks, ids);
    FilterAll(ids, Known(tasks));
  }

  /** `toggleComplete`: rejects with "Task not found" for an unknown id; otherwise
      updates the task with the negation of its `completed` flag. */
  function ToggleComplete(tasks: seq<Task>, id: Id, now: Timestamp): (r: Reply<Task>)
    ensures r.result.Failure? <==> !HasId(tasks, id)
    ensures r.result.Failure? ==> r.result.error == NotFound && r.tasks == tasks
    ensures r.result.Success? ==> FindIndex(tasks, id).Some?
    ensures r.result.Success? ==>
      var k := FindIndex(tasks, id).value;
      && r.tasks == tasks[k := r.result.value]
      && r.result.value.completed == !tasks[k].completed
      && CompletionConsistent(r.result.value)
      && r.result.value.completedAt == (if tasks[k].completed then None else Some(now))
      && r.result.value.(completed := tasks[k].completed, completedAt := tasks[k].completedAt) == tasks[k]
    ensures |r.tasks| == |tasks| && Ids(r.tasks) == Ids(tasks)
  {
    match GetById(tasks, id)
    case None => Reply(tasks, Failure(NotFound))
    case Some(t) => Update(tasks, id, CompletedOnly(!t.completed), now)
  }

  /** Writing one position twice leaves only the second write. */
  lemma OverwriteTwice(s0: seq<Task>, s1: seq<Task>, s2: seq<Task>, k: nat, a: Task, b: Task)
    requires k < |s0| && s1 == s0[k := a] && s2 == s1[k := b]
    ensures s2 == s0[k := b]
  {
  }

  /** Two toggles of one record: only `completedAt` can differ from the original,
      and it reflects the second toggle. */
  lemma ToggledTwiceRecord(t0: Task, t1: Task, t2: Task, now2: Timestamp)
    requires t1.completed == !t0.completed && t1.(completed := t0.completed, completedAt := t0.completedAt) == t0
    requires t2.completed == !t1.completed && t2.(completed := t1.completed, completedAt := t1.completedAt) == t1
    requires t2.completedAt == (if t1.completed then None else Some(now2))
    ensures t2 == t0.(completedAt := if t0.completed then Some(now2) else None)
  {
  }

  /** Toggling the same task twice restores the array except for that task's
      `completedAt`, which reflects the second toggle. */
  lemma ToggleTwice(tasks: seq<Task>, id: Id, now1: Timestamp, now2: Timestamp)
    requires HasId(tasks, id)
    ensures
      var k := FindIndex(tasks, id).value;
      var r1 := ToggleComplete(tasks, id, now1);
      var r2 := ToggleComplete(r1.tasks, id, now2);
      && r2.result.Success?
      && r2.tasks == tasks[k := tasks[k].(completedAt := if tasks[k].completed then Some(now2) else None)]
  {
    var k := FindIndex(tasks, id).value;
    var r1 := ToggleComplete(tasks, id, now1);
    var t1 := r1.result.value;
    FindIndexSameIds(r1.tasks, tasks, id);
    assert FindIndex(r1.tasks, id) == Some(k) && r1.tasks[k] == t1;
    var r2 := ToggleComplete(r1.tasks, id, now2);
    var t2 := r2.result.value;
    ToggledTwiceRecord(tasks[k], t1, t2, now2);
    OverwriteTwice(tasks, r1.tasks, r2.tasks, k, t1, t2);
  }

  /** For an uncompleted, consistent task, toggling twice gives back the array unchanged. */
  lemma ToggleTwiceRestores(tasks: seq<Task>, id: Id, now1: Timestamp, now2: Timestamp)
    requires HasId(tasks, id)
    requires !tasks[FindIndex(tasks, id).value].completed
    requires CompletionConsistent(tasks[FindIndex(tasks, id).value])
    ensures ToggleComplete(ToggleComplete(tasks, id, now1).tasks, id, now2).tasks == tasks
  {
    ToggleTwice(tasks, id, now1, now2);
  }
}
