/** The header: the completion percentage behind the progress ring and the
    completed/remaining counts. */
module Header {
  import opened Domain
  import opened Seqs
  import TaskManager

  /** The default `completionStats` prop. */
  function DefaultStats(): TaskManager.Stats {
    TaskManager.Stats(0, 0)
  }

  /** `completionPercentage`: completed over total as a percentage, and 0 when
      there are no tasks (never a division by zero). Computed over the reals. */
  function CompletionPercentage(stats: TaskManager.Stats): (r: real)
    ensures stats.total == 0 ==> r == 0.0
    ensures stats.completed <= stats.total ==> 0.0 <= r <= 100.0
    ensures stats.total > 0 ==> (r == 100.0 <==> stats.completed == stats.total)
    ensures r == 0.0 <==> stats.total == 0 || stats.completed == 0
    ensures stats.total > 0 ==> r * (stats.total as real) == 100.0 * (stats.completed as real)
  {
    if stats.total > 0 then
      var c, t := stats.completed as real, stats.total as real;
      assert c / t * t == c;
      (c / t) * 100.0
    else 0.0
  }

  /** `total - completed`, the "remaining" figure. */
  function Remaining(stats: TaskManager.Stats): (r: int)
    ensures stats.completed <= stats.total ==> 0 <= r <= stats.total
  {
    stats.total - stats.completed
  }

  /** For the page's own statistics the ring shows a percentage in [0, 100],
      exactly 100 when every task (of at least one) is completed, the default
      stats show 0, and "remaining" counts the uncompleted tasks. */
  lemma PercentageOfTasks(tasks: seq<Task>)
    ensures CompletionPercentage(DefaultStats()) == 0.0
    ensures 0.0 <= CompletionPercentage(TaskManager.CompletionStats(tasks)) <= 100.0
    ensures CompletionPercentage(TaskManager.CompletionStats(tasks)) == 100.0 <==>
      |tasks| > 0 && forall i :: 0 <= i < |tasks| ==> tasks[i].completed
    ensures Remaining(TaskManager.CompletionStats(tasks)) == Count(tasks, (t: Task) => !t.completed)
  {
    FilterComplement(tasks, TaskManager.IsCompleted(), (t: Task) => !t.completed);
    assert |multiset(Filter(tasks, TaskManager.IsCompleted()))| + |multiset(Filter(tasks, (t: Task) => !t.completed))| == |multiset(tasks)|;
  }
}
