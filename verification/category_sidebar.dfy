/** The category sidebar: the "All Tasks" entry with its total, one entry per
    category, what a click selects, and which entry is highlighted. */
module CategorySidebar {
  import opened Wrappers
  import opened Seqs
  import opened Domain
  import TaskService
  import TaskManager

  /** `categories.reduce((sum, cat) => sum + cat.taskCount, 0)`: the "All Tasks" badge. */
  function AllTasksCount(categories: seq<Category>): (r: int)
    ensures |categories| == 0 ==> r == 0
    ensures (forall i :: 0 <= i < |categories| ==> categories[i].taskCount >= 0) ==> r >= 0
  {
    if |categories| == 0 then 0 else categories[0].taskCount + AllTasksCount(categories[1..])
  }

  /** A task is filed under one of `ids`. */
  function FiledUnder(ids: seq<Id>): Task -> bool {
    (t: Task) => t.categoryId.Some? && t.categoryId.value in ids
  }

  /** Summing the re-derived counts counts every task filed under one of the categories once. */
  lemma {:induction false} RecountSum(tasks: seq<Task>, categories: seq<Category>)
    requires DistinctCategoryIds(categories)
    ensures AllTasksCount(TaskManager.Recount(tasks, categories)) == Count(tasks, FiledUnder(CategoryIds(categories)))
    decreases |categories|
  {
    var ids := CategoryIds(categories);
    if |categories| == 0 {
      CountNone(tasks, FiledUnder(ids));
    } else {
      var c, rest := categories[0], categories[1..];
      assert DistinctCategoryIds(rest) by {
        forall i, j | 0 <= i < j < |rest| ensures rest[i].id != rest[j].id {
          assert rest[i] == categories[i + 1] && rest[j] == categories[j + 1];
        }
      }
      RecountSum(tasks, rest);
      var restIds := CategoryIds(rest);
      assert ids == [c.id] + restIds;
      assert c.id !in restIds by {
        forall j | 0 <= j < |restIds| ensures restIds[j] != c.id {
          assert restIds[j] == categories[j + 1].id;
        }
      }
      CountDisjointUnion(tasks, TaskService.InCategory(Some(c.id)), FiledUnder(restIds), FiledUnder(ids));
      assert TaskManager.Recount(tasks, categories)[1..] == TaskManager.Recount(tasks, rest);
    }
  }

  /** With distinct category ids, once the page has re-derived the counts the
      "All Tasks" badge is the number of tasks filed under an existing category,
      so it never exceeds the number of tasks; tasks without a category (or with
      an unknown one) are left out of it. */
  lemma AllTasksCountIsFiledTasks(tasks: seq<Task>, categories: seq<Category>)
    requires DistinctCategoryIds(categories)
    ensures AllTasksCount(TaskManager.WithTaskCounts(tasks, categories)) == Count(tasks, FiledUnder(CategoryIds(categories)))
    ensures AllTasksCount(TaskManager.WithTaskCounts(tasks, categories)) <= |tasks|
  {
    if |categories| > 0 {
      RecountSum(tasks, categories);
    } else {
      CountNone(tasks, FiledUnder(CategoryIds(categories)));
    }
  }

  /** A sidebar entry. */
  datatype Entry = AllTasks | CategoryEntry(category: Category)

  /** The entries in display order: "All Tasks" first, then the categories. */
  function Entries(categories: seq<Category>): (r: seq<Entry>)
    ensures |r| == |categories| + 1 && r[0] == AllTasks
    ensures forall i :: 0 <= i < |categories| ==> r[i + 1] == CategoryEntry(categories[i])
  {
    [AllTasks] + seq(|categories|, i requires 0 <= i < |categories| => CategoryEntry(categories[i]))
  }

  /** The argument a click passes to `onCategorySelect`. */
  function Selection(e: Entry): (r: Option<Id>)
    ensures r.None? <==> e.AllTasks?
    ensures Highlighted(r, e)
  {
    match e
    case AllTasks => None
    case CategoryEntry(c) => Some(c.id)
  }

  /** The highlight rule: "All Tasks" when nothing is selected, a category when its id is selected. */
  predicate Highlighted(selected: Option<Id>, e: Entry) {
    match e
    case AllTasks => selected.None?
    case CategoryEntry(c) => selected == Some(c.id)
  }

  /** `Highlighted` as a filter test. */
  function HighlightedBy(selected: Option<Id>): Entry -> bool {
    (e: Entry) => Highlighted(selected, e)
  }

  /** Nothing selected: only "All Tasks" is highlighted. */
  lemma OnlyAllTasksHighlighted(categories: seq<Category>)
    ensures Count(Entries(categories), HighlightedBy(None)) == 1
  {
    var es := Entries(categories);
    assert es == [AllTasks] + es[1..];
    FilterConcat([AllTasks], es[1..], HighlightedBy(None));
    forall i | 0 <= i < |es[1..]| ensures !Highlighted(None, es[1..][i]) {
      assert es[1..][i] == CategoryEntry(categories[i]);
    }
    CountNone(es[1..], HighlightedBy(None));
  }

  /** An existing id selected among distinct ids: only its entry is highlighted. */
  lemma OnlyItsCategoryHighlighted(categories: seq<Category>, k: nat)
    requires DistinctCategoryIds(categories) && k < |categories|
    ensures Count(Entries(categories), HighlightedBy(Some(categories[k].id))) == 1
  {
    var selected := Some(categories[k].id);
    var es := Entries(categories);
    var a, b := es[..k + 1], es[k + 2..];
    assert es == a + [es[k + 1]] + b;
    FilterConcat(a + [es[k + 1]], b, HighlightedBy(selected));
    FilterConcat(a, [es[k + 1]], HighlightedBy(selected));
    forall i | 0 <= i < |a| ensures !Highlighted(selected, a[i]) {
      if i > 0 {
        assert a[i] == CategoryEntry(categories[i - 1]);
      }
    }
    forall i | 0 <= i < |b| ensures !Highlighted(selected, b[i]) {
      assert b[i] == CategoryEntry(categories[k + 1 + i]);
    }
    CountNone(a, HighlightedBy(selected));
    CountNone(b, HighlightedBy(selected));
  }

  /** A selection naming no category highlights nothing. */
  lemma NothingHighlightedForUnknownId(categories: seq<Category>, id: Id)
    requires id !in CategoryIds(categories)
    ensures Count(Entries(categories), HighlightedBy(Some(id))) == 0
  {
    var es := Entries(categories);
    forall i | 0 <= i < |es| ensures !Highlighted(Some(id), es[i]) {
      if i > 0 {
        assert es[i] == CategoryEntry(categories[i - 1]);
        assert CategoryIds(categories)[i - 1] == categories[i - 1].id;
      }
    }
    CountNone(es, HighlightedBy(Some(id)));
  }

  /** Clicking an entry highlights it; with distinct ids and a selection that is
      `null` or an existing id, exactly one entry is highlighted, and a
      selection naming no category highlights none. */
  lemma ExactlyOneHighlighted(categories: seq<Category>, selected: Option<Id>)
    requires DistinctCategoryIds(categories)
    ensures forall e :: Highlighted(Selection(e), e)
    ensures selected.None? || selected.value in CategoryIds(categories) ==>
      Count(Entries(categories), HighlightedBy(selected)) == 1
    ensures selected.Some? && selected.value !in CategoryIds(categories) ==>
      Count(Entries(categories), HighlightedBy(selected)) == 0
  {
    if selected.None? {
      OnlyAllTasksHighlighted(categories);
    } else if selected.value in CategoryIds(categories) {
      var ids := CategoryIds(categories);
      var k :| 0 <= k < |ids| && ids[k] == selected.value;
      assert selected == Some(categories[k].id);
      OnlyItsCategoryHighlighted(categories, k);
    } else {
      NothingHighlightedForUnknownId(categories, selected.value);
    }
  }
}
