/** The task list: the drop rule that turns a dropped card into a move
    request, and the category lookup each card is rendered with. */
module TaskList {
  import opened Wrappers
  import opened Domain
  import TaskCard

  /** A call `onTaskDrop(taskId, categoryId)`. */
  datatype MoveRequest = MoveRequest(taskId: Id, categoryId: Option<Id>)

  /** The `drop` handler: a card dropped on the list of another category asks
      to move the task to the list's category; one dropped on its own
      category's list asks for nothing. */
  function Drop(item: TaskCard.DragItem, listCategoryId: Option<Id>): (r: Option<MoveRequest>)
    ensures r.Some? <==> item.categoryId != listCategoryId
    ensures r.Some? ==> r.value.taskId == item.id && r.value.categoryId == listCategoryId
  {
    if item.categoryId != listCategoryId then Some(MoveRequest(item.id, listCategoryId)) else None
  }

  /** The list registers as a drop target only when it renders tasks; the
      empty-state markup carries no drop ref. */
  function DropOnList(visible: seq<Task>, listCategoryId: Option<Id>, item: TaskCard.DragItem): (r: Option<MoveRequest>)
    ensures |visible| == 0 ==> r.None?
    ensures |visible| > 0 ==> r == Drop(item, listCategoryId)
  {
    if |visible| == 0 then None else Drop(item, listCategoryId)
  }

  /** Dropping a card on its own category's list issues no move; dropping it on
      the "All Tasks" list (category `null`, the default) moves a categorised
      task to `null`. */
  lemma DropOfCard(t: Task, listCategoryId: Option<Id>)
    ensures Drop(TaskCard.DragItemOf(t), t.categoryId).None?
    ensures t.categoryId.Some? ==> Drop(TaskCard.DragItemOf(t), None) == Some(MoveRequest(t.id, None))
    ensures listCategoryId != t.categoryId ==>
      Drop(TaskCard.DragItemOf(t), listCategoryId) == Some(MoveRequest(t.id, listCategoryId))
  {
  }

  /** `getCategoryById`: the first category whose id equals `id`, or none (a `null` id matches none). */
  function GetCategoryById(categories: seq<Category>, id: Option<Id>): (r: Option<Category>)
    ensures r.None? <==> forall i :: 0 <= i < |categories| ==> Some(categories[i].id) != id
    ensures r.Some? ==> Some(r.value.id) == id && r.value in categories
    ensures r.Some? ==>
      exists k :: 0 <= k < |categories| && categories[k] == r.value && forall j :: 0 <= j < k ==> Some(categories[j].id) != id
    decreases |categories|
  {
    if |categories| == 0 then None
    else if Some(categories[0].id) == id then Some(categories[0])
    else
      var r := GetCategoryById(categories[1..], id);
      assert forall i :: 1 <= i < |categories| ==> categories[i] == categories[1..][i - 1];
      if r.Some? then
        var k :| 0 <= k < |categories[1..]| && categories[1..][k] == r.value
          && forall j :: 0 <= j < k ==> Some(categories[1..][j].id) != id;
        assert categories[k + 1] == r.value;
        r
      else r
  }

  /** With distinct category ids the lookup finds exactly the category with that id. */
  lemma GetCategoryByIdUnique(categories: seq<Category>, id: Id, c: Category)
    requires DistinctCategoryIds(categories)
    ensures GetCategoryById(categories, Some(id)) == Some(c) <==> c in categories && c.id == id
  {
    if c in categories && c.id == id {
      var r := GetCategoryById(categories, Some(id));
      var i :| 0 <= i < |categories| && categories[i] == c;
      var k :| 0 <= k < |categories| && categories[k] == r.value
        && forall j :: 0 <= j < k ==> Some(categories[j].id) != Some(id);
      assert k == i;
    }
  }
}
