/** The task card: its priority badge and dot, the item it carries while
    dragged, and how a checkbox change becomes a toggle request. */
module TaskCard {
  import opened Wrappers
  import opened Domain

  /** `getPriorityColor`: the badge variant for a priority. */
  function PriorityColor(priority: string): (r: string)
    ensures r == "error" <==> priority == High
    ensures r == "warning" <==> priority == Medium
    ensures r == "success" <==> priority == Low
    ensures r == "default" <==> priority !in {High, Medium, Low}
  {
    if priority == High then "error"
    else if priority == Medium then "warning"
    else if priority == Low then "success"
    else "default"
  }

  /** `getPriorityIcon`: the badge icon for a priority; unknown priorities share medium's icon. */
  function PriorityIcon(priority: string): (r: string)
    ensures r == "AlertTriangle" <==> priority == High
    ensures r == "ArrowDown" <==> priority == Low
    ensures r == "Minus" <==> priority != High && priority != Low
  {
    if priority == High then "AlertTriangle"
    else if priority == Medium then "Minus"
    else if priority == Low then "ArrowDown"
    else "Minus"
  }

  /** The colour of the priority dot: anything that is neither high nor medium is shown as low. */
  function PriorityDot(priority: string): (r: string)
    ensures r == "error" <==> priority == High
    ensures r == "warning" <==> priority == Medium
    ensures r == "success" <==> priority != High && priority != Medium
  {
    if priority == High then "error" else if priority == Medium then "warning" else "success"
  }

  /** The dot and the badge agree exactly on the three known priorities; an
      unknown priority gets a "success" dot beside a "default" badge. */
  lemma DotAgreesWithBadgeIffKnown(priority: string)
    ensures PriorityDot(priority) == PriorityColor(priority) <==> priority in {High, Medium, Low}
    ensures priority !in {High, Medium, Low} ==> PriorityDot(priority) == "success" && PriorityColor(priority) == "default"
  {
  }

  /** The item a dragged card carries. */
  datatype DragItem = DragItem(id: Id, categoryId: Option<Id>)

  /** `item: { id: task.id, categoryId: task.categoryId }`. */
  function DragItemOf(task: Task): (r: DragItem)
    ensures r.id == task.id && r.categoryId == task.categoryId
  {
    DragItem(task.id, task.categoryId)
  }

  /** What a checkbox change does: whether the celebration (confetti, then a
      500 ms delay) runs first, and the ids passed to `onToggleComplete`. */
  datatype Dispatch = Dispatch(celebrate: bool, toggled: seq<Id>)

  /** `handleToggleComplete`: `checked` is the truthiness of the argument. Both
      branches call `onToggleComplete(task.id)` exactly once; the delayed,
      celebratory branch is taken for a truthy argument on an uncompleted task. */
  function HandleToggleComplete(task: Task, checked: bool): (r: Dispatch)
    ensures r.toggled == [task.id]
    ensures r.celebrate <==> checked && !task.completed
  {
    if checked && !task.completed then Dispatch(true, [task.id]) else Dispatch(false, [task.id])
  }

  /** The checkbox passes its change event, an object and so always truthy:
      every click on an uncompleted task celebrates, and on a completed one toggles at once. */
  lemma CheckboxClickCelebratesIffUncompleted(task: Task)
    ensures HandleToggleComplete(task, true).celebrate <==> !task.completed
  {
  }
}
