/** Reordering goals by drag and drop (js/render.js:718-780, 784-790): the
    module-level `dragSrcEl` and the `#goalList` container's goal cards, and
    the goal order the drop saves. */
module GoalDrag {
  import opened Records
  import opened Reorder
  import opened Store

  /** The element `dragSrcEl` points at: a goal card or a task row. */
  datatype Card = GoalCard(goalId: string) | TaskRow(taskId: string)

  /** `dragSrcEl.dataset.goalId`: a task row has none. */
  function DraggedGoalId(c: Card): string
  {
    if c.GoalCard? then c.goalId else ""
  }

  /** The goal list's ids after `goalList.insertBefore(...)`
      (js/render.js:760-766): moved only when both ids are in the list. */
  function MovedGoalList(list: seq<string>, draggedId: string, targetId: string): (r: seq<string>)
    ensures multiset(r) == multiset(list)
  {
    var d := IndexOf(list, draggedId);
    var p := IndexOf(list, targetId);
    if d > -1 && p > -1 then InsertBefore(list, d, DropRef(d, p)) else list
  }

  /** `newOrder` (js/render.js:768-770): the non-empty ids, in DOM order. */
  function GoalDropOrder(list: seq<string>, draggedId: string, targetId: string): seq<string>
  {
    Filter(MovedGoalList(list, draggedId, targetId), IsNonEmpty)
  }

  /** On a list of goal cards with ids, the saved order is the splice move
      of the dragged goal to the target's index when both are in the list,
      and the list as it is otherwise. */
  lemma GoalDropMoves(list: seq<string>, draggedId: string, targetId: string)
    requires forall i :: 0 <= i < |list| ==> list[i] != ""
    ensures var d := IndexOf(list, draggedId);
      var p := IndexOf(list, targetId);
      GoalDropOrder(list, draggedId, targetId) == if d > -1 && p > -1 then Moved(list, d, p) else list
  {
    var d := IndexOf(list, draggedId);
    var p := IndexOf(list, targetId);
    var m := MovedGoalList(list, draggedId, targetId);
    NoEmptyIdDropped(list, draggedId, targetId);
    if d > -1 && p > -1 {
      assert m == InsertBefore(list, d, DropRef(d, p));
      DomMoveIsSplice(list, d, p);
    } else {
      assert m == list;
    }
  }

  /** With no empty ids, the filter of `newOrder` keeps every card. */
  lemma NoEmptyIdDropped(list: seq<string>, draggedId: string, targetId: string)
    requires forall i :: 0 <= i < |list| ==> list[i] != ""
    ensures GoalDropOrder(list, draggedId, targetId) == MovedGoalList(list, draggedId, targetId)
  {
    var m := MovedGoalList(list, draggedId, targetId);
    forall id | id in m ensures IsNonEmpty(id) {
      assert id in multiset(m);
    }
    FilterKeepsAll(m, IsNonEmpty);
  }

  /** When both goals are in the list, the saved order holds the same ids,
      with the dragged goal where the target was; dragging it back from
      there restores the list. */
  lemma GoalDropPlacesDragged(list: seq<string>, draggedId: string, targetId: string)
    requires forall i :: 0 <= i < |list| ==> list[i] != ""
    requires draggedId in list && targetId in list
    ensures var order := GoalDropOrder(list, draggedId, targetId);
      var d := IndexOf(list, draggedId);
      var p := IndexOf(list, targetId);
      && |order| == |list| && multiset(order) == multiset(list)
      && order[p] == draggedId
      && Moved(order, p, d) == list
  {
    var d := IndexOf(list, draggedId);
    var p := IndexOf(list, targetId);
    assert GoalDropOrder(list, draggedId, targetId) == Moved(list, d, p) by {
      GoalDropMoves(list, draggedId, targetId);
    }
    MovedFacts(list, d, p);
  }

  /** `dragSrcEl` and the ids of the `#goalList` children, in DOM order. */
  class GoalBoard {
    var dragSource: Option<Card>
    var goalList: seq<string>

    constructor(goalList: seq<string>)
      ensures dragSource == None && this.goalList == goalList
    {
      dragSource := None;
      this.goalList := goalList;
    }

    /** `dragstart` on a goal card (js/render.js:721-731): ignored when it
        starts on a task row inside the card. */
    method StartGoalDrag(goalId: string, fromTaskRow: bool)
      modifies this
      ensures goalList == old(goalList)
      ensures dragSource == if fromTaskRow then old(dragSource) else Some(GoalCard(goalId))
    {
      if fromTaskRow {
        return;
      }
      dragSource := Some(GoalCard(goalId));
    }

    /** `dragstart` on a task row (js/render.js:784-790). */
    method StartTaskDrag(taskId: string)
      modifies this
      ensures goalList == old(goalList)
      ensures dragSource == Some(TaskRow(taskId))
    {
      dragSource := Some(TaskRow(taskId));
    }

    /** `drop` on the goal card `targetId` (js/render.js:746-776):
        - on a task row inside the card: ignored;
        - with no drag source, or the card itself as source: the source is
          cleared;
        - when the source or the target has no goal id: nothing changes,
          not even the source;
        - otherwise the dragged card moves (when both are in the list), the
          list's order is saved, and the source is cleared unless the save
          is rejected for a missing document. */
    method DropOnGoal(store: Store, targetId: string, onTaskRow: bool)
      modifies this, store
      ensures store.signedIn == old(store.signedIn) && store.docExists == old(store.docExists)
      ensures store.storedItems == old(store.storedItems) && store.cache == old(store.cache)
      ensures onTaskRow ==>
        goalList == old(goalList) && dragSource == old(dragSource) && store.storedOrder == old(store.storedOrder)
      ensures !onTaskRow && (old(dragSource).None? || old(dragSource) == Some(GoalCard(targetId))) ==>
        goalList == old(goalList) && dragSource == None && store.storedOrder == old(store.storedOrder)
      ensures !onTaskRow && old(dragSource).Some? && old(dragSource) != Some(GoalCard(targetId)) ==>
        var draggedId := DraggedGoalId(old(dragSource).value);
        if draggedId == "" || targetId == "" then
          goalList == old(goalList) && dragSource == old(dragSource) && store.storedOrder == old(store.storedOrder)
        else
          var order := GoalDropOrder(old(goalList), draggedId, targetId);
          var written := store.signedIn && |order| > 0 && store.docExists;
          var rejected := store.signedIn && |order| > 0 && !store.docExists;
          && goalList == MovedGoalList(old(goalList), draggedId, targetId)
          && store.storedOrder == (if written then Some(order) else old(store.storedOrder))
          && dragSource == (if rejected then old(dragSource) else None)
    {
      if onTaskRow {
        return;
      }
      if dragSource.Some? && dragSource != Some(GoalCard(targetId)) {
        var draggedId := DraggedGoalId(dragSource.value);
        if draggedId == "" || targetId == "" {
          return;
        }
        goalList := MovedGoalList(goalList, draggedId, targetId);
        var newOrder := Filter(goalList, IsNonEmpty);
        var rejected := store.SaveGoalOrder(Some(newOrder));
        if rejected {
          return;
        }
      }
      dragSource := None;
    }
  }
}
