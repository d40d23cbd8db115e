/** The per-goal task lists of `renderChildren` (js/render.js:525-540): a goal's
    children split into active tasks and completed tasks; a child hidden into
    the future is in neither. */
module Tasks {
  import opened Records

  /** `i.parentGoalId === goalId`. */
  function ChildOf(goalId: string): Decision -> bool
  {
    (d: Decision) => d.parentGoalId == Some(goalId)
  }

  /** `children` (js/render.js:526). */
  function Children(all: seq<Decision>, goalId: string): seq<Decision>
  {
    Filter(all, ChildOf(goalId))
  }

  /** `activeTasks` (js/render.js:529-538). */
  function ActiveTasks(all: seq<Decision>, goalId: string, now: int): seq<Decision>
  {
    Filter(Children(all, goalId), ActiveAt(now))
  }

  /** `completedTasks` (js/render.js:540). */
  function CompletedTasks(all: seq<Decision>, goalId: string): seq<Decision>
  {
    Filter(Children(all, goalId), IsCompleted)
  }

  function ActiveChildOf(goalId: string, now: int): Decision -> bool
  {
    (d: Decision) => d.parentGoalId == Some(goalId) && !d.completed && !IsHiddenAt(d, now)
  }

  function CompletedChildOf(goalId: string): Decision -> bool
  {
    (d: Decision) => d.parentGoalId == Some(goalId) && d.completed
  }

  /** Which list a record of the goal lands in, by its own fields: active iff
      not completed and its hide time is absent or reached; completed iff
      completed; a child hidden into the future in neither. */
  lemma TaskPartition(all: seq<Decision>, goalId: string, now: int, c: Decision)
    ensures c in ActiveTasks(all, goalId, now) <==>
      c in all && c.parentGoalId == Some(goalId) && !c.completed
      && (c.hiddenUntil == 0 || now >= c.hiddenUntil)
    ensures c in CompletedTasks(all, goalId) <==>
      c in all && c.parentGoalId == Some(goalId) && c.completed
    ensures c in all && c.parentGoalId == Some(goalId) && !c.completed && IsHiddenAt(c, now) ==>
      c !in ActiveTasks(all, goalId, now) && c !in CompletedTasks(all, goalId)
  {
  }

  /** Both lists keep list order: each is one filter over the whole list. */
  lemma TasksKeepListOrder(all: seq<Decision>, goalId: string, now: int)
    ensures ActiveTasks(all, goalId, now) == Filter(all, ActiveChildOf(goalId, now))
    ensures CompletedTasks(all, goalId) == Filter(all, CompletedChildOf(goalId))
  {
    FilterFilter(all, ChildOf(goalId), ActiveAt(now), ActiveChildOf(goalId, now));
    FilterFilter(all, ChildOf(goalId), IsCompleted, CompletedChildOf(goalId));
  }

  /** Every child is in exactly one of: the active list, the completed list,
      the children parked by a future hide time. */
  lemma ChildrenSplitThreeWays(all: seq<Decision>, goalId: string, now: int)
    ensures multiset(ActiveTasks(all, goalId, now)) + multiset(CompletedTasks(all, goalId))
            + multiset(Filter(Children(all, goalId), HiddenAt(now)))
         == multiset(Children(all, goalId))
  {
    var ch := Children(all, goalId);
    var open := Filter(ch, IsOpen);
    FilterSplit(ch, IsOpen, IsCompleted);
    FilterSplitNot(open, ShownAt(now));
    FilterFilter(ch, IsOpen, ShownAt(now), ActiveAt(now));
    FilterFilter(ch, IsOpen, Not(ShownAt(now)), HiddenAt(now));
  }

  function ShownAt(now: int): Decision -> bool
  {
    (d: Decision) => !IsHiddenAt(d, now)
  }
}
