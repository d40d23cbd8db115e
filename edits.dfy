/** The list edits of the record handlers in js/render.js, as functions on
    the list: the two deletes, the per-record field updates found by id, and
    the new task that add-task appends. The handlers that load, edit in place
    and save are in module `Handlers`. */
module Edits {
  import opened Records
  import opened GoalOrder
  import opened Buckets
  import opened Tasks

  /** `d.id !== id && d.parentGoalId !== id` */
  function KeptByGoalDelete(id: string): Decision -> bool
  {
    (d: Decision) => d.id != id && d.parentGoalId != Some(id)
  }

  /** The records a goal delete removes: the goal and every child of it. */
  function RemovedByGoalDelete(id: string): Decision -> bool
  {
    (d: Decision) => !(d.id != id && d.parentGoalId != Some(id))
  }

  /** The list the goal delete saves (js/render.js:380). */
  function DeleteGoal(s: seq<Decision>, id: string): seq<Decision>
  {
    Filter(s, KeptByGoalDelete(id))
  }

  /** `d.id !== id` */
  function OtherId(id: string): Decision -> bool
  {
    (d: Decision) => d.id != id
  }

  /** The list the task delete saves (js/render.js:710). */
  function DeleteTask(s: seq<Decision>, id: string): seq<Decision>
  {
    Filter(s, OtherId(id))
  }

  /** A goal delete removes exactly the goal and its children: what it keeps
      and what it removes make up the list. No record of the result has the
      goal's id or names it as parent, so the goal has no tasks left. */
  lemma DeleteGoalRemovesGoalAndChildren(s: seq<Decision>, id: string, now: int)
    ensures multiset(DeleteGoal(s, id)) + multiset(Filter(s, RemovedByGoalDelete(id))) == multiset(s)
    ensures forall d :: d in DeleteGoal(s, id) ==> d.id != id && d.parentGoalId != Some(id)
    ensures ActiveTasks(DeleteGoal(s, id), id, now) == [] && CompletedTasks(DeleteGoal(s, id), id) == []
  {
    FilterSplit(s, KeptByGoalDelete(id), RemovedByGoalDelete(id));
    FilterDropsAll(DeleteGoal(s, id), ChildOf(id));
  }

  /** A second delete of the same goal changes nothing. */
  lemma DeleteGoalIdempotent(s: seq<Decision>, id: string)
    ensures DeleteGoal(DeleteGoal(s, id), id) == DeleteGoal(s, id)
  {
    FilterKeepsAll(DeleteGoal(s, id), KeptByGoalDelete(id));
  }

  /** A goal delete keeps the other records in their order: on a list made
      of two parts it deletes from each part. */
  lemma DeleteGoalPartwise(a: seq<Decision>, b: seq<Decision>, id: string)
    ensures DeleteGoal(a + b, id) == DeleteGoal(a, id) + DeleteGoal(b, id)
  {
    FilterConcat(a, b, KeptByGoalDelete(id));
  }

  /** A task delete removes the records with that id and keeps the others,
      children of it included. */
  lemma DeleteTaskRemovesOnlyId(s: seq<Decision>, id: string)
    ensures multiset(DeleteTask(s, id)) + multiset(Filter(s, (d: Decision) => d.id == id)) == multiset(s)
    ensures forall d :: d in s && d.id != id ==> d in DeleteTask(s, id)
  {
    FilterSplit(s, OtherId(id), (d: Decision) => d.id == id);
  }

  /** `updated[idx] = f(updated[idx])` for the first record with the id, or
      nothing when no record has it (the `idx !== -1` guards). */
  function UpdateById(s: seq<Decision>, id: string, f: Decision -> Decision): seq<Decision>
  {
    var idx := IndexOfId(s, id);
    if idx == -1 then s else s[idx := f(s[idx])]
  }

  /** Only the first record with the id changes; with no such record the
      list is returned unchanged. */
  lemma UpdateByIdOnlyTarget(s: seq<Decision>, id: string, f: Decision -> Decision)
    ensures var r := UpdateById(s, id, f);
      && |r| == |s|
      && ((forall x :: x in s ==> x.id != id) ==> r == s)
      && forall j :: 0 <= j < |s| ==>
           r[j] == if j == IndexOfId(s, id) then f(s[j]) else s[j]
  {
  }

  /** `hiddenUntil = null` (js/render.js:242). */
  function Unhidden(d: Decision): Decision
  {
    d.(hiddenUntil := 0)
  }

  /** The hide durations offered, in hours (js/render.js:297-306). */
  const HideHours: seq<int> := [1, 2, 4, 8, 24, 96, 168, 720]

  /** `Date.now() + hours * 60 * 60 * 1000` (js/render.js:328): for every
      offered duration, between one hour and thirty days after `now`. */
  function HideTarget(now: int, hours: int): (r: int)
    ensures hours in HideHours ==> now + 3_600_000 <= r <= now + 30 * 24 * 3_600_000
  {
    now + hours * 60 * 60 * 1000
  }

  /** `hiddenUntil = targetTime` (js/render.js:329). */
  function HiddenUntil(until: int): Decision -> Decision
  {
    (d: Decision) => d.(hiddenUntil := until)
  }

  /** `text = ...; deadline = ...` (js/render.js:419-420). */
  function Rewritten(text: string, deadline: string): Decision -> Decision
  {
    (d: Decision) => d.(text := text, deadline := deadline)
  }

  /** The record the completion handler writes back whole: the record as it
      was rendered, with `completed`, `resolution` and `dateCompleted` set
      (js/render.js:460-467). */
  function Completed(item: Decision, resolution: string, today: int): Decision
  {
    item.(completed := true, resolution := resolution, dateCompleted := Some(today))
  }

  /** Unhiding makes the record visible at any time; it changes nothing else. */
  lemma UnhideShows(d: Decision, now: int)
    ensures !IsHiddenAt(Unhidden(d), now)
    ensures Unhidden(d).(hiddenUntil := d.hiddenUntil) == d
  {
  }

  /** For any offered duration, a record hidden at `now` (not before the
      epoch) is hidden from `now` on and visible again once the duration has
      passed. */
  lemma HideHidesForDuration(d: Decision, now: int, hours: int, t: int)
    requires now >= 0 && hours in HideHours
    ensures now <= t < HideTarget(now, hours) ==> IsHiddenAt(HiddenUntil(HideTarget(now, hours))(d), t)
    ensures t >= HideTarget(now, hours) ==> !IsHiddenAt(HiddenUntil(HideTarget(now, hours))(d), t)
  {
  }

  /** A top goal that is completed with a date goes to the completed section
      on the next render; its resolution is the one given. */
  lemma CompletedGoalIsDated(item: Decision, resolution: string, today: int)
    ensures IsDatedCompletion(Completed(item, resolution, today))
    ensures IsTopGoal(item) <==> IsTopGoal(Completed(item, resolution, today))
    ensures Completed(item, resolution, today).resolution == resolution
  {
  }

  /** The task add-task appends (js/render.js:610-618): `deadline` and
      `hiddenUntil` are absent. */
  function NewTask(id: string, text: string, goalId: string): (r: Decision)
    ensures r.id == id && r.text == text
    ensures r.parentGoalId == Some(goalId) && !r.completed
    ensures forall t :: !IsHiddenAt(r, t)
  {
    Decision(id, Task, text, false, None, "", Some(goalId), 0, "")
  }

  /** The appended task is the goal's newest active task, after the others. */
  lemma AddedTaskIsLastActive(s: seq<Decision>, id: string, text: string, goalId: string, now: int)
    ensures ActiveTasks(s + [NewTask(id, text, goalId)], goalId, now)
         == ActiveTasks(s, goalId, now) + [NewTask(id, text, goalId)]
    ensures CompletedTasks(s + [NewTask(id, text, goalId)], goalId) == CompletedTasks(s, goalId)
  {
    var t := NewTask(id, text, goalId);
    FilterAppend(s, t, ChildOf(goalId));
    FilterAppend(Children(s, goalId), t, ActiveAt(now));
    FilterAppend(Children(s, goalId), t, IsCompleted);
  }
}
