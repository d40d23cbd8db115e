/** The record handlers of js/render.js: each loads the list from the store,
    edits it (in place, or into a new array) and saves it. The dialogs that
    precede them (`confirm`, `prompt`) are modelled by their answers. */
module Handlers {
  import opened Records
  import opened Text
  import opened Store
  import opened Edits
  import opened Reorder
  import opened Tasks

  /** A save of `s` is accepted: a user is signed in and `s` holds a valid
      record. */
  predicate Accepted(signedIn: bool, s: seq<Decision>)
  {
    signedIn && HasValidRecord(s)
  }

  /** `loadDecisions()` returns the `SAMPLE_DECISIONS` array itself: it is
      the cache, or there is no cache and no user. */
  predicate LoadsSample(cache: RecordList?, sample: RecordList, signedIn: bool)
  {
    cache == sample || (cache == null && !signedIn)
  }

  /** Load; `updated[idx] = f(updated[idx])` for the record with the id;
      save. The edit lands in the cached array whether or not the save is
      accepted (js/render.js:238-246, 324-335, 416-422, 464-469). */
  method UpdateAndSave(store: Store, id: string, f: Decision -> Decision)
    modifies store, store.cache, store.sample
    ensures store.cache != null && store.signedIn == old(store.signedIn)
    ensures store.storedOrder == old(store.storedOrder)
    ensures var loaded := old(store.LoadedItems(false));
      var edited := UpdateById(loaded, id, f);
      var saved := IndexOfId(loaded, id) != -1 && Accepted(store.signedIn, edited);
      && store.cache.items == edited
      && store.storedItems == (if saved then Some(edited) else old(store.storedItems))
      && store.docExists == (old(store.docExists) || saved)
    ensures old(store.cache) != null ==> store.cache == old(store.cache)
    ensures old(store.cache) == null && !store.signedIn ==> store.cache == store.sample
    ensures !LoadsSample(old(store.cache), store.sample, store.signedIn) ==>
      store.sample.items == old(store.sample.items)
  {
    var updated := store.Load(false);
    var idx := IndexOfId(updated.items, id);
    if idx != -1 {
      updated.Set(idx, f(updated.items[idx]));
      store.SaveDecisions(updated);
    }
  }

  /** The unhide button (js/render.js:238-246). */
  method OnUnhide(store: Store, id: string)
    modifies store, store.cache, store.sample
    ensures store.cache != null && store.signedIn == old(store.signedIn)
    ensures store.storedOrder == old(store.storedOrder)
    ensures var loaded := old(store.LoadedItems(false));
      var edited := UpdateById(loaded, id, Unhidden);
      var saved := IndexOfId(loaded, id) != -1 && Accepted(store.signedIn, edited);
      && store.cache.items == edited
      && store.storedItems == (if saved then Some(edited) else old(store.storedItems))
      && store.docExists == (old(store.docExists) || saved)
    ensures old(store.cache) != null ==> store.cache == old(store.cache)
    ensures old(store.cache) == null && !store.signedIn ==> store.cache == store.sample
    ensures !LoadsSample(old(store.cache), store.sample, store.signedIn) ==>
      store.sample.items == old(store.sample.items)
  {
    UpdateAndSave(store, id, Unhidden);
  }

  /** A hide option of `hours` hours picked at time `now` (js/render.js:324-335). */
  method OnHide(store: Store, id: string, now: int, hours: int)
    modifies store, store.cache, store.sample
    ensures store.cache != null && store.signedIn == old(store.signedIn)
    ensures store.storedOrder == old(store.storedOrder)
    ensures var loaded := old(store.LoadedItems(false));
      var edited := UpdateById(loaded, id, HiddenUntil(HideTarget(now, hours)));
      var saved := IndexOfId(loaded, id) != -1 && Accepted(store.signedIn, edited);
      && store.cache.items == edited
      && store.storedItems == (if saved then Some(edited) else old(store.storedItems))
      && store.docExists == (old(store.docExists) || saved)
    ensures old(store.cache) != null ==> store.cache == old(store.cache)
    ensures old(store.cache) == null && !store.signedIn ==> store.cache == store.sample
    ensures !LoadsSample(old(store.cache), store.sample, store.signedIn) ==>
      store.sample.items == old(store.sample.items)
  {
    UpdateAndSave(store, id, HiddenUntil(HideTarget(now, hours)));
  }

  /** The save step of the edit button with the two inputs' values
      (js/render.js:412-426). */
  method OnEdit(store: Store, id: string, textInput: string, deadlineInput: string)
    modifies store, store.cache, store.sample
    ensures store.cache != null && store.signedIn == old(store.signedIn)
    ensures store.storedOrder == old(store.storedOrder)
    ensures var loaded := old(store.LoadedItems(false));
      var edited := UpdateById(loaded, id, Rewritten(Trim(textInput), Trim(deadlineInput)));
      var saved := IndexOfId(loaded, id) != -1 && Accepted(store.signedIn, edited);
      && store.cache.items == edited
      && store.storedItems == (if saved then Some(edited) else old(store.storedItems))
      && store.docExists == (old(store.docExists) || saved)
    ensures old(store.cache) != null ==> store.cache == old(store.cache)
    ensures old(store.cache) == null && !store.signedIn ==> store.cache == store.sample
    ensures !LoadsSample(old(store.cache), store.sample, store.signedIn) ==>
      store.sample.items == old(store.sample.items)
  {
    UpdateAndSave(store, id, Rewritten(Trim(textInput), Trim(deadlineInput)));
  }

  function ReplaceWith(x: Decision): Decision -> Decision
  {
    (d: Decision) => x
  }

  /** The completion checkbox with the prompt's answer (js/render.js:453-470):
      an empty or cancelled answer changes nothing; otherwise the rendered
      record, marked completed, replaces the stored one. */
  method OnComplete(store: Store, item: Decision, resolution: string, today: int)
    modifies store, store.cache, store.sample
    ensures resolution == "" ==>
      store.cache == old(store.cache) && store.storedItems == old(store.storedItems)
      && store.docExists == old(store.docExists)
    ensures resolution == "" ==> old(store.cache) != null ==> store.cache.items == old(store.cache.items)
    ensures store.signedIn == old(store.signedIn) && store.storedOrder == old(store.storedOrder)
    ensures resolution != "" ==>
      var loaded := old(store.LoadedItems(false));
      var edited := UpdateById(loaded, item.id, ReplaceWith(Completed(item, resolution, today)));
      var saved := IndexOfId(loaded, item.id) != -1 && Accepted(store.signedIn, edited);
      && store.cache != null
      && store.cache.items == edited
      && store.storedItems == (if saved then Some(edited) else old(store.storedItems))
      && store.docExists == (old(store.docExists) || saved)
    ensures old(store.cache) != null ==> store.cache == old(store.cache)
    ensures resolution != "" && old(store.cache) == null && !store.signedIn ==> store.cache == store.sample
    ensures resolution == "" || !LoadsSample(old(store.cache), store.sample, store.signedIn) ==>
      store.sample.items == old(store.sample.items)
  {
    if resolution == "" {
      return;
    }
    UpdateAndSave(store, item.id, ReplaceWith(Completed(item, resolution, today)));
  }

  /** Load, compute a new array from the loaded one, and save it; `None`
      stands for a handler that returns after loading without saving. */
  method LoadComputeSave(store: Store, f: seq<Decision> -> Option<seq<Decision>>)
    modifies store
    ensures store.cache != null && store.signedIn == old(store.signedIn)
    ensures store.storedOrder == old(store.storedOrder)
    ensures var loaded := old(store.LoadedItems(false));
      match f(loaded)
      case Some(s) =>
        && store.docExists == (old(store.docExists) || Accepted(store.signedIn, s))
        && if Accepted(store.signedIn, s) then store.storedItems == Some(s) && store.cache.items == s
           else store.storedItems == old(store.storedItems) && store.cache.items == loaded
      case None =>
        store.storedItems == old(store.storedItems) && store.cache.items == loaded
        && store.docExists == old(store.docExists)
  {
    var updated := store.Load(false);
    var r := f(updated.items);
    if r.Some? {
      var list := new RecordList(r.value);
      store.SaveDecisions(list);
    }
  }

  function DeleteGoalStep(id: string): seq<Decision> -> Option<seq<Decision>>
  {
    (s: seq<Decision>) => Some(DeleteGoal(s, id))
  }

  function DeleteTaskStep(id: string): seq<Decision> -> Option<seq<Decision>>
  {
    (s: seq<Decision>) => Some(DeleteTask(s, id))
  }

  /** The goal delete button with the answer to `confirm`
      (js/render.js:377-383): a cancelled delete changes nothing. */
  method OnDeleteGoal(store: Store, id: string, confirmed: bool)
    modifies store
    ensures store.signedIn == old(store.signedIn) && store.storedOrder == old(store.storedOrder)
    ensures !confirmed ==>
      store.cache == old(store.cache) && store.storedItems == old(store.storedItems)
      && store.docExists == old(store.docExists)
    ensures confirmed ==>
      var loaded := old(store.LoadedItems(false));
      var kept := DeleteGoal(loaded, id);
      && store.cache != null
      && store.docExists == (old(store.docExists) || Accepted(store.signedIn, kept))
      && if Accepted(store.signedIn, kept) then store.storedItems == Some(kept) && store.cache.items == kept
         else store.storedItems == old(store.storedItems) && store.cache.items == loaded
  {
    if !confirmed {
      return;
    }
    LoadComputeSave(store, DeleteGoalStep(id));
  }

  /** The task delete button with the answer to `confirm`
      (js/render.js:707-713): a cancelled delete changes nothing. */
  method OnDeleteTask(store: Store, id: string, confirmed: bool)
    modifies store
    ensures store.signedIn == old(store.signedIn) && store.storedOrder == old(store.storedOrder)
    ensures !confirmed ==>
      store.cache == old(store.cache) && store.storedItems == old(store.storedItems)
      && store.docExists == old(store.docExists)
    ensures confirmed ==>
      var loaded := old(store.LoadedItems(false));
      var kept := DeleteTask(loaded, id);
      && store.cache != null
      && store.docExists == (old(store.docExists) || Accepted(store.signedIn, kept))
      && if Accepted(store.signedIn, kept) then store.storedItems == Some(kept) && store.cache.items == kept
         else store.storedItems == old(store.storedItems) && store.cache.items == loaded
  {
    if !confirmed {
      return;
    }
    LoadComputeSave(store, DeleteTaskStep(id));
  }

  /** Deleting a goal from a list that holds nothing but the goal and its
      children leaves no valid record, so the save is refused and the goal
      stays stored. */
  lemma LastGoalDeleteRefused(s: seq<Decision>, id: string)
    requires forall d :: d in s ==> d.id == id || d.parentGoalId == Some(id)
    ensures DeleteGoal(s, id) == []
    ensures !HasValidRecord(DeleteGoal(s, id))
  {
    FilterDropsAll(s, KeptByGoalDelete(id));
  }

  /** The add-task button (js/render.js:604-626): empty text after trimming
      changes nothing; otherwise the new task is pushed onto the cached array
      and the array saved. */
  method OnAddTask(store: Store, goalId: string, newId: string, input: string)
    modifies store, store.cache, store.sample
    ensures Trim(input) == "" ==>
      store.cache == old(store.cache) && store.storedItems == old(store.storedItems)
      && store.docExists == old(store.docExists)
    ensures Trim(input) == "" ==> old(store.cache) != null ==> store.cache.items == old(store.cache.items)
    ensures store.signedIn == old(store.signedIn) && store.storedOrder == old(store.storedOrder)
    ensures Trim(input) != "" ==>
      var grown := old(store.LoadedItems(false)) + [NewTask(newId, Trim(input), goalId)];
      && store.cache != null
      && store.cache.items == grown
      && store.storedItems == (if Accepted(store.signedIn, grown) then Some(grown) else old(store.storedItems))
      && store.docExists == (old(store.docExists) || Accepted(store.signedIn, grown))
    ensures old(store.cache) != null ==> store.cache == old(store.cache)
    ensures Trim(input) != "" && old(store.cache) == null && !store.signedIn ==> store.cache == store.sample
    ensures Trim(input) == "" || !LoadsSample(old(store.cache), store.sample, store.signedIn) ==>
      store.sample.items == old(store.sample.items)
  {
    var text := Trim(input);
    if text == "" {
      return;
    }
    var updated := store.Load(false);
    updated.Push(NewTask(newId, text, goalId));
    store.SaveDecisions(updated);
  }

  /** With a non-empty id, a list with a new task always holds a valid
      record: a signed-in add-task is never refused. */
  lemma AddTaskAccepted(s: seq<Decision>, goalId: string, newId: string, input: string)
    requires newId != "" && Trim(input) != ""
    ensures HasValidRecord(s + [NewTask(newId, Trim(input), goalId)])
  {
    assert NewTask(newId, Trim(input), goalId) in s + [NewTask(newId, Trim(input), goalId)];
  }

  /** The drop handler of `enableTaskDrag` (js/render.js:50-73). */
  method OnTaskDrag(store: Store, goalId: string, droppedId: string, targetId: string)
    modifies store
    ensures store.signedIn == old(store.signedIn) && store.storedOrder == old(store.storedOrder)
    ensures droppedId == "" || droppedId == targetId ==>
      store.cache == old(store.cache) && store.storedItems == old(store.storedItems)
      && store.docExists == old(store.docExists)
    ensures droppedId != "" && droppedId != targetId ==>
      var loaded := old(store.LoadedItems(false));
      && store.cache != null
      && match TaskDropResult(loaded, goalId, droppedId, targetId)
         case Some(s) =>
           && store.docExists == (old(store.docExists) || Accepted(store.signedIn, s))
           && if Accepted(store.signedIn, s) then store.storedItems == Some(s) && store.cache.items == s
              else store.storedItems == old(store.storedItems) && store.cache.items == loaded
         case None =>
           store.storedItems == old(store.storedItems) && store.cache.items == loaded
           && store.docExists == old(store.docExists)
  {
    if droppedId == "" || droppedId == targetId {
      return;
    }
    var updated := store.Load(false);
    var saved := TaskDrop(updated.items, goalId, droppedId, targetId);
    if saved.Some? {
      var list := new RecordList(saved.value);
      store.SaveDecisions(list);
    }
  }

  /** The task ids of the rows `renderChildren` draws for the goal from
      `items` at time `now`: one row per active task, in list order. */
  function RowIds(items: seq<Decision>, goalId: string, now: int): seq<string>
  {
    Ids(ActiveTasks(items, goalId, now))
  }

  /** The goal's rows once the live drop is done: when the goal is in the
      list loaded before the save, its rows are drawn again from that list
      (js/render.js:838-842); otherwise the moved rows stay. */
  function RowsAfterDrop(loaded: seq<Decision>, goalId: string, now: int, moved: seq<string>)
    : seq<string>
  {
    if FindById(loaded, goalId).Some? then RowIds(loaded, goalId, now) else moved
  }

  /** The rows are drawn from the list as it was before the drop: on the
      example list, dropping "a" on "b" moves row "a" after "b", and the
      rows then come back as "a", "b". */
  lemma RowsShowOrderBeforeDrop(until: int, now: int)
    requires 0 <= now < until
    ensures NewTaskOrder(["a", "b"], "a", "b") == Some(["b", "a"])
    ensures RowsAfterDrop(LostTaskList(until), "g", now, ["b", "a"]) == ["a", "b"]
  {
    NewTaskOrderExample();
    LostTaskListRowIds(until, now);
  }

  /** Before time `until` the goal "g" is found and its rows are "a", "b". */
  lemma LostTaskListRowIds(until: int, now: int)
    requires 0 <= now < until
    ensures FindById(LostTaskList(until), "g").Some?
    ensures RowIds(LostTaskList(until), "g", now) == ["a", "b"]
  {
    var all := LostTaskList(until);
    LostTaskListRows(until, now);
    FindByIdFirst(all, "g", 0);
    assert Ids([all[1], all[2]]) == ["a", "b"];
  }

  /** The live task-row drop as written (js/render.js:803-844), with the rows'
      task ids `shown`: the rows are moved in the page, the list is loaded,
      `DomTaskDropAsWritten` of it is saved, and the goal's rows are drawn
      again at time `now` from the list loaded before the save. */
  method OnTaskRowDrop(store: Store, goalId: string, shown: seq<string>, droppedId: string,
                       targetId: string, now: int)
    returns (rows: seq<string>)
    modifies store
    ensures store.signedIn == old(store.signedIn) && store.storedOrder == old(store.storedOrder)
    ensures NewTaskOrder(shown, droppedId, targetId).None? ==>
      rows == shown && store.cache == old(store.cache) && store.storedItems == old(store.storedItems)
      && store.docExists == old(store.docExists)
    ensures NewTaskOrder(shown, droppedId, targetId).Some? ==>
      var loaded := old(store.LoadedItems(false));
      var s := DomTaskDropAsWritten(loaded, goalId, shown, droppedId, targetId).value;
      && rows == RowsAfterDrop(loaded, goalId, now, NewTaskOrder(shown, droppedId, targetId).value)
      && store.cache != null
      && store.docExists == (old(store.docExists) || Accepted(store.signedIn, s))
      && if Accepted(store.signedIn, s) then store.storedItems == Some(s) && store.cache.items == s
         else store.storedItems == old(store.storedItems) && store.cache.items == loaded
  {
    var order := NewTaskOrder(shown, droppedId, targetId);
    if order.None? {
      return shown;
    }
    var updated := store.Load(false);
    var loaded := updated.items;
    var s := DomTaskDropAsWritten(loaded, goalId, shown, droppedId, targetId);
    var list := new RecordList(s.value);
    store.SaveDecisions(list);
    rows := RowsAfterDrop(loaded, goalId, now, order.value);
  }

  /** The same handler saving the corrected `DomTaskDrop`, which keeps the
      goal's tasks that have no row. */
  method OnTaskRowDropCorrected(store: Store, goalId: string, shown: seq<string>, droppedId: string,
                                targetId: string, now: int)
    returns (rows: seq<string>)
    modifies store
    ensures store.signedIn == old(store.signedIn) && store.storedOrder == old(store.storedOrder)
    ensures NewTaskOrder(shown, droppedId, targetId).None? ==>
      rows == shown && store.cache == old(store.cache) && store.storedItems == old(store.storedItems)
      && store.docExists == old(store.docExists)
    ensures NewTaskOrder(shown, droppedId, targetId).Some? ==>
      var loaded := old(store.LoadedItems(false));
      var s := DomTaskDrop(loaded, goalId, shown, droppedId, targetId).value;
      && rows == RowsAfterDrop(loaded, goalId, now, NewTaskOrder(shown, droppedId, targetId).value)
      && store.cache != null
      && store.docExists == (old(store.docExists) || Accepted(store.signedIn, s))
      && if Accepted(store.signedIn, s) then store.storedItems == Some(s) && store.cache.items == s
         else store.storedItems == old(store.storedItems) && store.cache.items == loaded
  {
    var order := NewTaskOrder(shown, droppedId, targetId);
    if order.None? {
      return shown;
    }
    var updated := store.Load(false);
    var loaded := updated.items;
    var s := DomTaskDrop(loaded, goalId, shown, droppedId, targetId);
    var list := new RecordList(s.value);
    store.SaveDecisions(list);
    rows := RowsAfterDrop(loaded, goalId, now, order.value);
  }
}
