/** Reordering the incomplete tasks of one goal by drag and drop.
    - `Moved` is the splice pair of js/render.js:67-68 (take the element out at
      `from`, put it back at `to`); `SpliceMove` does it in place on an array.
    - `InsertBefore` is the DOM move of js/render.js:765 and js/render.js:822;
      `DomMoveIsSplice` shows that both handlers move elements the same way.
    - `TaskDropResult` is the list `enableTaskDrag` saves (js/render.js:50-73);
      `DomTaskDrop` the list the live handler saves (js/render.js:803-834),
      in its corrected form; `DomTaskDropAsWritten` is the handler as written. */
module Reorder {
  import opened Records
  import opened GoalOrder
  import opened Tasks

  /** `i.parentGoalId === goalId && !i.completed` */
  function UnderGoalOf(goalId: string): Decision -> bool
  {
    (d: Decision) => d.parentGoalId == Some(goalId) && !d.completed
  }

  /** `i.parentGoalId !== goalId || i.completed` */
  function OthersOf(goalId: string): Decision -> bool
  {
    (d: Decision) => d.parentGoalId != Some(goalId) || d.completed
  }

  function UnderGoal(all: seq<Decision>, goalId: string): seq<Decision>
  {
    Filter(all, UnderGoalOf(goalId))
  }

  function Others(all: seq<Decision>, goalId: string): seq<Decision>
  {
    Filter(all, OthersOf(goalId))
  }

  /** `underGoal` and `others` are complementary: together they hold every
      record of the list exactly as often as the list does. */
  lemma UnderGoalOthersSplit(all: seq<Decision>, goalId: string)
    ensures multiset(UnderGoal(all, goalId)) + multiset(Others(all, goalId)) == multiset(all)
    ensures forall d :: d in all ==> (d in UnderGoal(all, goalId) <==> d !in Others(all, goalId))
  {
    FilterSplit(all, UnderGoalOf(goalId), OthersOf(goalId));
  }

  /** `const [moved] = s.splice(from, 1); s.splice(to, 0, moved);` */
  function Moved<T>(s: seq<T>, from: int, to: int): (r: seq<T>)
    requires 0 <= from < |s| && 0 <= to < |s|
    ensures |r| == |s|
  {
    var rest := s[..from] + s[from + 1..];
    rest[..to] + [s[from]] + rest[to..]
  }

  /** Where each element ends up: the moved one at `to`, the ones between
      the two positions shifted by one towards `from`, the rest in place. */
  lemma MovedAt<T>(s: seq<T>, from: int, to: int, i: int)
    requires 0 <= from < |s| && 0 <= to < |s| && 0 <= i < |s|
    ensures Moved(s, from, to)[i] ==
      if i == to then s[from]
      else if from <= i < to then s[i + 1]
      else if to < i <= from then s[i - 1]
      else s[i]
  {
    var rest := s[..from] + s[from + 1..];
    assert forall j :: 0 <= j < |rest| ==> rest[j] == if j < from then s[j] else s[j + 1];
    var r := rest[..to] + [s[from]] + rest[to..];
    if i < to {
      assert r[i] == rest[i];
    } else if i > to {
      assert r[i] == rest[i - 1];
    }
  }

  /** The move only reorders: the elements are the same, as often. */
  lemma MovedPermutation<T>(s: seq<T>, from: int, to: int)
    requires 0 <= from < |s| && 0 <= to < |s|
    ensures multiset(Moved(s, from, to)) == multiset(s)
  {
    var rest := s[..from] + s[from + 1..];
    assert s == s[..from] + [s[from]] + s[from + 1..];
    assert multiset(s) == multiset(rest) + multiset{s[from]};
    assert rest == rest[..to] + rest[to..];
    assert multiset(rest) == multiset(rest[..to]) + multiset(rest[to..]);
  }

  /** Dragging the element back undoes the move. */
  lemma MovedBack<T>(s: seq<T>, from: int, to: int)
    requires 0 <= from < |s| && 0 <= to < |s|
    ensures Moved(Moved(s, from, to), to, from) == s
  {
    var r := Moved(s, from, to);
    forall i | 0 <= i < |s| ensures Moved(r, to, from)[i] == s[i] {
      MovedAt(r, to, from, i);
      if i == from {
        MovedAt(s, from, to, to);
      } else if to <= i < from {
        MovedAt(s, from, to, i + 1);
      } else if from < i <= to {
        MovedAt(s, from, to, i - 1);
      } else {
        MovedAt(s, from, to, i);
      }
    }
  }

  /** The move keeps the elements, puts the moved one at `to`, and moving it
      back restores the sequence. */
  lemma MovedFacts<T>(s: seq<T>, from: int, to: int)
    requires 0 <= from < |s| && 0 <= to < |s|
    ensures var r := Moved(s, from, to);
      multiset(r) == multiset(s) && r[to] == s[from] && Moved(r, to, from) == s
  {
    MovedPermutation(s, from, to);
    MovedAt(s, from, to, to);
    MovedBack(s, from, to);
  }

  /** The two splices of js/render.js:67-68, in place on an array. */
  method SpliceMove<T>(a: array<T>, from: int, to: int)
    requires 0 <= from < a.Length && 0 <= to < a.Length
    modifies a
    ensures a[..] == Moved(old(a[..]), from, to)
  {
    ghost var s := a[..];
    var moved := a[from];
    if from < to {
      var i := from;
      while i < to
        invariant from <= i <= to
        invariant forall k :: 0 <= k < from ==> a[k] == s[k]
        invariant forall k :: from <= k < i ==> a[k] == s[k + 1]
        invariant forall k :: i <= k < a.Length ==> a[k] == s[k]
      {
        a[i] := a[i + 1];
        i := i + 1;
      }
    } else {
      var i := from;
      while i > to
        invariant to <= i <= from
        invariant forall k :: 0 <= k <= i ==> a[k] == s[k]
        invariant forall k :: i < k <= from ==> a[k] == s[k - 1]
        invariant forall k :: from < k < a.Length ==> a[k] == s[k]
      {
        a[i] := a[i - 1];
        i := i - 1;
      }
    }
    a[to] := moved;
    forall k | 0 <= k < a.Length ensures a[k] == Moved(s, from, to)[k] {
      MovedAt(s, from, to, k);
    }
  }

  /** `parent.insertBefore(children[from], children[ref])`, where `ref == |s|`
      stands for a null reference (append). */
  function InsertBefore<T>(s: seq<T>, from: int, ref: int): (r: seq<T>)
    requires 0 <= from < |s| && 0 <= ref <= |s|
    ensures multiset(r) == multiset(s)
  {
    assert s == s[..from] + [s[from]] + s[from + 1..];
    if from < ref then
      assert s[from + 1..] == s[from + 1..ref] + s[ref..];
      s[..from] + s[from + 1..ref] + [s[from]] + s[ref..]
    else
      assert s[..from] == s[..ref] + s[ref..from];
      s[..ref] + [s[from]] + s[ref..from] + s[from + 1..]
  }

  /** The reference node both drop handlers pick: the target's next sibling
      when dragging downwards, the target itself otherwise. */
  function DropRef(from: int, to: int): int
  {
    if from < to then to + 1 else to
  }

  /** The DOM move of the drop handlers is the splice move. */
  lemma DomMoveIsSplice<T>(s: seq<T>, from: int, to: int)
    requires 0 <= from < |s| && 0 <= to < |s|
    ensures InsertBefore(s, from, DropRef(from, to)) == Moved(s, from, to)
  {
    var rest := s[..from] + s[from + 1..];
    if from < to {
      assert rest[..to] == s[..from] + s[from + 1..to + 1];
      assert rest[to..] == s[to + 1..];
    } else {
      assert rest[..to] == s[..to];
      assert rest[to..] == s[to..from] + s[from + 1..];
    }
  }

  /** The list `enableTaskDrag` saves, or `None` where it returns without
      saving (js/render.js:55, 65). */
  function TaskDropResult(all: seq<Decision>, goalId: string, droppedId: string, targetId: string)
    : Option<seq<Decision>>
  {
    if droppedId == "" || droppedId == targetId then None
    else
      var under := UnderGoal(all, goalId);
      var from := IndexOfId(under, droppedId);
      var to := IndexOfId(under, targetId);
      if from == -1 || to == -1 then None
      else Some(Others(all, goalId) + Moved(under, from, to))
  }

  /** The drop handler of js/render.js:50-73 on the list it loaded. */
  method TaskDrop(all: seq<Decision>, goalId: string, droppedId: string, targetId: string)
    returns (saved: Option<seq<Decision>>)
    ensures saved == TaskDropResult(all, goalId, droppedId, targetId)
  {
    if droppedId == "" || droppedId == targetId {
      return None;
    }
    var under := UnderGoal(all, goalId);
    var others := Others(all, goalId);
    var from := IndexOfId(under, droppedId);
    var to := IndexOfId(under, targetId);
    if from == -1 || to == -1 {
      return None;
    }
    var a := new Decision[|under|](i requires 0 <= i < |under| => under[i]);
    assert a[..] == under;
    SpliceMove(a, from, to);
    saved := Some(others + a[..]);
  }

  /** The drop is refused exactly when an id is empty or equal, or either
      task is not among the goal's incomplete tasks. */
  lemma TaskDropRefused(all: seq<Decision>, goalId: string, droppedId: string, targetId: string)
    ensures TaskDropResult(all, goalId, droppedId, targetId).None? <==>
      droppedId == "" || droppedId == targetId
      || droppedId !in IdSet(UnderGoal(all, goalId))
      || targetId !in IdSet(UnderGoal(all, goalId))
  {
  }

  /** A list of records all passing `p`, then records all failing it. */
  lemma FilterBlocks(a: seq<Decision>, b: seq<Decision>, p: Decision -> bool, q: Decision -> bool)
    requires forall x :: q(x) == !p(x)
    requires forall x :: x in a ==> p(x)
    requires forall x :: x in b ==> q(x)
    ensures Filter(a + b, p) == a && Filter(a + b, q) == b
  {
    FilterConcat(a, b, p);
    FilterConcat(a, b, q);
    FilterKeepsAll(a, p);
    FilterKeepsAll(b, q);
    FilterDropsAll(a, q);
    FilterDropsAll(b, p);
  }

  /** A saved reorder is a permutation of the list. */
  lemma TaskDropPermutation(all: seq<Decision>, goalId: string, droppedId: string, targetId: string)
    requires TaskDropResult(all, goalId, droppedId, targetId).Some?
    ensures multiset(TaskDropResult(all, goalId, droppedId, targetId).value) == multiset(all)
  {
    var under := UnderGoal(all, goalId);
    var m := Moved(under, IndexOfId(under, droppedId), IndexOfId(under, targetId));
    assert TaskDropResult(all, goalId, droppedId, targetId).value == Others(all, goalId) + m;
    MovedPermutation(under, IndexOfId(under, droppedId), IndexOfId(under, targetId));
    UnderGoalOthersSplit(all, goalId);
    assert multiset(Others(all, goalId) + m) == multiset(Others(all, goalId)) + multiset(m);
  }

  /** In a saved reorder the other records keep their order and come first;
      the goal's incomplete tasks follow, with the dropped one at the index
      the target had. */
  lemma TaskDropSaved(all: seq<Decision>, goalId: string, droppedId: string, targetId: string)
    requires TaskDropResult(all, goalId, droppedId, targetId).Some?
    ensures var s := TaskDropResult(all, goalId, droppedId, targetId).value;
      var under := UnderGoal(all, goalId);
      var from := IndexOfId(under, droppedId);
      var to := IndexOfId(under, targetId);
      && Filter(s, OthersOf(goalId)) == Others(all, goalId)
      && Filter(s, UnderGoalOf(goalId)) == Moved(under, from, to)
      && s[|Others(all, goalId)| + to].id == droppedId
  {
    var under := UnderGoal(all, goalId);
    var others := Others(all, goalId);
    var from := IndexOfId(under, droppedId);
    var to := IndexOfId(under, targetId);
    var m := Moved(under, from, to);
    MovedPermutation(under, from, to);
    forall x | x in m ensures UnderGoalOf(goalId)(x) {
      assert x in multiset(under);
    }
    FilterBlocks(others, m, OthersOf(goalId), UnderGoalOf(goalId));
    MovedAt(under, from, to, to);
    assert (others + m)[|others| + to] == m[to];
  }

  function IsNonEmpty(id: string): bool
  {
    id != ""
  }

  /** `[...taskList.children]` after the live handler's `insertBefore`, read
      back as ids (js/render.js:811-826), or `None` where it returns early
      (js/render.js:811, 819). `shown` holds the rendered rows' task ids. */
  function NewTaskOrder(shown: seq<string>, droppedId: string, targetId: string)
    : Option<seq<string>>
  {
    if droppedId == "" || droppedId == targetId then None
    else
      var children := Filter(shown, IsNonEmpty);
      var from := IndexOf(children, droppedId);
      var to := IndexOf(children, targetId);
      if from == -1 || to == -1 then None
      else Some(InsertBefore(children, from, DropRef(from, to)))
  }

  /** The drop is refused exactly when an id is empty, the ids are equal, or
      either id has no row; otherwise the rows' ids are rearranged. */
  lemma NewTaskOrderSpec(shown: seq<string>, droppedId: string, targetId: string)
    ensures var r := NewTaskOrder(shown, droppedId, targetId);
      && (r.None? <==> droppedId == "" || droppedId == targetId
                       || droppedId !in Filter(shown, IsNonEmpty) || targetId !in Filter(shown, IsNonEmpty))
      && (r.Some? ==> multiset(r.value) == multiset(Filter(shown, IsNonEmpty)))
  {
  }

  /** `s.find(t => t.id === id)` */
  function FindById(s: seq<Decision>, id: string): (r: Option<Decision>)
    ensures r.None? <==> forall x :: x in s ==> x.id != id
    ensures r.Some? ==> r.value in s && r.value.id == id
  {
    var i := IndexOfId(s, id);
    if i == -1 then None else Some(s[i])
  }

  /** `find` returns the first record with the id. */
  lemma FindByIdFirst(s: seq<Decision>, id: string, j: int)
    requires 0 <= j < |s| && s[j].id == id
    requires forall k :: 0 <= k < j ==> s[k].id != id
    ensures FindById(s, id) == Some(s[j])
  {
    var i := IndexOfId(s, id);
    assert i != -1 by { assert s[j] in s; }
    assert !(i < j) && !(j < i);
  }

  /** `ids.map(id => s.find(t => t.id === id)).filter(Boolean)` */
  function ResolveIds(ids: seq<string>, s: seq<Decision>): (r: seq<Decision>)
    ensures |r| <= |ids|
    ensures forall x :: x in r ==> x in s && x.id in ids
  {
    if ids == [] then []
    else
      var rest := ResolveIds(ids[1..], s);
      match FindById(s, ids[0])
      case None => rest
      case Some(x) => [x] + rest
  }

  /** The records found follow `ids`: their ids are exactly the ids that name
      a record of `s`, in the order of `ids`. */
  lemma {:induction false} ResolveIdsIds(ids: seq<string>, s: seq<Decision>)
    ensures Ids(ResolveIds(ids, s)) == Filter(ids, KnownIn(s))
  {
    if ids != [] {
      ResolveIdsIds(ids[1..], s);
      var h := match FindById(s, ids[0]) case Some(x) => [x] case None => [];
      IdsConcat(h, ResolveIds(ids[1..], s));
      assert Ids(h) == if KnownIn(s)(ids[0]) then [ids[0]] else [];
    }
  }

  /** In a list with unique ids, every record whose id is named is found. */
  lemma {:induction false} ResolveIdsHas(ids: seq<string>, s: seq<Decision>, x: Decision)
    requires UniqueIds(s) && x in s && x.id in ids
    ensures x in ResolveIds(ids, s)
  {
    if ids[0] == x.id {
      var y := FindById(s, x.id).value;
      UniqueIdsSameRecord(s, x, y);
    } else {
      ResolveIdsHas(ids[1..], s, x);
    }
  }

  /** The live handler as written (js/render.js:829-834): the records named
      by the new DOM order, looked up among the goal's incomplete tasks,
      after all other records. */
  function DomTaskDropAsWritten(all: seq<Decision>, goalId: string, shown: seq<string>,
                                droppedId: string, targetId: string): Option<seq<Decision>>
  {
    match NewTaskOrder(shown, droppedId, targetId)
    case None => None
    case Some(order) => Some(Others(all, goalId) + ResolveIds(order, UnderGoal(all, goalId)))
  }

  /** As written, an incomplete task of the goal that has no row (one hidden
      into the future, which `renderChildren` does not render) is not in the
      saved list: the drop deletes it. */
  lemma AsWrittenLosesUnshownTask(all: seq<Decision>, goalId: string, shown: seq<string>,
                                  droppedId: string, targetId: string, u: Decision)
    requires DomTaskDropAsWritten(all, goalId, shown, droppedId, targetId).Some?
    requires u in UnderGoal(all, goalId) && u.id !in shown
    ensures u !in DomTaskDropAsWritten(all, goalId, shown, droppedId, targetId).value
  {
    var order := NewTaskOrder(shown, droppedId, targetId).value;
    NewTaskOrderIds(shown, droppedId, targetId);
    assert u.id !in order;
    assert forall x :: x in ResolveIds(order, UnderGoal(all, goalId)) ==> x.id in order;
    assert u !in Others(all, goalId);
  }

  /** The new order holds only ids that have a row. */
  lemma NewTaskOrderIds(shown: seq<string>, droppedId: string, targetId: string)
    requires NewTaskOrder(shown, droppedId, targetId).Some?
    ensures forall id :: id in NewTaskOrder(shown, droppedId, targetId).value ==> id in shown
  {
    var children := Filter(shown, IsNonEmpty);
    var from := IndexOf(children, droppedId);
    var to := IndexOf(children, targetId);
    var r := InsertBefore(children, from, DropRef(from, to));
    forall id | id in r ensures id in shown {
      assert id in multiset(r);
    }
  }

  /** One goal "g" with two tasks "a" and "b", and a task "h" hidden until
      time `until`. */
  function LostTaskList(until: int): seq<Decision>
  {
    [ Decision("g", Goal, "Goal", false, None, "", None, 0, ""),
      Decision("a", Task, "A", false, None, "", Some("g"), 0, ""),
      Decision("b", Task, "B", false, None, "", Some("g"), 0, ""),
      Decision("h", Task, "H", false, None, "", Some("g"), until, "") ]
  }

  /** Every record but the goal is a child of "g". */
  lemma LostTaskListChildren(until: int)
    ensures Children(LostTaskList(until), "g") == LostTaskList(until)[1..]
  {
    var all := LostTaskList(until);
    assert all == all[..1] + all[1..];
    FilterConcat(all[..1], all[1..], ChildOf("g"));
    FilterDropsAll(all[..1], ChildOf("g"));
    FilterKeepsAll(all[1..], ChildOf("g"));
  }

  /** Before time `until` task "h" is an incomplete task of "g" without a row. */
  lemma LostTaskHasNoRow(until: int, now: int)
    requires 0 <= now < until
    ensures LostTaskList(until)[3] in UnderGoal(LostTaskList(until), "g")
    ensures LostTaskList(until)[3] !in ActiveTasks(LostTaskList(until), "g", now)
  {
  }

  /** Before time `until` the rows of goal "g" are tasks "a" and "b". */
  lemma LostTaskListRows(until: int, now: int)
    requires 0 <= now < until
    ensures var all := LostTaskList(until);
      ActiveTasks(all, "g", now) == [all[1], all[2]]
  {
    var all := LostTaskList(until);
    var a, b, h := all[1], all[2], all[3];
    LostTaskListChildren(until);
    assert all[1..] == [a, b] + [h];
    FilterConcat([a, b], [h], ActiveAt(now));
    FilterKeepsAll([a, b], ActiveAt(now));
    FilterDropsAll([h], ActiveAt(now));
  }

  /** Dropping row "a" on row "b" moves "a" after "b". */
  lemma NewTaskOrderExample()
    ensures NewTaskOrder(["a", "b"], "a", "b") == Some(["b", "a"])
  {
    var shown: seq<string> := ["a", "b"];
    assert shown[1..] == ["b"];
    assert Filter(shown[1..], IsNonEmpty) == ["b"];
    assert Filter(shown, IsNonEmpty) == shown;
    assert IndexOf(shown, "b") == 1;
    assert InsertBefore(shown, 0, 2) == ["b", "a"];
  }

  /** ... and, at any time before "h" shows again, the drop saves a list
      without task "h". */
  lemma AsWrittenLosesHiddenTaskExample(until: int, now: int)
    requires 0 <= now < until
    ensures var r := DomTaskDropAsWritten(LostTaskList(until), "g", ["a", "b"], "a", "b");
      r.Some? && LostTaskList(until)[3] !in r.value
  {
    var all := LostTaskList(until);
    var shown: seq<string> := ["a", "b"];
    LostTaskHasNoRow(until, now);
    NewTaskOrderExample();
    assert all[3].id !in shown;
    AsWrittenLosesUnshownTask(all, "g", shown, "a", "b", all[3]);
  }

  /** The live handler, corrected: the goal's incomplete tasks that have no
      row keep their place after the reordered ones instead of being lost. */
  function DomTaskDrop(all: seq<Decision>, goalId: string, shown: seq<string>,
                       droppedId: string, targetId: string): Option<seq<Decision>>
  {
    match NewTaskOrder(shown, droppedId, targetId)
    case None => None
    case Some(order) =>
      var under := UnderGoal(all, goalId);
      Some(Others(all, goalId) + ResolveIds(order, under) + Filter(under, NotIn(order)))
  }

  /** With unique ids the corrected drop keeps every record and adds none. */
  lemma DomTaskDropKeepsEveryRecord(all: seq<Decision>, goalId: string, shown: seq<string>,
                                    droppedId: string, targetId: string)
    requires UniqueIds(all)
    requires DomTaskDrop(all, goalId, shown, droppedId, targetId).Some?
    ensures forall x :: x in DomTaskDrop(all, goalId, shown, droppedId, targetId).value <==> x in all
  {
    var order := NewTaskOrder(shown, droppedId, targetId).value;
    var under := UnderGoal(all, goalId);
    FilterUniqueIds(all, UnderGoalOf(goalId));
    UnderGoalOthersSplit(all, goalId);
    forall x | x in all
      ensures x in DomTaskDrop(all, goalId, shown, droppedId, targetId).value
    {
      if x in under && x.id in order {
        ResolveIdsHas(order, under, x);
      }
    }
  }

  /** With unique ids, and one row per task, the corrected drop saves a
      rearrangement of the loaded list: every record exactly once. */
  lemma DomTaskDropPermutation(all: seq<Decision>, goalId: string, shown: seq<string>,
                               droppedId: string, targetId: string)
    requires UniqueIds(all) && Distinct(Filter(shown, IsNonEmpty))
    requires DomTaskDrop(all, goalId, shown, droppedId, targetId).Some?
    ensures multiset(DomTaskDrop(all, goalId, shown, droppedId, targetId).value) == multiset(all)
  {
    var order := NewTaskOrder(shown, droppedId, targetId).value;
    var under := UnderGoal(all, goalId);
    var others := Others(all, goalId);
    var part := ResolveIds(order, under) + Filter(under, NotIn(order));
    DomTaskDropParts(all, goalId, shown, droppedId, targetId);
    NewTaskOrderDistinct(shown, droppedId, targetId);
    FilterUniqueIds(all, UnderGoalOf(goalId));
    GoalPartPermutation(order, under);
    UnderGoalOthersSplit(all, goalId);
    assert multiset(others + part) == multiset(others) + multiset(part);
  }

  /** A saved corrected drop is `others`, the found records and the unnamed
      ones. */
  lemma DomTaskDropParts(all: seq<Decision>, goalId: string, shown: seq<string>,
                         droppedId: string, targetId: string)
    requires DomTaskDrop(all, goalId, shown, droppedId, targetId).Some?
    ensures var order := NewTaskOrder(shown, droppedId, targetId).value;
      var under := UnderGoal(all, goalId);
      DomTaskDrop(all, goalId, shown, droppedId, targetId).value
        == Others(all, goalId) + (ResolveIds(order, under) + Filter(under, NotIn(order)))
  {
  }

  /** One row per task gives an order without repeats. */
  lemma NewTaskOrderDistinct(shown: seq<string>, droppedId: string, targetId: string)
    requires Distinct(Filter(shown, IsNonEmpty))
    requires NewTaskOrder(shown, droppedId, targetId).Some?
    ensures Distinct(NewTaskOrder(shown, droppedId, targetId).value)
  {
    DistinctSub(NewTaskOrder(shown, droppedId, targetId).value, Filter(shown, IsNonEmpty));
  }

  /** The found records followed by the unnamed ones are a rearrangement of
      the goal's records. */
  lemma GoalPartPermutation(order: seq<string>, under: seq<Decision>)
    requires Distinct(order) && UniqueIds(under)
    ensures multiset(ResolveIds(order, under) + Filter(under, NotIn(order))) == multiset(under)
  {
    DistinctGoalPart(order, under);
    SameRecordsAsUnder(order, under);
    UniqueIdsDistinct(under);
    DistinctSameElements(ResolveIds(order, under) + Filter(under, NotIn(order)), under);
  }

  /** Neither the found records nor the unnamed ones repeat, and no record
      is in both. */
  lemma DistinctGoalPart(order: seq<string>, under: seq<Decision>)
    requires Distinct(order) && UniqueIds(under)
    ensures Distinct(ResolveIds(order, under) + Filter(under, NotIn(order)))
  {
    var found := ResolveIds(order, under);
    var rest := Filter(under, NotIn(order));
    FilterSubMultiset(order, KnownIn(under));
    DistinctSub(Filter(order, KnownIn(under)), order);
    ResolveIdsIds(order, under);
    DistinctIdsUnique(found);
    UniqueIdsDistinct(found);
    FilterUniqueIds(under, NotIn(order));
    UniqueIdsDistinct(rest);
    DistinctConcat(found, rest);
  }

  /** The found and the unnamed records are together the goal's records. */
  lemma SameRecordsAsUnder(order: seq<string>, under: seq<Decision>)
    requires UniqueIds(under)
    ensures forall x :: x in ResolveIds(order, under) + Filter(under, NotIn(order)) <==> x in under
  {
    forall x | x in under ensures x in ResolveIds(order, under) + Filter(under, NotIn(order)) {
      if x.id in order {
        ResolveIdsHas(order, under, x);
      }
    }
  }

  /** The new order names every non-empty id that has a row. */
  lemma NewTaskOrderNamesShown(shown: seq<string>, droppedId: string, targetId: string, id: string)
    requires NewTaskOrder(shown, droppedId, targetId).Some?
    requires id in shown && id != ""
    ensures id in NewTaskOrder(shown, droppedId, targetId).value
  {
    var children := Filter(shown, IsNonEmpty);
    var from := IndexOf(children, droppedId);
    var to := IndexOf(children, targetId);
    assert id in children;
    assert id in multiset(InsertBefore(children, from, DropRef(from, to)));
  }

  /** Where every incomplete task of the goal has a row, the correction
      changes nothing. */
  lemma DomTaskDropAgreesWhenAllShown(all: seq<Decision>, goalId: string, shown: seq<string>,
                                      droppedId: string, targetId: string)
    requires forall u :: u in UnderGoal(all, goalId) ==> u.id in shown && u.id != ""
    ensures DomTaskDrop(all, goalId, shown, droppedId, targetId)
         == DomTaskDropAsWritten(all, goalId, shown, droppedId, targetId)
  {
    var r := NewTaskOrder(shown, droppedId, targetId);
    if r.Some? {
      var under := UnderGoal(all, goalId);
      forall u | u in under ensures !NotIn(r.value)(u) {
        NewTaskOrderNamesShown(shown, droppedId, targetId, u.id);
      }
      FilterDropsAll(under, NotIn(r.value));
      var kept := Others(all, goalId) + ResolveIds(r.value, under);
      assert DomTaskDrop(all, goalId, shown, droppedId, targetId) == Some(kept + []);
      assert kept + [] == kept;
    }
  }
}
