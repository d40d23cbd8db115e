/** The split of the ordered goals into the completed, hidden and active
    sections (js/render.js:153-256): the two sorts, the concatenation
    `finalList`, and the `forEach` loop that places each goal id at most once. */
module Buckets {
  import opened Records
  import opened Sorting
  import opened GoalOrder

  /** `g.completed && g.dateCompleted` (js/render.js:154). */
  predicate IsDatedCompletion(d: Decision)
  {
    d.completed && d.dateCompleted.Some?
  }

  /** Sort key for `(a, b) => new Date(b.dateCompleted) - new Date(a.dateCompleted)`:
      ascending by minus the day is descending by the day. */
  function NewestFirst(d: Decision): int
  {
    match d.dateCompleted
    case Some(day) => -day
    case None => 0
  }

  /** Sort key for `(a, b) => aTime - bTime`, a missing hide time counting as 0. */
  function HideTime(d: Decision): int
  {
    d.hiddenUntil
  }

  /** `completedGoals` (js/render.js:153-155). */
  function CompletedGoals(sorted: seq<Decision>): seq<Decision>
  {
    SortByKey(Filter(sorted, IsDatedCompletion), NewestFirst)
  }

  /** `hiddenAndActiveGoals` after its in-place sort (js/render.js:157-165). */
  function OpenGoals(sorted: seq<Decision>): seq<Decision>
  {
    SortByKey(Filter(sorted, IsOpen), HideTime)
  }

  /** `finalList` (js/render.js:168). */
  function FinalList(sorted: seq<Decision>): seq<Decision>
  {
    CompletedGoals(sorted) + OpenGoals(sorted)
  }

  /** The first record of each id, in list order: what survives the
      `renderedGoalIds` check. */
  function FirstById(s: seq<Decision>): (r: seq<Decision>)
    ensures UniqueIds(r)
    ensures IdSet(r) == IdSet(s)
    ensures forall x :: x in r ==> x in s
  {
    if s == [] then []
    else
      var init, x := FirstById(s[..|s| - 1]), s[|s| - 1];
      assert s == s[..|s| - 1] + [x];
      IdSetAppend(s[..|s| - 1], x);
      IdSetAppend(init, x);
      if x.id in IdSet(s[..|s| - 1]) then init else init + [x]
  }

  /** The same selection read front to back, as the `forEach` does it: a
      record is kept when its id is not among the ids `seen` so far. */
  function FirstFrom(s: seq<Decision>, seen: set<string>): seq<Decision>
  {
    if s == [] then []
    else if s[0].id in seen then FirstFrom(s[1..], seen)
    else [s[0]] + FirstFrom(s[1..], seen + {s[0].id})
  }

  lemma {:induction false} FirstFromAppend(s: seq<Decision>, seen: set<string>, x: Decision)
    ensures FirstFrom(s + [x], seen)
         == FirstFrom(s, seen) + (if x.id in seen + IdSet(s) then [] else [x])
    decreases |s|
  {
    if s == [] {
      assert IdSet(s) == {};
      assert ([x])[1..] == [];
    } else {
      var h := s[0];
      var seen' := if h.id in seen then seen else seen + {h.id};
      assert (s + [x])[0] == h && (s + [x])[1..] == s[1..] + [x];
      FirstFromAppend(s[1..], seen', x);
      assert s == [h] + s[1..];
      IdSetCons(h, s[1..]);
    }
  }

  lemma IdSetCons(h: Decision, t: seq<Decision>)
    ensures IdSet([h] + t) == {h.id} + IdSet(t)
  {
    forall id | id in IdSet([h] + t) ensures id in {h.id} + IdSet(t) {
      var y :| y in [h] + t && y.id == id;
      assert y == h || y in t;
    }
  }

  /** Keeping the first record of each id read from the back is the same as
      the front-to-back `forEach` with its set of placed ids: the result keeps
      list order and each id's first record. */
  lemma {:induction false} FirstByIdIsFirstFrom(s: seq<Decision>)
    ensures FirstById(s) == FirstFrom(s, {})
    decreases |s|
  {
    if s != [] {
      var pre, x := s[..|s| - 1], s[|s| - 1];
      FirstByIdIsFirstFrom(pre);
      assert s == pre + [x];
      FirstFromAppend(pre, {}, x);
      assert {} + IdSet(pre) == IdSet(pre);
    }
  }

  /** The first record with an id is kept. */
  lemma {:induction false} FirstByIdKeepsFirst(s: seq<Decision>, i: int)
    requires 0 <= i < |s| && s[i].id !in IdSet(s[..i])
    ensures s[i] in FirstById(s)
    decreases |s|
  {
    var pre := s[..|s| - 1];
    if i == |s| - 1 {
      assert FirstById(s) == FirstById(pre) + [s[i]];
    } else {
      assert pre[..i] == s[..i] && pre[i] == s[i];
      FirstByIdKeepsFirst(pre, i);
    }
  }

  /** Only the first record of each id is kept. */
  lemma {:induction false} FirstByIdOnlyFirst(s: seq<Decision>, x: Decision)
    requires x in FirstById(s)
    ensures exists i :: 0 <= i < |s| && s[i] == x && x.id !in IdSet(s[..i])
    decreases |s|
  {
    var pre, last := s[..|s| - 1], s[|s| - 1];
    if x in FirstById(pre) {
      FirstByIdOnlyFirst(pre, x);
      var i :| 0 <= i < |pre| && pre[i] == x && x.id !in IdSet(pre[..i]);
      assert s[i] == x && s[..i] == pre[..i];
    } else {
      assert x == last && last.id !in IdSet(pre);
      assert s[|s| - 1] == x && s[..|s| - 1] == pre;
    }
  }

  /** The `finalList.forEach` loop: a goal whose id was already placed is
      skipped; otherwise it goes to the completed, hidden or active section and
      its id joins `renderedGoalIds`. */
  method PlaceGoals(finalList: seq<Decision>, now: int)
    returns (completed: seq<Decision>, hidden: seq<Decision>, active: seq<Decision>)
    ensures completed == Filter(FirstById(finalList), IsCompleted)
    ensures hidden == Filter(FirstById(finalList), HiddenAt(now))
    ensures active == Filter(FirstById(finalList), ActiveAt(now))
  {
    var renderedGoalIds: set<string> := {};
    completed, hidden, active := [], [], [];
    var i := 0;
    while i < |finalList|
      invariant 0 <= i <= |finalList|
      invariant renderedGoalIds == IdSet(finalList[..i])
      invariant completed == Filter(FirstById(finalList[..i]), IsCompleted)
      invariant hidden == Filter(FirstById(finalList[..i]), HiddenAt(now))
      invariant active == Filter(FirstById(finalList[..i]), ActiveAt(now))
    {
      var goal := finalList[i];
      ghost var before := FirstById(finalList[..i]);
      FirstByIdStep(finalList, i);
      if goal.id !in renderedGoalIds {
        FilterAppend(before, goal, IsCompleted);
        FilterAppend(before, goal, HiddenAt(now));
        FilterAppend(before, goal, ActiveAt(now));
        if goal.completed {
          completed := completed + [goal];
        } else if IsHiddenAt(goal, now) {
          hidden := hidden + [goal];
        } else {
          active := active + [goal];
        }
        renderedGoalIds := renderedGoalIds + {goal.id};
      }
      i := i + 1;
    }
    assert finalList[..i] == finalList;
  }

  /** One more record of the list: its id joins the placed ids, and the
      record is kept exactly when its id is new. */
  lemma FirstByIdStep(s: seq<Decision>, i: int)
    requires 0 <= i < |s|
    ensures IdSet(s[..i + 1]) == IdSet(s[..i]) + {s[i].id}
    ensures FirstById(s[..i + 1]) ==
      if s[i].id in IdSet(s[..i]) then FirstById(s[..i]) else FirstById(s[..i]) + [s[i]]
  {
    assert s[..i + 1][..i] == s[..i];
    assert s[..i + 1] == s[..i] + [s[i]];
    IdSetAppend(s[..i], s[i]);
  }

  /** Each goal id is placed at most once, and in at most one section. */
  lemma PlacedAtMostOnce(finalList: seq<Decision>, now: int)
    ensures var placed := FirstById(finalList);
      UniqueIds(Filter(placed, IsCompleted) + Filter(placed, HiddenAt(now)) + Filter(placed, ActiveAt(now)))
  {
    var placed := FirstById(finalList);
    var c, h, a := Filter(placed, IsCompleted), Filter(placed, HiddenAt(now)), Filter(placed, ActiveAt(now));
    FilterUniqueIds(placed, IsCompleted);
    FilterUniqueIds(placed, HiddenAt(now));
    FilterUniqueIds(placed, ActiveAt(now));
    forall x, y | x in c && y in h ensures x.id != y.id {
      if x.id == y.id { UniqueIdsSameRecord(placed, x, y); }
    }
    UniqueIdsConcat(c, h);
    forall x, y | x in c + h && y in a ensures x.id != y.id {
      if x.id == y.id { UniqueIdsSameRecord(placed, x, y); }
    }
    UniqueIdsConcat(c + h, a);
  }

  /** No goal id of `finalList` goes unplaced. */
  lemma EveryIdPlaced(finalList: seq<Decision>, now: int)
    ensures var placed := FirstById(finalList);
      IdSet(Filter(placed, IsCompleted) + Filter(placed, HiddenAt(now)) + Filter(placed, ActiveAt(now)))
        == IdSet(finalList)
  {
    var placed := FirstById(finalList);
    var all := Filter(placed, IsCompleted) + Filter(placed, HiddenAt(now)) + Filter(placed, ActiveAt(now));
    forall id | id in IdSet(finalList) ensures id in IdSet(all) {
      assert id in IdSet(placed);
      var x :| x in placed && x.id == id;
      if x.completed {
        assert x in Filter(placed, IsCompleted);
      } else if IsHiddenAt(x, now) {
        assert x in Filter(placed, HiddenAt(now));
      } else {
        assert x in Filter(placed, ActiveAt(now));
      }
      assert x in all;
    }
    forall id | id in IdSet(all) ensures id in IdSet(finalList) {
      var x :| x in all && x.id == id;
      assert x in placed;
    }
  }

  /** The records of `finalList` are those of `sorted` that are completed with
      a date, or not completed. */
  lemma FinalListMembers(sorted: seq<Decision>)
    ensures forall x :: x in FinalList(sorted) <==> x in sorted && (IsDatedCompletion(x) || IsOpen(x))
  {
    forall x ensures x in CompletedGoals(sorted) <==> x in Filter(sorted, IsDatedCompletion) {
      assert x in CompletedGoals(sorted) <==> x in multiset(CompletedGoals(sorted));
    }
    forall x ensures x in OpenGoals(sorted) <==> x in Filter(sorted, IsOpen) {
      assert x in OpenGoals(sorted) <==> x in multiset(OpenGoals(sorted));
    }
  }

  /** When records of the same id are equal, keeping the first of each id
      keeps every record. */
  lemma FirstByIdKeepsAll(s: seq<Decision>)
    requires forall x, y :: x in s && y in s && x.id == y.id ==> x == y
    ensures forall x :: x in FirstById(s) <==> x in s
  {
    forall x | x in s ensures x in FirstById(s) {
      assert x.id in IdSet(FirstById(s));
      var y :| y in FirstById(s) && y.id == x.id;
    }
  }

  /** With unique goal ids, each top-level goal lands in exactly the section its
      own fields select: completed when completed with a date, hidden when not
      completed and hidden into the future, active when neither. A completed
      goal without `dateCompleted` lands in no section. */
  lemma GoalSection(all: seq<Decision>, stored: Option<seq<string>>, now: int, g: Decision)
    requires UniqueIds(TopGoals(all)) && g in TopGoals(all)
    ensures var placed := FirstById(FinalList(SortedGoals(all, stored)));
      && (g in Filter(placed, IsCompleted) <==> IsDatedCompletion(g))
      && (g in Filter(placed, HiddenAt(now)) <==> !g.completed && IsHiddenAt(g, now))
      && (g in Filter(placed, ActiveAt(now)) <==> !g.completed && !IsHiddenAt(g, now))
  {
    var sorted := SortedGoals(all, stored);
    var fin := FinalList(sorted);
    SortedGoalsAreTopGoals(all, stored);
    NoGoalDroppedUnique(all, stored);
    FinalListMembers(sorted);
    forall x, y | x in fin && y in fin && x.id == y.id ensures x == y {
      UniqueIdsSameRecord(TopGoals(all), x, y);
    }
    FirstByIdKeepsAll(fin);
  }

  /** Restricted to the records satisfying `p`, keys never decrease. */
  predicate SortedAmong(s: seq<Decision>, p: Decision -> bool, key: Decision -> int)
  {
    forall i, j :: 0 <= i < j < |s| && p(s[i]) && p(s[j]) ==> key(s[i]) <= key(s[j])
  }

  lemma {:induction false} FirstByIdSortedAmong(s: seq<Decision>, p: Decision -> bool, key: Decision -> int)
    requires SortedAmong(s, p, key)
    ensures SortedAmong(FirstById(s), p, key)
    decreases |s|
  {
    if s != [] {
      var pre, x := s[..|s| - 1], s[|s| - 1];
      FirstByIdSortedAmong(pre, p, key);
      var init := FirstById(pre);
      if x.id !in IdSet(pre) {
        forall i | 0 <= i < |init| && p(init[i]) && p(x) ensures key(init[i]) <= key(x) {
          assert init[i] in pre;
          var k :| 0 <= k < |pre| && pre[k] == init[i];
          assert s[k] == init[i];
        }
        assert FirstById(s) == init + [x];
      }
    }
  }

  lemma {:induction false} FilterSortedAmong(s: seq<Decision>, p: Decision -> bool, key: Decision -> int)
    requires SortedAmong(s, p, key)
    ensures SortedBy(Filter(s, p), key)
  {
    if s != [] {
      FilterSortedAmong(s[1..], p, key);
      if p(s[0]) {
        forall y | y in Filter(s[1..], p) ensures key(s[0]) <= key(y) {
          var k :| 0 <= k < |s[1..]| && s[1..][k] == y;
          assert s[k + 1] == y;
        }
      }
    }
  }

  lemma CompletedPartOfFinalList(sorted: seq<Decision>)
    ensures forall x :: x in CompletedGoals(sorted) ==> x.completed
    ensures forall x :: x in OpenGoals(sorted) ==> !x.completed
  {
    forall x | x in CompletedGoals(sorted) ensures x.completed {
      assert x in multiset(CompletedGoals(sorted));
      assert x in Filter(sorted, IsDatedCompletion);
    }
    forall x | x in OpenGoals(sorted) ensures !x.completed {
      assert x in multiset(OpenGoals(sorted));
      assert x in Filter(sorted, IsOpen);
    }
  }

  /** Only the records of `o` satisfy `p`, and `o` is sorted. */
  lemma TailSortedAmong(c: seq<Decision>, o: seq<Decision>, p: Decision -> bool, key: Decision -> int)
    requires forall x :: x in c ==> !p(x)
    requires SortedBy(o, key)
    ensures SortedAmong(c + o, p, key)
  {
    var fin := c + o;
    forall i, j | 0 <= i < j < |fin| && p(fin[i]) && p(fin[j])
      ensures key(fin[i]) <= key(fin[j])
    {
      if |c| <= i {
        assert fin[i] == o[i - |c|] && fin[j] == o[j - |c|];
      }
    }
  }

  /** Only the records of `c` satisfy `p`, and `c` is sorted. */
  lemma HeadSortedAmong(c: seq<Decision>, o: seq<Decision>, p: Decision -> bool, key: Decision -> int)
    requires SortedBy(c, key)
    requires forall x :: x in o ==> !p(x)
    ensures SortedAmong(c + o, p, key)
  {
    var fin := c + o;
    forall i, j | 0 <= i < j < |fin| && p(fin[i]) && p(fin[j])
      ensures key(fin[i]) <= key(fin[j])
    {
      if j < |c| {
        assert fin[i] == c[i] && fin[j] == c[j];
      }
    }
  }

  /** Each section comes out in the source's order: completed goals newest
      first, hidden and active goals by hide time, soonest first. */
  lemma SectionsSorted(sorted: seq<Decision>, now: int)
    ensures var placed := FirstById(FinalList(sorted));
      && SortedBy(Filter(placed, IsCompleted), NewestFirst)
      && SortedBy(Filter(placed, HiddenAt(now)), HideTime)
      && SortedBy(Filter(placed, ActiveAt(now)), HideTime)
  {
    var fin := FinalList(sorted);
    CompletedPartOfFinalList(sorted);
    HeadSortedAmong(CompletedGoals(sorted), OpenGoals(sorted), IsCompleted, NewestFirst);
    TailSortedAmong(CompletedGoals(sorted), OpenGoals(sorted), HiddenAt(now), HideTime);
    TailSortedAmong(CompletedGoals(sorted), OpenGoals(sorted), ActiveAt(now), HideTime);
    FirstByIdSortedAmong(fin, IsCompleted, NewestFirst);
    FirstByIdSortedAmong(fin, HiddenAt(now), HideTime);
    FirstByIdSortedAmong(fin, ActiveAt(now), HideTime);
    FilterSortedAmong(FirstById(fin), IsCompleted, NewestFirst);
    FilterSortedAmong(FirstById(fin), HiddenAt(now), HideTime);
    FilterSortedAmong(FirstById(fin), ActiveAt(now), HideTime);
  }
}
