/** Which goals the goal view shows and in what order (js/render.js:83-94):
    the top-level goals, ordered by the persisted `goalOrder` list, with ids that
    name no goal dropped and goals the list does not name appended. */
module GoalOrder {
  import opened Records

  /** `i.type === 'goal' && i.id && i.parentGoalId == null`. */
  predicate IsTopGoal(d: Decision)
  {
    d.kind == Goal && d.id != "" && d.parentGoalId == None
  }

  function TopGoals(all: seq<Decision>): seq<Decision>
  {
    Filter(all, IsTopGoal)
  }

  /** `goalMap[id]`, where `goalMap = Object.fromEntries(goals.map(g => [g.id, g]))`:
      when several goals share an id the last one wins. */
  function GoalMapGet(goals: seq<Decision>, id: string): (r: Option<Decision>)
    ensures r.None? <==> forall g :: g in goals ==> g.id != id
    ensures r.Some? ==> r.value.id == id
    ensures r.Some? ==> exists i :: 0 <= i < |goals| && goals[i] == r.value
                          && forall j :: i < j < |goals| ==> goals[j].id != id
  {
    if goals == [] then None
    else if goals[|goals| - 1].id == id then Some(goals[|goals| - 1])
    else
      var r := GoalMapGet(goals[..|goals| - 1], id);
      assert goals == goals[..|goals| - 1] + [goals[|goals| - 1]];
      r
  }

  /** `goalOrder.map(id => goalMap[id]).filter(Boolean)`. */
  function LookupOrder(order: seq<string>, goals: seq<Decision>): seq<Decision>
  {
    if order == [] then []
    else
      (match GoalMapGet(goals, order[0]) case Some(g) => [g] case None => [])
      + LookupOrder(order[1..], goals)
  }

  /** The goal ids the view starts from: the persisted `goalOrder` when it is an
      array, else the goals' own ids in list order (js/render.js:87-89). */
  function EffectiveOrder(stored: Option<seq<string>>, goals: seq<Decision>): seq<string>
  {
    match stored
    case Some(order) => order
    case None => Ids(goals)
  }

  /** The records whose id the order does not name. */
  function NotIn(order: seq<string>): Decision -> bool
  {
    (g: Decision) => g.id !in order
  }

  /** The order ids that name one of `goals`. */
  function KnownIn(goals: seq<Decision>): string -> bool
  {
    (id: string) => id in IdSet(goals)
  }

  function ResolveOrder(goals: seq<Decision>, order: seq<string>): seq<Decision>
  {
    LookupOrder(order, goals) + Filter(goals, NotIn(order))
  }

  /** `sortedGoals` (js/render.js:91-94). */
  function SortedGoals(all: seq<Decision>, stored: Option<seq<string>>): seq<Decision>
  {
    var goals := TopGoals(all);
    ResolveOrder(goals, EffectiveOrder(stored, goals))
  }

  lemma {:induction false} LookupOrderFromGoals(order: seq<string>, goals: seq<Decision>)
    ensures forall g :: g in LookupOrder(order, goals) ==> g in goals
  {
    if order != [] {
      LookupOrderFromGoals(order[1..], goals);
    }
  }

  /** The resolved sequence holds only top-level goals of the list. */
  lemma SortedGoalsAreTopGoals(all: seq<Decision>, stored: Option<seq<string>>)
    ensures forall g :: g in SortedGoals(all, stored) ==> g in all && IsTopGoal(g)
  {
    var goals := TopGoals(all);
    LookupOrderFromGoals(EffectiveOrder(stored, goals), goals);
  }

  /** The goals taken from the persisted order come first and follow it: their
      ids are exactly the order's ids that name a goal, in the order's order. */
  lemma {:induction false} LookupOrderIds(order: seq<string>, goals: seq<Decision>)
    ensures Ids(LookupOrder(order, goals)) == Filter(order, KnownIn(goals))
  {
    if order != [] {
      LookupOrderIds(order[1..], goals);
      var h := match GoalMapGet(goals, order[0]) case Some(g) => [g] case None => [];
      IdsConcat(h, LookupOrder(order[1..], goals));
      assert Ids(h) == if KnownIn(goals)(order[0]) then [order[0]] else [];
    }
  }

  lemma {:induction false} LookupOrderHas(order: seq<string>, goals: seq<Decision>, id: string)
    requires id in order && GoalMapGet(goals, id).Some?
    ensures GoalMapGet(goals, id).value in LookupOrder(order, goals)
  {
    if order[0] != id {
      LookupOrderHas(order[1..], goals, id);
    }
  }

  /** Self-healing: every top-level goal's id appears in the resolved sequence,
      whatever the persisted order holds. */
  lemma NoGoalDropped(all: seq<Decision>, stored: Option<seq<string>>)
    ensures forall g :: g in TopGoals(all) ==> g.id in IdSet(SortedGoals(all, stored))
  {
    var goals := TopGoals(all);
    var order := EffectiveOrder(stored, goals);
    forall g | g in goals ensures g.id in IdSet(SortedGoals(all, stored)) {
      if g.id in order {
        LookupOrderHas(order, goals, g.id);
      } else {
        assert g in Filter(goals, NotIn(order));
      }
    }
  }

  lemma GoalMapGetUnique(goals: seq<Decision>, g: Decision)
    requires UniqueIds(goals) && g in goals
    ensures GoalMapGet(goals, g.id) == Some(g)
  {
    var r := GoalMapGet(goals, g.id);
    var i :| 0 <= i < |goals| && goals[i] == r.value;
    var k :| 0 <= k < |goals| && goals[k] == g;
    assert i == k;
  }

  /** With unique ids, every top-level goal itself is in the resolved sequence. */
  lemma NoGoalDroppedUnique(all: seq<Decision>, stored: Option<seq<string>>)
    requires UniqueIds(TopGoals(all))
    ensures forall g :: g in TopGoals(all) ==> g in SortedGoals(all, stored)
  {
    var goals := TopGoals(all);
    var order := EffectiveOrder(stored, goals);
    forall g | g in goals ensures g in SortedGoals(all, stored) {
      if g.id in order {
        GoalMapGetUnique(goals, g);
        LookupOrderHas(order, goals, g.id);
      } else {
        assert g in Filter(goals, NotIn(order));
      }
    }
  }

  /** When every goal of `part` is what its own id finds, resolving the ids
      of `part` gives `part` back. */
  lemma {:induction false} LookupOwnIds(goals: seq<Decision>, part: seq<Decision>)
    requires forall g :: g in part ==> GoalMapGet(goals, g.id) == Some(g)
    ensures LookupOrder(Ids(part), goals) == part
  {
    if part != [] {
      LookupOwnIds(goals, part[1..]);
      IdsTail(part);
      LookupOrderHead(Ids(part), goals, part[0]);
      SuffixCons(part, 0);
    }
  }

  lemma IdsTail(s: seq<Decision>)
    requires s != []
    ensures Ids(s)[0] == s[0].id && Ids(s)[1..] == Ids(s[1..])
  {
  }

  lemma LookupOrderHead(order: seq<string>, goals: seq<Decision>, g: Decision)
    requires order != [] && GoalMapGet(goals, order[0]) == Some(g)
    ensures LookupOrder(order, goals) == [g] + LookupOrder(order[1..], goals)
  {
  }

  lemma OwnIdsNameAll(goals: seq<Decision>)
    ensures Filter(goals, NotIn(Ids(goals))) == []
  {
    forall g | g in goals ensures !NotIn(Ids(goals))(g) {
      var k :| 0 <= k < |goals| && goals[k] == g;
      assert Ids(goals)[k] == g.id;
    }
    FilterDropsAll(goals, NotIn(Ids(goals)));
  }

  /** With no persisted order (and unique ids) the view keeps list order. */
  lemma NoStoredOrderKeepsListOrder(all: seq<Decision>)
    requires UniqueIds(TopGoals(all))
    ensures SortedGoals(all, None) == TopGoals(all)
  {
    var goals := TopGoals(all);
    forall g | g in goals ensures GoalMapGet(goals, g.id) == Some(g) {
      GoalMapGetUnique(goals, g);
    }
    LookupOwnIds(goals, goals);
    OwnIdsNameAll(goals);
    assert SortedGoals(all, None) == LookupOrder(Ids(goals), goals) + [];
  }
}
