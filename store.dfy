/** The record store of js/helpers.js:192-245: the in-memory cache
    `decisionsCache` and the user's persisted document with its independent
    `items` and `goalOrder` fields. */
module Store {
  import opened Records

  /** `SAMPLE_DECISIONS` (js/helpers.js:5-163), the list shown to visitors
      who are not signed in. Dates are day numbers; fields the core never
      reads (`recurs`, `scheduled`) are not kept. */
  function SampleDecisions(): seq<Decision>
  {
    [
      Decision("demo-goal", Goal, "Welcome to Goal Oriented", false, None, "", None, 0, ""),
      Decision("demo-task-1", Task, "Explore the demo tasks", false, None, "", Some("demo-goal"), 0, ""),
      Decision("demo-task-2", Task, "Sign up to save your own goals", false, None, "", Some("demo-goal"), 0, ""),
      Decision("demo-task-3", Task, "Try editing and reordering tasks", false, None, "", Some("demo-goal"), 0, ""),
      Decision("demo-goal-2", Goal, "Grow your side project", false, None, "", None, 0, ""),
      Decision("demo-task-2a", Task, "Outline your MVP features", false, None, "", Some("demo-goal-2"), 0, ""),
      Decision("demo-task-2b", Task, "Launch a landing page", true, Some(20259), "", Some("demo-goal-2"), 0, ""),
      Decision("demo-task-2c", Task, "Get your first users", false, None, "", Some("demo-goal-2"), 0, ""),
      Decision("demo-goal-3", Goal, "Completed sample goal", true, Some(20254), "", None, 0, ""),
      Decision("demo-task-3a", Task, "This is done!", true, Some(20253), "", Some("demo-goal-3"), 0, ""),
      Decision("demo-task-3b", Task, "So is this", true, Some(20254), "", Some("demo-goal-3"), 0, ""),
      Decision("demo-goal-4", Goal, "Future conference talk", false, None, "", None, 0, ""),
      Decision("demo-task-4a", Task, "Write an outline", false, None, "", Some("demo-goal-4"), 0, ""),
      Decision("demo-task-4b", Task, "Create slides", false, None, "", Some("demo-goal-4"), 0, ""),
      Decision("daily-task-1", Task, "Review tasks each morning", false, None, "", None, 0, ""),
      Decision("daily-task-2", Task, "Plan your week on Monday", false, None, "", None, 0, ""),
      Decision("daily-task-3", Task, "Share progress on Friday", false, None, "", None, 0, "")
    ]
  }

  /** `items.some(i => i.id && i.text)` */
  predicate HasValidRecord(s: seq<Decision>)
  {
    exists d :: d in s && d.id != "" && d.text != ""
  }

  /** The sample list holds a valid record, so saving it is accepted. */
  lemma SampleIsValid()
    ensures HasValidRecord(SampleDecisions())
    ensures |SampleDecisions()| == 17
  {
    assert SampleDecisions()[0].id != "" && SampleDecisions()[0].text != "";
  }

  /** A JavaScript array of records. The cache and the handlers share it by
      reference, so an in-place edit is seen through the cache. */
  class RecordList {
    var items: seq<Decision>

    constructor(items: seq<Decision>)
      ensures this.items == items
    {
      this.items := items;
    }

    /** `list.push(d)` */
    method Push(d: Decision)
      modifies this
      ensures items == old(items) + [d]
    {
      items := items + [d];
    }

    /** `list[idx] = d` */
    method Set(idx: int, d: Decision)
      requires 0 <= idx < |items|
      modifies this
      ensures items == old(items)[idx := d]
    {
      items := items[idx := d];
    }
  }

  class Store {
    /** Whether `getCurrentUser()` returns a user. */
    var signedIn: bool
    /** `decisionsCache`; `null` until the first load. */
    var cache: RecordList?
    /** The `SAMPLE_DECISIONS` array object. */
    const sample: RecordList
    /** Whether the user's document exists. */
    var docExists: bool
    /** The document's `items`; `None` when missing or not an array. */
    var storedItems: Option<seq<Decision>>
    /** The document's `goalOrder`; `None` when missing. */
    var storedOrder: Option<seq<string>>

    /** A document that does not exist has neither `items` nor `goalOrder`. */
    predicate DocConsistent()
      reads this
    {
      !docExists ==> storedItems.None? && storedOrder.None?
    }

    constructor(signedIn: bool, docExists: bool, storedItems: Option<seq<Decision>>,
                storedOrder: Option<seq<string>>)
      requires !docExists ==> storedItems.None? && storedOrder.None?
      ensures DocConsistent()
      ensures this.signedIn == signedIn && this.docExists == docExists
      ensures this.storedItems == storedItems && this.storedOrder == storedOrder
      ensures cache == null && fresh(sample) && sample.items == SampleDecisions()
    {
      this.signedIn := signedIn;
      this.docExists := docExists;
      this.storedItems := storedItems;
      this.storedOrder := storedOrder;
      cache := null;
      sample := new RecordList(SampleDecisions());
    }

    /** The contents `loadDecisions(force)` returns. */
    function LoadedItems(force: bool): seq<Decision>
      reads this, cache, sample
    {
      if cache != null && !force then cache.items
      else if !signedIn then sample.items
      else match storedItems
        case Some(s) => s
        case None => []
    }

    /** `loadDecisions` (js/helpers.js:198-213): the cached array unless a
        refresh is forced; otherwise the sample array when signed out, else a
        new array read from the document. The result becomes the cache. */
    method Load(force: bool) returns (list: RecordList)
      modifies this
      ensures list.items == old(LoadedItems(force))
      ensures cache == list
      ensures old(cache) != null && !force ==> list == old(cache)
      ensures (old(cache) == null || force) && !signedIn ==> list == sample
      ensures (old(cache) == null || force) && signedIn ==> fresh(list)
      ensures signedIn == old(signedIn) && docExists == old(docExists)
      ensures storedItems == old(storedItems) && storedOrder == old(storedOrder)
      ensures old(DocConsistent()) ==> DocConsistent()
    {
      if cache != null && !force {
        return cache;
      }
      if !signedIn {
        cache := sample;
        return sample;
      }
      var s := match storedItems case Some(s) => s case None => [];
      list := new RecordList(s);
      cache := list;
    }

    /** `saveDecisions` (js/helpers.js:215-232): with a user, an array and a
        valid record, the array is written to `items` (creating the document)
        and becomes the cache; otherwise nothing changes. `null` stands for a
        value that is not an array. */
    method SaveDecisions(items: RecordList?)
      modifies this
      ensures if old(signedIn) && items != null && HasValidRecord(items.items) then
                storedItems == Some(items.items) && cache == items && docExists
              else
                storedItems == old(storedItems) && cache == old(cache) && docExists == old(docExists)
      ensures signedIn == old(signedIn) && storedOrder == old(storedOrder)
      ensures old(DocConsistent()) ==> DocConsistent()
    {
      if !signedIn || items == null {
        return;
      }
      if !HasValidRecord(items.items) {
        return;
      }
      storedItems := Some(items.items);
      docExists := true;
      cache := items;
    }

    /** `saveGoalOrder` (js/helpers.js:234-245): with a user and a non-empty
        array, `goalOrder` is replaced and nothing else; `update` fails when
        the document does not exist, which `rejected` reports. `None` stands
        for a value that is not an array. */
    method SaveGoalOrder(order: Option<seq<string>>) returns (rejected: bool)
      modifies this
      ensures rejected <==> signedIn && order.Some? && |order.value| > 0 && !docExists
      ensures if signedIn && order.Some? && |order.value| > 0 && docExists then
                storedOrder == order
              else storedOrder == old(storedOrder)
      ensures signedIn == old(signedIn) && docExists == old(docExists)
      ensures storedItems == old(storedItems) && cache == old(cache)
      ensures old(DocConsistent()) ==> DocConsistent()
    {
      if !signedIn || order.None? || |order.value| == 0 {
        return false;
      }
      if !docExists {
        return true;
      }
      storedOrder := order;
      return false;
    }
  }
}
