/** The flat list of decision records that both js/render.js and js/helpers.js
    work on, with the sequence operations (Array.prototype.filter, findIndex,
    map to ids) every other module uses. */
module Records {

  datatype Option<T> = None | Some(value: T)

  /** The `type` tag of a record. */
  datatype Kind = Goal | Task

  /** One decision record `{id, type, text, completed, dateCompleted, resolution,
      parentGoalId, hiddenUntil, deadline}`.
      - `id`, `text`, `resolution` and `deadline` are strings; the empty string is
        the falsy value the source tests for.
      - `dateCompleted` is a day number; `None` stands for the empty string.
      - `parentGoalId` is `None` for `null` or `undefined`.
      - `hiddenUntil` is the hide time already parsed to epoch milliseconds;
        0 stands for an absent or unparseable value, as the source treats both. */
  datatype Decision = Decision(
    id: string,
    kind: Kind,
    text: string,
    completed: bool,
    dateCompleted: Option<int>,
    resolution: string,
    parentGoalId: Option<string>,
    hiddenUntil: int,
    deadline: string)

  predicate IsCompleted(d: Decision)
  {
    d.completed
  }

  /** `hideUntil && now < hideUntil`: the record is hidden into the future
      (js/render.js:187; the same test negated at js/render.js:537). */
  predicate IsHiddenAt(d: Decision, now: int)
  {
    d.hiddenUntil != 0 && now < d.hiddenUntil
  }

  predicate IsOpen(d: Decision)
  {
    !d.completed
  }

  /** Not completed but hidden into the future: the hidden goals of
      js/render.js:186-189 and the children `renderChildren` gives no row. */
  function HiddenAt(now: int): Decision -> bool
  {
    (d: Decision) => !d.completed && IsHiddenAt(d, now)
  }

  /** Not completed and not hidden into the future: the active goals of
      js/render.js:252-254 and the active tasks of js/render.js:537. */
  function ActiveAt(now: int): Decision -> bool
  {
    (d: Decision) => !d.completed && !IsHiddenAt(d, now)
  }

  /** `s.filter(p)`: the elements of `s` that satisfy `p`, in list order. */
  function Filter<T(!new)>(s: seq<T>, p: T -> bool): (r: seq<T>)
    ensures |r| <= |s|
    ensures forall x :: x in r <==> x in s && p(x)
  {
    if s == [] then [] else (if p(s[0]) then [s[0]] else []) + Filter(s[1..], p)
  }

  lemma {:induction false} FilterConcat<T(!new)>(a: seq<T>, b: seq<T>, p: T -> bool)
    ensures Filter(a + b, p) == Filter(a, p) + Filter(b, p)
  {
    if a == [] {
      assert a + b == b;
    } else {
      assert (a + b)[0] == a[0] && (a + b)[1..] == a[1..] + b;
      FilterConcat(a[1..], b, p);
      var h := if p(a[0]) then [a[0]] else [];
      calc {
        Filter(a + b, p);
        h + Filter(a[1..] + b, p);
        h + (Filter(a[1..], p) + Filter(b, p));
        (h + Filter(a[1..], p)) + Filter(b, p);
      }
    }
  }

  lemma FilterAppend<T(!new)>(s: seq<T>, x: T, p: T -> bool)
    ensures Filter(s + [x], p) == Filter(s, p) + (if p(x) then [x] else [])
  {
    FilterConcat(s, [x], p);
  }

  /** The negation of a predicate. */
  function Not<T>(p: T -> bool): T -> bool
  {
    (x: T) => !p(x)
  }

  lemma {:induction false} FilterSplitNot<T(!new)>(s: seq<T>, p: T -> bool)
    ensures multiset(Filter(s, p)) + multiset(Filter(s, Not(p))) == multiset(s)
  {
    if s != [] {
      var h, t := s[0], s[1..];
      FilterSplitNot(t, p);
      MultisetCons(s);
      var a, b := Filter(t, p), Filter(t, Not(p));
      if p(h) {
        assert Filter(s, p) == [h] + a && Filter(s, Not(p)) == b;
        assert multiset([h] + a) == multiset{h} + multiset(a);
      } else {
        assert Filter(s, p) == a && Filter(s, Not(p)) == [h] + b;
        assert multiset([h] + b) == multiset{h} + multiset(b);
      }
    }
  }

  /** The suffix from `i` is its first element followed by the suffix after it. */
  lemma SuffixCons<T>(s: seq<T>, i: nat)
    requires i < |s|
    ensures s[i..] == [s[i]] + s[i + 1..]
  {
  }

  lemma MultisetCons<T>(s: seq<T>)
    requires s != []
    ensures multiset(s) == multiset{s[0]} + multiset(s[1..])
  {
    assert s == [s[0]] + s[1..];
  }

  /** Filtering by a predicate and by its negation splits the list:
      together the two parts hold every element exactly as often as `s`. */
  lemma FilterSplit<T(!new)>(s: seq<T>, p: T -> bool, q: T -> bool)
    requires forall x :: q(x) == !p(x)
    ensures multiset(Filter(s, p)) + multiset(Filter(s, q)) == multiset(s)
  {
    FilterSplitNot(s, p);
    FilterSame(s, q, Not(p));
  }

  lemma {:induction false} FilterSubMultiset<T(!new)>(s: seq<T>, p: T -> bool)
    ensures multiset(Filter(s, p)) <= multiset(s)
  {
    if s != [] {
      var h, t := s[0], s[1..];
      FilterSubMultiset(t, p);
      assert multiset(s) == multiset{h} + multiset(t) by {
        assert s == [h] + t;
      }
      assert Filter(s, p) == (if p(h) then [h] else []) + Filter(t, p);
    }
  }

  /** Two filters in a row are one filter by the conjunction. */
  lemma {:induction false} FilterFilter<T(!new)>(s: seq<T>, p: T -> bool, q: T -> bool, pq: T -> bool)
    requires forall x :: pq(x) == (p(x) && q(x))
    ensures Filter(Filter(s, p), q) == Filter(s, pq)
  {
    if s != [] {
      FilterFilter(s[1..], p, q, pq);
      FilterConcat(if p(s[0]) then [s[0]] else [], Filter(s[1..], p), q);
    }
  }

  /** Filters by predicates that agree on the elements of `s` are equal. */
  lemma {:induction false} FilterSame<T(!new)>(s: seq<T>, p: T -> bool, q: T -> bool)
    requires forall x :: x in s ==> p(x) == q(x)
    ensures Filter(s, p) == Filter(s, q)
  {
    if s != [] {
      FilterSame(s[1..], p, q);
    }
  }

  lemma {:induction false} FilterKeepsAll<T(!new)>(s: seq<T>, p: T -> bool)
    requires forall x :: x in s ==> p(x)
    ensures Filter(s, p) == s
  {
    if s != [] {
      FilterKeepsAll(s[1..], p);
    }
  }

  lemma FilterDropsAll<T(!new)>(s: seq<T>, p: T -> bool)
    requires forall x :: x in s ==> !p(x)
    ensures Filter(s, p) == []
  {
  }

  /** The ids of a list of records, in list order (`s.map(d => d.id)`). */
  function Ids(s: seq<Decision>): (r: seq<string>)
    ensures |r| == |s|
    ensures forall i :: 0 <= i < |s| ==> r[i] == s[i].id
  {
    seq(|s|, i requires 0 <= i < |s| => s[i].id)
  }

  lemma IdsConcat(a: seq<Decision>, b: seq<Decision>)
    ensures Ids(a + b) == Ids(a) + Ids(b)
  {
    assert |Ids(a + b)| == |Ids(a) + Ids(b)|;
    forall i | 0 <= i < |a + b| ensures Ids(a + b)[i] == (Ids(a) + Ids(b))[i] {
      if i < |a| {
        assert (a + b)[i] == a[i];
      } else {
        assert (a + b)[i] == b[i - |a|];
      }
    }
  }

  /** The set of ids that occur in `s`. */
  function IdSet(s: seq<Decision>): (r: set<string>)
    ensures forall id :: id in r <==> exists x :: x in s && x.id == id
  {
    set x | x in s :: x.id
  }

  lemma IdSetAppend(s: seq<Decision>, x: Decision)
    ensures IdSet(s + [x]) == IdSet(s) + {x.id}
  {
    forall id | id in IdSet(s + [x]) ensures id in IdSet(s) + {x.id} {
      var y :| y in s + [x] && y.id == id;
      assert y in s || y == x;
    }
  }

  /** No element of `s` occurs twice. */
  predicate Distinct<T(==)>(s: seq<T>)
  {
    forall i, j :: 0 <= i < j < |s| ==> s[i] != s[j]
  }

  /** In a sequence without repeats each element occurs once. */
  lemma {:induction false} DistinctCount<T>(s: seq<T>, x: T)
    requires Distinct(s)
    ensures multiset(s)[x] == if x in s then 1 else 0
  {
    if s != [] {
      var t := s[1..];
      assert Distinct(t) by {
        forall i, j | 0 <= i < j < |t| ensures t[i] != t[j] {
          assert t[i] == s[i + 1] && t[j] == s[j + 1];
        }
      }
      assert s[0] !in t by {
        forall k | 0 <= k < |t| ensures t[k] != s[0] {
          assert t[k] == s[k + 1];
        }
      }
      DistinctCount(t, x);
      MultisetCons(s);
      assert x in s <==> x == s[0] || x in t by {
        assert s == [s[0]] + t;
      }
    }
  }

  /** Two equal elements at two positions count twice. */
  lemma PairCount<T>(s: seq<T>, i: int, j: int)
    requires 0 <= i < j < |s|
    ensures s[i] == s[j] ==> multiset(s)[s[j]] >= 2
  {
    assert s == s[..j] + s[j..];
    assert s[..j][i] == s[i];
    assert s[j..][0] == s[j];
    assert multiset(s) == multiset(s[..j]) + multiset(s[j..]);
  }

  lemma DistinctFromCounts<T>(s: seq<T>)
    requires forall x :: multiset(s)[x] <= 1
    ensures Distinct(s)
  {
    forall i, j | 0 <= i < j < |s| ensures s[i] != s[j] {
      PairCount(s, i, j);
    }
  }

  /** A sequence whose elements occur no more often than in one without
      repeats has no repeats. */
  lemma DistinctSub<T>(a: seq<T>, b: seq<T>)
    requires multiset(a) <= multiset(b) && Distinct(b)
    ensures Distinct(a)
  {
    forall x ensures multiset(a)[x] <= 1 {
      DistinctCount(b, x);
    }
    DistinctFromCounts(a);
  }

  /** Two sequences without repeats and with the same elements are
      permutations of each other. */
  lemma DistinctSameElements<T>(a: seq<T>, b: seq<T>)
    requires Distinct(a) && Distinct(b)
    requires forall x :: x in a <==> x in b
    ensures multiset(a) == multiset(b)
  {
    forall x ensures multiset(a)[x] == multiset(b)[x] {
      DistinctCount(a, x);
      DistinctCount(b, x);
    }
  }

  lemma DistinctConcat<T>(a: seq<T>, b: seq<T>)
    requires Distinct(a) && Distinct(b)
    requires forall x :: x in a ==> x !in b
    ensures Distinct(a + b)
  {
    var c := a + b;
    forall i, j | 0 <= i < j < |c| ensures c[i] != c[j] {
      if j < |a| {
        assert c[i] == a[i] && c[j] == a[j];
      } else if |a| <= i {
        assert c[i] == b[i - |a|] && c[j] == b[j - |a|];
      } else {
        assert c[i] == a[i] && c[j] == b[j - |a|];
        assert a[i] in a && b[j - |a|] in b;
      }
    }
  }

  /** No two positions of `s` hold records with the same id. */
  predicate UniqueIds(s: seq<Decision>)
  {
    forall i, j :: 0 <= i < j < |s| ==> s[i].id != s[j].id
  }

  /** Records whose ids do not repeat do not repeat. */
  lemma UniqueIdsDistinct(s: seq<Decision>)
    requires UniqueIds(s)
    ensures Distinct(s)
  {
  }

  /** Ids without repeats are unique ids. */
  lemma DistinctIdsUnique(s: seq<Decision>)
    requires Distinct(Ids(s))
    ensures UniqueIds(s)
  {
    forall i, j | 0 <= i < j < |s| ensures s[i].id != s[j].id {
      assert Ids(s)[i] == s[i].id && Ids(s)[j] == s[j].id;
    }
  }

  /** In a list with unique ids, the id determines the record. */
  lemma UniqueIdsSameRecord(s: seq<Decision>, x: Decision, y: Decision)
    requires UniqueIds(s) && x in s && y in s && x.id == y.id
    ensures x == y
  {
    var i :| 0 <= i < |s| && s[i] == x;
    var j :| 0 <= j < |s| && s[j] == y;
    assert !(i < j) && !(j < i);
  }

  lemma UniqueIdsConcat(a: seq<Decision>, b: seq<Decision>)
    requires UniqueIds(a) && UniqueIds(b)
    requires forall x, y :: x in a && y in b ==> x.id != y.id
    ensures UniqueIds(a + b)
  {
    forall i, j | 0 <= i < j < |a + b| ensures (a + b)[i].id != (a + b)[j].id {
      if j < |a| {
        assert (a + b)[i] == a[i] && (a + b)[j] == a[j];
      } else if i >= |a| {
        assert (a + b)[i] == b[i - |a|] && (a + b)[j] == b[j - |a|];
      } else {
        assert (a + b)[i] == a[i] && (a + b)[j] == b[j - |a|];
      }
    }
  }

  /** Filtering keeps the ids unique. */
  lemma {:induction false} FilterUniqueIds(s: seq<Decision>, p: Decision -> bool)
    requires UniqueIds(s)
    ensures UniqueIds(Filter(s, p))
  {
    if s != [] {
      FilterUniqueIds(s[1..], p);
      var t := Filter(s[1..], p);
      forall x | x in t ensures x.id != s[0].id {
        var j :| 0 <= j < |s[1..]| && s[1..][j] == x;
        assert s[j + 1] == x;
      }
    }
  }

  /** `s.findIndex(x => x === v)`: the first position of `v`, or -1. */
  function IndexOf<T(==)>(s: seq<T>, v: T): (r: int)
    ensures -1 <= r < |s|
    ensures r == -1 <==> v !in s
    ensures 0 <= r ==> s[r] == v && v !in s[..r]
  {
    if s == [] then -1
    else if s[0] == v then 0
    else
      var k := IndexOf(s[1..], v);
      assert s[1..][..if k < 0 then 0 else k] == s[1..if k < 0 then 1 else k + 1];
      if k < 0 then -1 else k + 1
  }

  /** `s.findIndex(d => d.id === id)`. */
  function IndexOfId(s: seq<Decision>, id: string): (r: int)
    ensures -1 <= r < |s|
    ensures r == -1 <==> forall x :: x in s ==> x.id != id
    ensures 0 <= r ==> s[r].id == id && forall j :: 0 <= j < r ==> s[j].id != id
  {
    var r := IndexOf(Ids(s), id);
    assert r == -1 ==> forall x :: x in s ==> x.id != id by {
      if r == -1 {
        forall x | x in s ensures x.id != id {
          var j :| 0 <= j < |s| && s[j] == x;
          assert Ids(s)[j] == x.id;
        }
      }
    }
    assert 0 <= r ==> forall j :: 0 <= j < r ==> s[j].id != id by {
      if 0 <= r {
        forall j | 0 <= j < r ensures s[j].id != id {
          assert Ids(s)[..r][j] == s[j].id;
        }
      }
    }
    r
  }
}
