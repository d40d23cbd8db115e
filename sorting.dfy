/** `Array.prototype.sort` with a comparator of the form `(a, b) => key(a) - key(b)`,
    as js/render.js:155 and js/render.js:161-165 use it. Since ES2019 that sort
    is stable, so its result is the unique sorted permutation that keeps records
    with equal keys in their input order; `SortByKey` computes it by insertion. */
module Sorting {
  import opened Records

  /** Keys never decrease along `s`. */
  predicate SortedBy(s: seq<Decision>, key: Decision -> int)
  {
    forall i, j :: 0 <= i < j < |s| ==> key(s[i]) <= key(s[j])
  }

  /** The records whose key is `k`. */
  function KeyIs(key: Decision -> int, k: int): Decision -> bool
  {
    (d: Decision) => key(d) == k
  }

  /** Inserts `x` before the first record whose key is larger, so after the
      records whose key equals its own. */
  function Insert(x: Decision, s: seq<Decision>, key: Decision -> int): (r: seq<Decision>)
    ensures multiset(r) == multiset(s) + multiset{x}
  {
    if s == [] || key(x) <= key(s[0]) then [x] + s
    else
      assert s == [s[0]] + s[1..];
      [s[0]] + Insert(x, s[1..], key)
  }

  lemma {:induction false} InsertSorted(x: Decision, s: seq<Decision>, key: Decision -> int)
    requires SortedBy(s, key)
    ensures SortedBy(Insert(x, s, key), key)
  {
    if s != [] && key(x) > key(s[0]) {
      var rest := Insert(x, s[1..], key);
      InsertSorted(x, s[1..], key);
      forall y | y in rest ensures key(s[0]) <= key(y) {
        assert y in multiset(rest);
        if y != x {
          var j :| 0 <= j < |s[1..]| && s[1..][j] == y;
          assert s[j + 1] == y;
        }
      }
      SortedCons(s[0], rest, key);
    }
  }

  /** A record no larger than any of a sorted sequence can go in front. */
  lemma SortedCons(h: Decision, rest: seq<Decision>, key: Decision -> int)
    requires SortedBy(rest, key)
    requires forall y :: y in rest ==> key(h) <= key(y)
    ensures SortedBy([h] + rest, key)
  {
    var r := [h] + rest;
    forall i, j | 0 <= i < j < |r| ensures key(r[i]) <= key(r[j]) {
      assert r[j] == rest[j - 1];
      if i > 0 {
        assert r[i] == rest[i - 1];
      }
    }
  }

  function SortByKey(s: seq<Decision>, key: Decision -> int): (r: seq<Decision>)
    ensures SortedBy(r, key)
    ensures multiset(r) == multiset(s)
  {
    if s == [] then []
    else
      assert s == [s[0]] + s[1..];
      InsertSorted(s[0], SortByKey(s[1..], key), key);
      Insert(s[0], SortByKey(s[1..], key), key)
  }

  lemma {:induction false} InsertStable(x: Decision, s: seq<Decision>, key: Decision -> int, k: int)
    ensures Filter(Insert(x, s, key), KeyIs(key, k))
         == (if key(x) == k then [x] else []) + Filter(s, KeyIs(key, k))
  {
    var p := KeyIs(key, k);
    if s == [] || key(x) <= key(s[0]) {
      FilterCons(x, s, p);
    } else {
      InsertStable(x, s[1..], key, k);
      FilterConsSwap(Insert(x, s[1..], key), s, p, if key(x) == k then [x] else []);
    }
  }

  /** Putting the head of `t` in front of a sequence whose filtered form is
      `own` followed by the filtered tail of `t` keeps that relation, when
      `own` is empty or the head is dropped. */
  lemma FilterConsSwap<T(!new)>(a: seq<T>, t: seq<T>, p: T -> bool, own: seq<T>)
    requires t != []
    requires Filter(a, p) == own + Filter(t[1..], p)
    requires own == [] || !p(t[0])
    ensures Filter([t[0]] + a, p) == own + Filter(t, p)
  {
    if p(t[0]) {
      assert own == [];
      FilterConsKept(a, t, p);
    } else {
      FilterConsDropped(a, t, p);
    }
  }

  lemma FilterConsKept<T(!new)>(a: seq<T>, t: seq<T>, p: T -> bool)
    requires t != [] && p(t[0])
    requires Filter(a, p) == Filter(t[1..], p)
    ensures Filter([t[0]] + a, p) == Filter(t, p)
  {
    FilterCons(t[0], a, p);
  }

  lemma FilterConsDropped<T(!new)>(a: seq<T>, t: seq<T>, p: T -> bool)
    requires t != [] && !p(t[0])
    ensures Filter([t[0]] + a, p) == Filter(a, p)
    ensures Filter(t, p) == Filter(t[1..], p)
  {
    FilterCons(t[0], a, p);
  }

  /** Filtering a sequence with `y` in front. */
  lemma FilterCons<T(!new)>(y: T, a: seq<T>, p: T -> bool)
    ensures Filter([y] + a, p) == (if p(y) then [y] else []) + Filter(a, p)
  {
    assert ([y] + a)[1..] == a;
  }

  /** Stability: the records with any one key keep their input order. */
  lemma {:induction false} SortStable(s: seq<Decision>, key: Decision -> int, k: int)
    ensures Filter(SortByKey(s, key), KeyIs(key, k)) == Filter(s, KeyIs(key, k))
  {
    if s != [] {
      SortStable(s[1..], key, k);
      InsertStable(s[0], SortByKey(s[1..], key), key, k);
    }
  }

  /** A sorted sequence whose records of each key come in the order of `s` is
      `SortByKey(s, key)`: any stable sort by `key` gives the same result. */
  lemma {:induction false} StableSortUnique(s: seq<Decision>, r: seq<Decision>, key: Decision -> int)
    requires SortedBy(r, key)
    requires forall k :: Filter(r, KeyIs(key, k)) == Filter(s, KeyIs(key, k))
    ensures r == SortByKey(s, key)
  {
    forall k ensures Filter(r, KeyIs(key, k)) == Filter(SortByKey(s, key), KeyIs(key, k)) {
      SortStable(s, key, k);
    }
    SortedEqual(r, SortByKey(s, key), key);
  }

  /** In a sorted sequence the first record has the least key. */
  lemma HeadLeast(a: seq<Decision>, key: Decision -> int, x: Decision)
    requires SortedBy(a, key) && x in a
    ensures key(a[0]) <= key(x)
  {
    var i :| 0 <= i < |a| && a[i] == x;
    assert i == 0 || key(a[0]) <= key(a[i]);
  }

  /** Two sorted sequences that agree on the records of every key start alike. */
  lemma SortedSameHead(a: seq<Decision>, b: seq<Decision>, key: Decision -> int)
    requires SortedBy(a, key) && SortedBy(b, key) && a != [] && b != []
    requires forall k :: Filter(a, KeyIs(key, k)) == Filter(b, KeyIs(key, k))
    ensures a[0] == b[0]
  {
    var k0, k1 := key(a[0]), key(b[0]);
    HeadKeyBound(a, b, key);
    HeadKeyBound(b, a, key);
    assert k0 == k1;
    var p := KeyIs(key, k0);
    FilterHead(a, p);
    FilterHead(b, p);
    assert Filter(a, p) == Filter(b, p);
  }

  /** When `a` is sorted and has the same records of `b[0]`'s key as `b`,
      `a` starts with a key no larger than `b[0]`'s. */
  lemma HeadKeyBound(a: seq<Decision>, b: seq<Decision>, key: Decision -> int)
    requires SortedBy(a, key) && a != [] && b != []
    requires Filter(a, KeyIs(key, key(b[0]))) == Filter(b, KeyIs(key, key(b[0])))
    ensures key(a[0]) <= key(b[0])
  {
    var p := KeyIs(key, key(b[0]));
    FilterHead(b, p);
    assert b[0] in Filter(a, p);
    HeadLeast(a, key, b[0]);
  }

  /** A record that passes the filter and heads the list heads the result. */
  lemma FilterHead(s: seq<Decision>, p: Decision -> bool)
    requires s != [] && p(s[0])
    ensures Filter(s, p) != [] && Filter(s, p)[0] == s[0]
  {
    assert s == [s[0]] + s[1..];
    FilterConcat([s[0]], s[1..], p);
  }

  lemma SameHeadTails(a: seq<Decision>, b: seq<Decision>, p: Decision -> bool)
    requires a != [] && b != [] && a[0] == b[0]
    requires Filter(a, p) == Filter(b, p)
    ensures Filter(a[1..], p) == Filter(b[1..], p)
  {
    var h := if p(a[0]) then [a[0]] else [];
    assert Filter(a, p) == h + Filter(a[1..], p);
    assert Filter(b, p) == h + Filter(b[1..], p);
    assert Filter(a[1..], p) == Filter(a, p)[|h|..];
    assert Filter(b[1..], p) == Filter(b, p)[|h|..];
  }

  lemma NonEmptyHasKey(a: seq<Decision>, key: Decision -> int)
    requires a != []
    ensures Filter(a, KeyIs(key, key(a[0]))) != []
  {
    assert a[0] in Filter(a, KeyIs(key, key(a[0])));
  }

  /** Two sorted sequences that agree on the records of every key are equal. */
  lemma {:induction false} SortedEqual(a: seq<Decision>, b: seq<Decision>, key: Decision -> int)
    requires SortedBy(a, key) && SortedBy(b, key)
    requires forall k :: Filter(a, KeyIs(key, k)) == Filter(b, KeyIs(key, k))
    ensures a == b
    decreases |a|
  {
    if a == [] {
      if b != [] {
        NonEmptyHasKey(b, key);
      }
    } else if b == [] {
      NonEmptyHasKey(a, key);
    } else {
      SortedSameHead(a, b, key);
      forall k ensures Filter(a[1..], KeyIs(key, k)) == Filter(b[1..], KeyIs(key, k)) {
        SameHeadTails(a, b, KeyIs(key, k));
      }
      SortedEqual(a[1..], b[1..], key);
      assert a == [a[0]] + a[1..] && b == [b[0]] + b[1..];
    }
  }
}
