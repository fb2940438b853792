/** Python's `sorted(xs, key=…)`: stable, by tuples compared position by position. */
module Sorting {
  /** A sort key: the tuple's integers, then the code points of a final string. */
  type Key = seq<int>

  predicate LexLe(a: Key, b: Key)
    decreases |a|
  {
    a == [] || (b != [] && (a[0] < b[0] || (a[0] == b[0] && LexLe(a[1..], b[1..]))))
  }

  lemma {:induction false} LexTotal(a: Key, b: Key)
    ensures LexLe(a, b) || LexLe(b, a)
    decreases |a|
  {
    if a != [] && b != [] && a[0] == b[0] {
      LexTotal(a[1..], b[1..]);
    }
  }

  lemma {:induction false} LexTransitive(a: Key, b: Key, c: Key)
    requires LexLe(a, b) && LexLe(b, c)
    ensures LexLe(a, c)
    decreases |a|
  {
    if a != [] && a[0] == b[0] && b[0] == c[0] {
      LexTransitive(a[1..], b[1..], c[1..]);
    }
  }

  lemma {:induction false} LexAntisymmetric(a: Key, b: Key)
    requires LexLe(a, b) && LexLe(b, a)
    ensures a == b
    decreases |a|
  {
    if a != [] {
      LexAntisymmetric(a[1..], b[1..]);
      assert a == [a[0]] + a[1..] && b == [b[0]] + b[1..];
    }
  }

  function Insert<T(!new)>(x: T, sorted: seq<T>, key: T -> Key): seq<T> {
    if sorted == [] || LexLe(key(x), key(sorted[0])) then [x] + sorted
    else [sorted[0]] + Insert(x, sorted[1..], key)
  }

  function Sort<T(!new)>(xs: seq<T>, key: T -> Key): seq<T> {
    if xs == [] then [] else Insert(xs[0], Sort(xs[1..], key), key)
  }

  ghost predicate Ordered<T(!new)>(xs: seq<T>, key: T -> Key) {
    forall i, j :: 0 <= i < j < |xs| ==> LexLe(key(xs[i]), key(xs[j]))
  }

  function Filter<T(!new)>(xs: seq<T>, p: T -> bool): (r: seq<T>)
    ensures forall x :: x in r <==> x in xs && p(x)
  {
    if xs == [] then [] else (if p(xs[0]) then [xs[0]] else []) + Filter(xs[1..], p)
  }

  lemma {:induction false} InsertOrders<T(!new)>(x: T, sorted: seq<T>, key: T -> Key)
    requires Ordered(sorted, key)
    ensures Ordered(Insert(x, sorted, key), key)
    ensures multiset(Insert(x, sorted, key)) == multiset{x} + multiset(sorted)
    decreases |sorted|
  {
    hide LexLe;
    var r := Insert(x, sorted, key);
    if sorted != [] {
      LexTotal(key(x), key(sorted[0]));
      assert sorted == [sorted[0]] + sorted[1..];
      if LexLe(key(x), key(sorted[0])) {
        forall j | 0 < j < |r| ensures LexLe(key(r[0]), key(r[j])) {
          if j > 1 {
            LexTransitive(key(x), key(sorted[0]), key(sorted[j - 1]));
          }
        }
      } else {
        InsertOrders(x, sorted[1..], key);
        var rest := Insert(x, sorted[1..], key);
        forall j | 0 < j < |r| ensures LexLe(key(r[0]), key(r[j])) {
          assert rest[j - 1] in multiset(rest);
          assert rest[j - 1] == x || rest[j - 1] in sorted[1..];
        }
      }
    }
  }

  /** The result is the same elements, in order. */
  lemma {:induction false} SortOrders<T(!new)>(xs: seq<T>, key: T -> Key)
    ensures Ordered(Sort(xs, key), key) && multiset(Sort(xs, key)) == multiset(xs)
    decreases |xs|
  {
    if xs != [] {
      SortOrders(xs[1..], key);
      InsertOrders(xs[0], Sort(xs[1..], key), key);
      assert xs == [xs[0]] + xs[1..];
    }
  }

  lemma {:induction false} InsertFilters<T(!new)>(x: T, sorted: seq<T>, key: T -> Key, p: T -> bool)
    requires Ordered(sorted, key)
    ensures Filter(Insert(x, sorted, key), p) ==
            if p(x) then Insert(x, Filter(sorted, p), key) else Filter(sorted, p)
    decreases |sorted|
  {
    hide LexLe;
    if sorted == [] {
      assert Filter([x], p) == if p(x) then [x] else [];
    } else if LexLe(key(x), key(sorted[0])) {
      assert ([x] + sorted)[1..] == sorted;
      var kept := Filter(sorted, p);
      if kept != [] {
        assert kept[0] in sorted;
        var i :| 0 <= i < |sorted| && sorted[i] == kept[0];
        if i > 0 {
          LexTransitive(key(x), key(sorted[0]), key(sorted[i]));
        }
      }
    } else {
      InsertFilters(x, sorted[1..], key, p);
      var rest := Insert(x, sorted[1..], key);
      assert ([sorted[0]] + rest)[1..] == rest;
      var kept := Filter(sorted, p);
      if p(sorted[0]) {
        assert kept[0] == sorted[0] && kept[1..] == Filter(sorted[1..], p);
        assert Insert(x, kept, key) == [kept[0]] + Insert(x, kept[1..], key);
      } else {
        assert kept == Filter(sorted[1..], p);
      }
    }
  }

  /** Stability: selecting before sorting or after gives the same list. */
  lemma {:induction false} SortFilters<T(!new)>(xs: seq<T>, key: T -> Key, p: T -> bool)
    ensures Filter(Sort(xs, key), p) == Sort(Filter(xs, p), key)
    decreases |xs|
  {
    hide Insert;
    if xs != [] {
      SortFilters(xs[1..], key, p);
      SortOrders(xs[1..], key);
      InsertFilters(xs[0], Sort(xs[1..], key), key, p);
      var kept := Filter(xs, p);
      if p(xs[0]) {
        assert kept[0] == xs[0] && kept[1..] == Filter(xs[1..], p);
        assert Sort(kept, key) == Insert(kept[0], Sort(kept[1..], key), key);
      } else {
        assert kept == Filter(xs[1..], p);
      }
    }
  }

  /** No two different elements share a key. */
  ghost predicate KeysTellApart<T(!new)>(xs: seq<T>, key: T -> Key) {
    forall x, y :: x in xs && y in xs && key(x) == key(y) ==> x == y
  }

  lemma SameFirst<T(!new)>(a: seq<T>, b: seq<T>, key: T -> Key)
    requires Ordered(a, key) && Ordered(b, key) && multiset(a) == multiset(b) && KeysTellApart(a, key)
    requires a != [] && b != []
    ensures a[0] == b[0]
  {
    hide LexLe;
    assert a[0] in multiset(b) && b[0] in multiset(a);
    var i :| 0 <= i < |b| && b[i] == a[0];
    var j :| 0 <= j < |a| && a[j] == b[0];
    if i > 0 && j > 0 {
      LexAntisymmetric(key(a[0]), key(b[0]));
    }
  }

  lemma {:induction false} OrderedIsUnique<T(!new)>(a: seq<T>, b: seq<T>, key: T -> Key)
    requires Ordered(a, key) && Ordered(b, key) && multiset(a) == multiset(b) && KeysTellApart(a, key)
    ensures a == b
    decreases |a|
  {
    hide LexLe;
    assert |a| == |multiset(a)| == |multiset(b)| == |b|;
    if a != [] {
      SameFirst(a, b, key);
      var a', b' := a[1..], b[1..];
      assert a == [a[0]] + a' && b == [b[0]] + b';
      assert multiset(a') == multiset(a) - multiset{a[0]};
      assert multiset(b') == multiset(b) - multiset{b[0]};
      assert Ordered(a', key) && Ordered(b', key);
      assert KeysTellApart(a', key);
      OrderedIsUnique(a', b', key);
    }
  }

  /** Sorting forgets the input order when keys tell elements apart. */
  lemma SortForgetsOrder<T(!new)>(a: seq<T>, b: seq<T>, key: T -> Key)
    requires multiset(a) == multiset(b) && KeysTellApart(a, key)
    ensures Sort(a, key) == Sort(b, key)
  {
    SortOrders(a, key);
    SortOrders(b, key);
    var sa := Sort(a, key);
    forall x | x in sa ensures x in a {
      assert x in multiset(sa);
    }
    OrderedIsUnique(sa, Sort(b, key), key);
  }
}
