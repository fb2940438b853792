/** Keeping the first of each kind: Python's insertion-ordered dictionaries and seen-sets. */
module Lists {
  /** Some element has this key. */
  predicate SeenBy<T, K(==)>(s: seq<T>, key: T -> K, k: K) {
    exists i :: 0 <= i < |s| && key(s[i]) == k
  }

  /** The elements whose key no earlier element has. */
  function DistinctBy<T, K(==)>(s: seq<T>, key: T -> K): seq<T> {
    if s == [] then []
    else
      var before, last := s[..|s| - 1], s[|s| - 1];
      if SeenBy(before, key, key(last)) then DistinctBy(before, key) else DistinctBy(before, key) + [last]
  }

  /** An element as its own key. */
  function Self<T>(x: T): T {
    x
  }

  /** Each element once, where it first occurs. */
  function Distinct<T(==)>(s: seq<T>): seq<T> {
    DistinctBy(s, Self)
  }

  function FirstIndex<T, K(==)>(s: seq<T>, key: T -> K, k: K): (i: nat)
    requires SeenBy(s, key, k)
    ensures i < |s| && key(s[i]) == k
    ensures forall j :: 0 <= j < i ==> key(s[j]) != k
  {
    if key(s[0]) == k then 0
    else
      assert SeenBy(s[1..], key, k) by {
        var i :| 0 <= i < |s| && key(s[i]) == k;
        assert s[1..][i - 1] == s[i];
      }
      1 + FirstIndex(s[1..], key, k)
  }

  lemma SeenSnoc<T, K>(s: seq<T>, x: T, key: T -> K, k: K)
    ensures SeenBy(s + [x], key, k) <==> SeenBy(s, key, k) || key(x) == k
  {
    if SeenBy(s, key, k) {
      var i :| 0 <= i < |s| && key(s[i]) == k;
      assert (s + [x])[i] == s[i];
    }
    assert (s + [x])[|s|] == x;
  }

  lemma SeenAppend<T, K>(a: seq<T>, b: seq<T>, key: T -> K, k: K)
    ensures SeenBy(a + b, key, k) <==> SeenBy(a, key, k) || SeenBy(b, key, k)
  {
    if SeenBy(a, key, k) {
      var i :| 0 <= i < |a| && key(a[i]) == k;
      assert (a + b)[i] == a[i];
    }
    if SeenBy(b, key, k) {
      var i :| 0 <= i < |b| && key(b[i]) == k;
      assert (a + b)[|a| + i] == b[i];
    }
  }

  lemma DistinctSnoc<T, K>(s: seq<T>, x: T, key: T -> K)
    ensures DistinctBy(s + [x], key) == if SeenBy(s, key, key(x)) then DistinctBy(s, key) else DistinctBy(s, key) + [x]
  {
    assert (s + [x])[..|s|] == s;
  }

  /** No key is lost. */
  lemma {:induction false} DistinctSees<T, K>(s: seq<T>, key: T -> K, k: K)
    ensures SeenBy(DistinctBy(s, key), key, k) <==> SeenBy(s, key, k)
    decreases |s|
  {
    hide SeenBy, DistinctBy;
    if s == [] {
      assert DistinctBy(s, key) == [] by { DistinctOfNothing(key); }
    } else {
      var before, last := s[..|s| - 1], s[|s| - 1];
      assert s == before + [last];
      DistinctSees(before, key, k);
      DistinctSnoc(before, last, key);
      SeenSnoc(before, last, key, k);
      SeenSnoc(DistinctBy(before, key), last, key, k);
    }
  }

  lemma DistinctOfNothing<T, K>(key: T -> K)
    ensures DistinctBy([], key) == []
  {
  }

  /** Where the kept elements come from. */
  ghost predicate KeepsFirsts<T, K>(r: seq<T>, s: seq<T>, key: T -> K) {
    && (forall i :: 0 <= i < |r| ==> SeenBy(s, key, key(r[i])) && r[i] == s[FirstIndex(s, key, key(r[i]))])
    && (forall i, j :: 0 <= i < j < |r| ==>
          SeenBy(s, key, key(r[i])) && SeenBy(s, key, key(r[j])) &&
          FirstIndex(s, key, key(r[i])) < FirstIndex(s, key, key(r[j])))
  }

  lemma FirstIndexSnoc<T, K>(s: seq<T>, x: T, key: T -> K, k: K)
    requires SeenBy(s + [x], key, k)
    ensures SeenBy(s, key, k) ==> FirstIndex(s + [x], key, k) == FirstIndex(s, key, k)
    ensures !SeenBy(s, key, k) ==> FirstIndex(s + [x], key, k) == |s|
  {
    var longer := s + [x];
    assert forall j :: 0 <= j < |s| ==> longer[j] == s[j];
    var i := FirstIndex(longer, key, k);
    if SeenBy(s, key, k) {
      var j := FirstIndex(s, key, k);
      assert key(longer[j]) == k;
    }
  }

  /** The first element of each key, in the order the keys first occur, and no key twice. */
  lemma {:induction false} DistinctKeepsFirsts<T, K>(s: seq<T>, key: T -> K)
    ensures KeepsFirsts(DistinctBy(s, key), s, key)
    ensures forall k :: SeenBy(DistinctBy(s, key), key, k) <==> SeenBy(s, key, k)
    decreases |s|
  {
    forall k ensures SeenBy(DistinctBy(s, key), key, k) <==> SeenBy(s, key, k) {
      DistinctSees(s, key, k);
    }
    if s != [] {
      var before, last := s[..|s| - 1], s[|s| - 1];
      assert s == before + [last];
      DistinctKeepsFirsts(before, key);
      FirstsSnoc(DistinctBy(before, key), before, last, key);
    }
  }

  lemma FirstsSnoc<T, K>(r: seq<T>, s: seq<T>, x: T, key: T -> K)
    requires KeepsFirsts(r, s, key)
    ensures KeepsFirsts(r, s + [x], key)
    ensures !SeenBy(s, key, key(x)) ==> KeepsFirsts(r + [x], s + [x], key)
  {
    hide SeenBy, FirstIndex;
    forall i | 0 <= i < |r|
      ensures SeenBy(s + [x], key, key(r[i])) && FirstIndex(s + [x], key, key(r[i])) == FirstIndex(s, key, key(r[i]))
    {
      SeenSnoc(s, x, key, key(r[i]));
      FirstIndexSnoc(s, x, key, key(r[i]));
    }
    SeenSnoc(s, x, key, key(x));
    FirstIndexSnoc(s, x, key, key(x));
  }

  /** No key occurs twice. */
  ghost predicate KeysDiffer<T, K>(s: seq<T>, key: T -> K) {
    forall i, j :: 0 <= i < j < |s| ==> key(s[i]) != key(s[j])
  }

  lemma DistinctDiffers<T, K>(s: seq<T>, key: T -> K)
    ensures KeysDiffer(DistinctBy(s, key), key)
  {
    DistinctKeepsFirsts(s, key);
  }

  lemma {:induction false} DistinctKeepsDistinct<T, K>(s: seq<T>, key: T -> K)
    requires KeysDiffer(s, key)
    ensures DistinctBy(s, key) == s
    decreases |s|
  {
    if s != [] {
      DistinctKeepsDistinct(s[..|s| - 1], key);
      assert s == s[..|s| - 1] + [s[|s| - 1]];
    }
  }

  /** Deduplicating two parts first changes nothing. */
  lemma {:induction false} DistinctRegroups<T, K>(a: seq<T>, b: seq<T>, key: T -> K)
    ensures DistinctBy(DistinctBy(a, key) + DistinctBy(b, key), key) == DistinctBy(a + b, key)
    decreases |b|
  {
    hide SeenBy, DistinctBy;
    var da, db := DistinctBy(a, key), DistinctBy(b, key);
    if b == [] {
      DistinctOfNothing<T, K>(key);
      assert a + b == a && da + db == da;
      DistinctDiffers(a, key);
      DistinctKeepsDistinct(da, key);
    } else {
      var before, last := b[..|b| - 1], b[|b| - 1];
      assert b == before + [last] && a + b == (a + before) + [last];
      var dBefore := DistinctBy(before, key);
      DistinctRegroups(a, before, key);
      DistinctSnoc(before, last, key);
      DistinctSnoc(a + before, last, key);
      DistinctSnoc(da + dBefore, last, key);
      assert da + (dBefore + [last]) == (da + dBefore) + [last];
      SeenAppend(a, before, key, key(last));
      SeenAppend(da, dBefore, key, key(last));
      DistinctSees(a, key, key(last));
      DistinctSees(before, key, key(last));
    }
  }

  lemma SeenIsElement<T>(s: seq<T>, x: T)
    ensures SeenBy(s, Self, x) <==> x in s
  {
  }

  /** `r` is what lies in `s` at these positions, which rise: order and repeats are those of `s`. */
  ghost predicate PicksFrom<T>(r: seq<T>, s: seq<T>, picks: seq<nat>) {
    && |r| == |picks|
    && (forall k :: 0 <= k < |picks| ==> picks[k] < |s| && r[k] == s[picks[k]])
    && (forall j, k :: 0 <= j < k < |picks| ==> picks[j] < picks[k])
  }

  /** One element further, taken or not. */
  lemma PickNext<T>(r: seq<T>, s: seq<T>, picks: seq<nat>, x: T, take: bool) returns (longer: seq<nat>)
    requires PicksFrom(r, s, picks)
    ensures PicksFrom(r + if take then [x] else [], s + [x], longer)
    ensures |s| in longer <==> take
    ensures forall i :: 0 <= i < |s| ==> (i in longer <==> i in picks)
  {
    longer := picks + if take then [|s|] else [];
  }
}
