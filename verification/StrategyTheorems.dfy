/** Merging in parts, what merged lists mean, and exact provenance, for all seven strategies. */
module StrategyTheorems {
  import opened Wrappers
  import opened Lists
  import opened Strategies

  // ------------------------------------------------------- joining contribution lists

  lemma {:induction false} JoinedAppend<I>(a: seq<Contribution<I>>, b: seq<Contribution<I>>)
    requires AllLists(a) && AllLists(b)
    ensures AllLists(a + b) && Joined(a + b) == Joined(a) + Joined(b)
    decreases |a|
  {
    if a == [] {
      assert a + b == b;
    } else {
      assert (a + b)[0] == a[0] && (a + b)[1..] == a[1..] + b;
      JoinedAppend(a[1..], b);
    }
  }

  lemma KindsAppend<I>(a: seq<Contribution<I>>, b: seq<Contribution<I>>)
    ensures AllLists(a + b) <==> AllLists(a) && AllLists(b)
    ensures AllNums(a + b) <==> AllNums(a) && AllNums(b)
    ensures AllFlags(a + b) <==> AllFlags(a) && AllFlags(b)
  {
    var ab := a + b;
    assert forall i :: 0 <= i < |a| ==> ab[i] == a[i];
    assert forall i :: 0 <= i < |b| ==> ab[|a| + i] == b[i];
    assert forall i :: |a| <= i < |ab| ==> ab[i] == b[i - |a|];
  }

  // ------------------------------------------------------- regrouping

  /** The two merged parts, as contributions of their own. */
  function Parts<I>(x: Value<I>, sx: SourceRef, y: Value<I>, sy: SourceRef): seq<Contribution<I>> {
    [Contribution(x, sx), Contribution(y, sy)]
  }

  /** Merging a whole, and merging its two merged parts, agree on failure and on the value. */
  ghost predicate Regroups<I, K>(a: seq<Contribution<I>>, b: seq<Contribution<I>>, rule: Rule<I, K>, sa: SourceRef,
                                 sb: SourceRef) {
    var whole, left, right := Merged(a + b, rule), Merged(a, rule), Merged(b, rule);
    && (whole.Ok? <==> left.Ok? && right.Ok?)
    && (whole.Ok? ==>
          var parts := Merged(Parts(left.value.value, sa, right.value.value, sb), rule);
          parts.Ok? && parts.value.value == whole.value.value)
  }

  lemma FlagsRegroup<I, K>(a: seq<Contribution<I>>, b: seq<Contribution<I>>, rule: Rule<I, K>, sa: SourceRef,
                           sb: SourceRef)
    requires a != [] && b != [] && rule.strategy == MostRestrictive
    ensures Regroups(a, b, rule, sa, sb)
  {
    hide Losers, FirstWith;
    KindsAppend(a, b);
    var ab := a + b;
    assert forall i :: 0 <= i < |a| ==> ab[i] == a[i];
    assert forall i :: 0 <= i < |b| ==> ab[|a| + i] == b[i];
    assert forall i :: |a| <= i < |ab| ==> ab[i] == b[i - |a|];
    if AllFlags(a) && AllFlags(b) {
      var parts := Parts(MergedFlags(a).value.value, sa, MergedFlags(b).value.value, sb);
      assert parts[0].value.Flag? && parts[1].value.Flag?;
    }
  }

  lemma {:induction false} ExtremumAppend<I>(a: seq<Contribution<I>>, b: seq<Contribution<I>>, takeMax: bool)
    requires a != [] && b != [] && AllNums(a) && AllNums(b)
    ensures AllNums(a + b) && Extremum(a + b, takeMax) == Better(takeMax, Extremum(a, takeMax), Extremum(b, takeMax))
    decreases |a|
  {
    KindsAppend(a, b);
    assert (a + b)[0] == a[0] && (a + b)[1..] == a[1..] + b;
    if |a| == 1 {
      assert a[1..] + b == b;
    } else {
      ExtremumAppend(a[1..], b, takeMax);
    }
  }

  lemma ExtremumRegroups<I, K>(a: seq<Contribution<I>>, b: seq<Contribution<I>>, rule: Rule<I, K>, sa: SourceRef,
                               sb: SourceRef)
    requires a != [] && b != [] && (rule.strategy == Max || rule.strategy == Min)
    ensures Regroups(a, b, rule, sa, sb)
  {
    hide Losers, FirstWith, Extremum;
    KindsAppend(a, b);
    var takeMax := rule.strategy == Max;
    if AllNums(a) && AllNums(b) {
      ExtremumAppend(a, b, takeMax);
      TwoNums<I>(Extremum(a, takeMax), sa, Extremum(b, takeMax), sb, takeMax);
    }
  }

  lemma TwoNums<I>(x: int, sx: SourceRef, y: int, sy: SourceRef, takeMax: bool)
    ensures var parts := Parts<I>(Num(x), sx, Num(y), sy);
            AllNums(parts) && Extremum(parts, takeMax) == Better(takeMax, x, y)
  {
    var parts := Parts<I>(Num(x), sx, Num(y), sy);
    assert parts[1..] == [parts[1]];
  }

  lemma TwoLists<I>(x: seq<I>, sx: SourceRef, y: seq<I>, sy: SourceRef)
    ensures var parts := Parts(Items(x), sx, Items(y), sy);
            AllLists(parts) && Joined(parts) == x + y
  {
    var parts := Parts(Items(x), sx, Items(y), sy);
    assert parts[1..] == [parts[1]] && parts[1..][1..] == [];
    assert Joined(parts[1..]) == y + [];
  }

  lemma UnionRegroups<I, K>(a: seq<Contribution<I>>, b: seq<Contribution<I>>, rule: Rule<I, K>, sa: SourceRef,
                            sb: SourceRef)
    requires a != [] && b != [] && rule.strategy == Union
    ensures Regroups(a, b, rule, sa, sb)
  {
    hide Joined, DistinctBy;
    KindsAppend(a, b);
    if AllLists(a) && AllLists(b) {
      JoinedAppend(a, b);
      DistinctRegroups(Joined(a), Joined(b), Self);
      TwoLists(Distinct(Joined(a)), sa, Distinct(Joined(b)), sb);
    }
  }

  /** What an intersection keeps. */
  lemma {:induction false} CommonMeans<I>(items: seq<I>, cs: seq<Contribution<I>>)
    requires AllLists(cs)
    ensures forall x :: x in Common(items, cs) <==> x in items && InEvery(cs, x)
    decreases |items|
  {
    if items != [] {
      CommonMeans(items[1..], cs);
      assert items == [items[0]] + items[1..];
    }
  }

  /** Filtering twice is filtering by both. */
  lemma {:induction false} CommonTwice<I>(items: seq<I>, a: seq<Contribution<I>>, b: seq<Contribution<I>>,
                                          both: seq<Contribution<I>>)
    requires AllLists(a) && AllLists(b) && AllLists(both)
    requires forall x :: x in items ==> (InEvery(both, x) <==> InEvery(a, x) && InEvery(b, x))
    ensures Common(Common(items, a), b) == Common(items, both)
    decreases |items|
  {
    hide InEvery;
    if items != [] {
      CommonTwice(items[1..], a, b, both);
      var rest := Common(items[1..], a);
      assert [] + rest == rest && [] + Common(rest, b) == Common(rest, b);
      assert InEvery(a, items[0]) ==> ([items[0]] + rest)[1..] == rest;
    }
  }

  lemma InEveryAppend<I>(a: seq<Contribution<I>>, b: seq<Contribution<I>>, x: I)
    requires AllLists(a) && AllLists(b) && AllLists(a + b)
    ensures InEvery(a + b, x) <==> InEvery(a, x) && InEvery(b, x)
  {
    var ab := a + b;
    assert forall i :: 0 <= i < |a| ==> ab[i] == a[i];
    assert forall i :: 0 <= i < |b| ==> ab[|a| + i] == b[i];
    assert forall i :: |a| <= i < |ab| ==> ab[i] == b[i - |a|];
  }

  lemma InBothParts<I>(x: seq<I>, sx: SourceRef, y: seq<I>, sy: SourceRef, item: I)
    ensures var parts := Parts(Items(x), sx, Items(y), sy);
            AllLists(parts) && (InEvery(parts, item) <==> item in x && item in y)
  {
    var parts := Parts(Items(x), sx, Items(y), sy);
    assert parts[0].value.items == x && parts[1].value.items == y;
  }

  lemma IntersectRegroups<I, K>(a: seq<Contribution<I>>, b: seq<Contribution<I>>, rule: Rule<I, K>, sa: SourceRef,
                                sb: SourceRef)
    requires a != [] && b != [] && rule.strategy == Intersect
    ensures Regroups(a, b, rule, sa, sb)
  {
    KindsAppend(a, b);
    hide Common, InEvery, Shrunk, AllLists;
    if AllLists(a) && AllLists(b) {
      FirstIsList(a);
      FirstIsList(b);
      IntersectValues(a, b, sa, sb);
      assert (a + b)[0] == a[0];
    }
  }

  lemma FirstIsList<I>(a: seq<Contribution<I>>)
    requires a != [] && AllLists(a)
    ensures a[0].value.Items?
  {
  }

  lemma EveryHasFirst<I>(a: seq<Contribution<I>>, x: I)
    requires a != [] && AllLists(a)
    ensures InEvery(a, x) ==> x in a[0].value.items
  {
  }

  lemma IntersectValues<I>(a: seq<Contribution<I>>, b: seq<Contribution<I>>, sa: SourceRef, sb: SourceRef)
    requires a != [] && b != [] && AllLists(a) && AllLists(b) && AllLists(a + b)
    ensures var left, right := Common(a[0].value.items, a), Common(b[0].value.items, b);
            var parts := Parts(Items(left), sa, Items(right), sb);
            AllLists(parts) && Common(left, parts) == Common(a[0].value.items, a + b)
  {
    FirstIsList(a);
    FirstIsList(b);
    var items := a[0].value.items;
    var left, right := Common(items, a), Common(b[0].value.items, b);
    var parts := Parts(Items(left), sa, Items(right), sb);
    TwoLists(left, sa, right, sb);
    hide Common, AllLists, InEvery, Parts, Joined;
    CommonMeans(items, a);
    CommonMeans(b[0].value.items, b);
    forall x | x in items ensures InEvery(a + b, x) <==> InEvery(a, x) && InEvery(parts, x) {
      InBothParts(left, sa, right, sb, x);
      InEveryAppend(a, b, x);
      EveryHasFirst(b, x);
    }
    CommonTwice(items, a, parts, a + b);
  }

  lemma {:induction false} ItemsOfDistinct<I, K>(tagged: seq<Tagged<I>>, entity: I -> Option<K>)
    ensures ItemsOf(DistinctBy(tagged, EntityOf(entity))) == DistinctBy(ItemsOf(tagged), entity)
    decreases |tagged|
  {
    hide DistinctBy, SeenBy;
    var key := EntityOf(entity);
    if tagged == [] {
      DistinctOfNothing<Tagged<I>, Option<K>>(key);
      DistinctOfNothing<I, Option<K>>(entity);
      assert ItemsOf(tagged) == [];
    } else {
      var before, last := tagged[..|tagged| - 1], tagged[|tagged| - 1];
      assert tagged == before + [last] && ItemsOf(tagged) == ItemsOf(before) + [last.item];
      ItemsOfDistinct(before, entity);
      DistinctSnoc(before, last, key);
      DistinctSnoc(ItemsOf(before), last.item, entity);
      SeenItems(before, entity, entity(last.item));
      assert ItemsOf(DistinctBy(before, key) + [last]) == ItemsOf(DistinctBy(before, key)) + [last.item];
    }
  }

  lemma SeenItems<I, K>(tagged: seq<Tagged<I>>, entity: I -> Option<K>, k: Option<K>)
    ensures SeenBy(ItemsOf(tagged), entity, k) <==> SeenBy(tagged, EntityOf(entity), k)
  {
    var items := ItemsOf(tagged);
    assert forall i :: 0 <= i < |items| ==> items[i] == tagged[i].item;
  }

  lemma {:induction false} TaggedAreJoined<I, K>(cs: seq<Contribution<I>>, entity: I -> Option<K>)
    ensures TaggedItems(cs, entity).Ok? <==> AllLists(cs) && AllKeyed(Joined(cs), entity)
    ensures TaggedItems(cs, entity).Ok? ==> ItemsOf(TaggedItems(cs, entity).value) == Joined(cs)
    decreases |cs|
  {
    hide AllKeyed;
    if cs == [] {
      NothingKeyed(entity);
    } else {
      var rest := cs[1..];
      assert cs == [cs[0]] + rest;
      KindsAppend([cs[0]], rest);
      TaggedAreJoined(rest, entity);
      OneList(cs[0]);
      if AllLists(cs) {
        KeyedAppend(cs[0].value.items, Joined(rest), entity);
        if TaggedItems(cs, entity).Ok? {
          var tagged, more := TagAll(cs[0].value.items, cs[0].source), TaggedItems(rest, entity).value;
          assert ItemsOf(tagged + more) == ItemsOf(tagged) + ItemsOf(more);
          assert ItemsOf(tagged) == cs[0].value.items;
        }
      }
    }
  }

  lemma NothingKeyed<I, K>(entity: I -> Option<K>)
    ensures AllKeyed([], entity)
  {
  }

  lemma OneList<I>(c: Contribution<I>)
    ensures AllLists([c]) <==> c.value.Items?
  {
    assert [c][0] == c;
  }

  lemma KeyedAppend<I, K>(a: seq<I>, b: seq<I>, entity: I -> Option<K>)
    ensures AllKeyed(a + b, entity) <==> AllKeyed(a, entity) && AllKeyed(b, entity)
  {
    var ab := a + b;
    assert forall i :: 0 <= i < |a| ==> ab[i] == a[i];
    assert forall i :: 0 <= i < |b| ==> ab[|a| + i] == b[i];
    assert forall i :: |a| <= i < |ab| ==> ab[i] == b[i - |a|];
  }

  /** A merge by key fails on anything but lists of keyed items, and keeps the first item of each entity. */
  lemma ByKeyMeans<I, K>(cs: seq<Contribution<I>>, rule: Rule<I, K>)
    requires cs != [] && rule.strategy == MergeByKey
    ensures Merged(cs, rule).Ok? <==> rule.keyed && AllLists(cs) && AllKeyed(Joined(cs), rule.entity)
    ensures Merged(cs, rule).Ok? ==> Merged(cs, rule).value.value == Items(DistinctBy(Joined(cs), rule.entity))
  {
    hide TaggedItems, AllKeyed, AllLists, DistinctBy, Joined, Displaced;
    TaggedAreJoined(cs, rule.entity);
    if rule.keyed && TaggedItems(cs, rule.entity).Ok? {
      ItemsOfDistinct(TaggedItems(cs, rule.entity).value, rule.entity);
    }
  }

  lemma DistinctStaysKeyed<I, K>(items: seq<I>, entity: I -> Option<K>)
    requires AllKeyed(items, entity)
    ensures AllKeyed(DistinctBy(items, entity), entity)
  {
    hide SeenBy, DistinctBy, FirstIndex;
    DistinctKeepsFirsts(items, entity);
  }

  lemma ByKeyRegroups<I, K>(a: seq<Contribution<I>>, b: seq<Contribution<I>>, rule: Rule<I, K>, sa: SourceRef,
                            sb: SourceRef)
    requires a != [] && b != [] && rule.strategy == MergeByKey
    ensures Regroups(a, b, rule, sa, sb)
  {
    hide Joined, DistinctBy, Merged, AllLists, AllKeyed;
    KindsAppend(a, b);
    ByKeyMeans(a, rule);
    ByKeyMeans(b, rule);
    ByKeyMeans(a + b, rule);
    if AllLists(a) && AllLists(b) {
      JoinedAppend(a, b);
      var ja, jb := Joined(a), Joined(b);
      KeyedAppend(ja, jb, rule.entity);
      if AllKeyed(ja, rule.entity) && AllKeyed(jb, rule.entity) {
        var da, db := DistinctBy(ja, rule.entity), DistinctBy(jb, rule.entity);
        DistinctRegroups(ja, jb, rule.entity);
        TwoLists(da, sa, db, sb);
        DistinctStaysKeyed(ja, rule.entity);
        DistinctStaysKeyed(jb, rule.entity);
        KeyedAppend(da, db, rule.entity);
        ByKeyMeans(Parts(Items(da), sa, Items(db), sb), rule);
      }
    }
  }

  /**
   The regrouping law, for every strategy: cut the contributions anywhere, merge both parts and
   then the two results in order, and the value is the one merged all at once.
   */
  lemma MergingRegroups<I, K>(a: seq<Contribution<I>>, b: seq<Contribution<I>>, rule: Rule<I, K>, sa: SourceRef,
                              sb: SourceRef)
    requires a != [] && b != []
    ensures Regroups(a, b, rule, sa, sb)
  {
    match rule.strategy
    case MostRestrictive => FlagsRegroup(a, b, rule, sa, sb);
    case Max => ExtremumRegroups(a, b, rule, sa, sb);
    case Min => ExtremumRegroups(a, b, rule, sa, sb);
    case Union => UnionRegroups(a, b, rule, sa, sb);
    case Intersect => IntersectRegroups(a, b, rule, sa, sb);
    case MergeByKey => ByKeyRegroups(a, b, rule, sa, sb);
    case HighestRank =>
      hide Losers;
      assert (a + b)[0] == a[0];
  }

  // ------------------------------------------------------- what merged values are

  /** A union lists every item of every list once, in the order they are first seen. */
  lemma UnionMeans<I(!new), K>(cs: seq<Contribution<I>>, rule: Rule<I, K>)
    requires cs != [] && rule.strategy == Union
    ensures Merged(cs, rule).Ok? <==> AllLists(cs)
    ensures Merged(cs, rule).Ok? ==>
              var merged := Merged(cs, rule).value.value;
              && merged.Items?
              && KeepsFirsts(merged.items, Joined(cs), Self)
              && (forall x :: x in merged.items <==> exists i :: 0 <= i < |cs| && x in cs[i].value.items)
  {
    hide Joined, DistinctBy, SeenBy, FirstIndex, KeepsFirsts;
    if AllLists(cs) {
      var merged := Distinct(Joined(cs));
      DistinctKeepsFirsts(Joined(cs), Self);
      forall x ensures x in merged <==> exists i :: 0 <= i < |cs| && x in cs[i].value.items {
        SeenIsElement(merged, x);
        SeenIsElement(Joined(cs), x);
        JoinedHolds(cs, x);
      }
    }
  }

  lemma {:induction false} JoinedHolds<I>(cs: seq<Contribution<I>>, x: I)
    requires AllLists(cs)
    ensures x in Joined(cs) <==> exists i :: 0 <= i < |cs| && x in cs[i].value.items
    decreases |cs|
  {
    if cs != [] {
      JoinedHolds(cs[1..], x);
      if x in Joined(cs[1..]) {
        var i :| 0 <= i < |cs[1..]| && x in cs[1..][i].value.items;
        assert cs[i + 1] == cs[1..][i];
      }
      forall i | 0 < i < |cs| && x in cs[i].value.items ensures x in Joined(cs[1..]) {
        assert cs[1..][i - 1] == cs[i];
      }
    }
  }

  /** Exactly the items of the first list that every list has. */
  ghost predicate KeptBy<I>(items: seq<I>, cs: seq<Contribution<I>>, picks: seq<nat>)
    requires AllLists(cs)
  {
    forall i :: 0 <= i < |items| ==> (i in picks <==> InEvery(cs, items[i]))
  }

  /** An intersection is the first list without the items some list lacks: same order, same repeats. */
  lemma IntersectMeans<I(!new), K>(cs: seq<Contribution<I>>, rule: Rule<I, K>)
    requires cs != [] && rule.strategy == Intersect
    ensures Merged(cs, rule).Ok? <==> AllLists(cs)
    ensures Merged(cs, rule).Ok? ==>
              var merged, first := Merged(cs, rule).value.value, cs[0].value;
              && merged.Items?
              && (forall x :: x in merged.items <==> InEvery(cs, x))
              && exists picks :: PicksFrom(merged.items, first.items, picks) && KeptBy(first.items, cs, picks)
  {
    hide Common, InEvery, Shrunk, PicksFrom, KeptBy;
    if AllLists(cs) {
      var items := cs[0].value.items;
      CommonMeans(items, cs);
      forall x ensures InEvery(cs, x) ==> x in items {
        EveryHasFirst(cs, x);
      }
      var picks := CommonPicks(items, cs);
    }
  }

  lemma {:induction false} CommonPicks<I>(items: seq<I>, cs: seq<Contribution<I>>) returns (picks: seq<nat>)
    requires AllLists(cs)
    ensures PicksFrom(Common(items, cs), items, picks) && KeptBy(items, cs, picks)
    decreases |items|
  {
    hide InEvery;
    if items == [] {
      picks := [];
    } else {
      var before, last := items[..|items| - 1], items[|items| - 1];
      assert items == before + [last];
      picks := CommonPicks(before, cs);
      CommonStep(before, cs, last);
      hide Common, PicksFrom;
      picks := PickNext(Common(before, cs), before, picks, last, InEvery(cs, last));
    }
  }

  // ------------------------------------------------------- provenance

  /** The strategies that name a winner. */
  predicate NamesWinner(s: Strategy) {
    s == MostRestrictive || s == Max || s == Min || s == HighestRank
  }

  /** The first contribution whose value is the result. */
  ghost predicate IsFirstWith<I>(cs: seq<Contribution<I>>, result: Value<I>, i: nat) {
    i < |cs| && cs[i].value == result && forall j :: 0 <= j < i ==> cs[j].value != result
  }

  lemma {:induction false} FirstWithFinds<I>(cs: seq<Contribution<I>>, result: Value<I>) returns (i: nat)
    requires exists k :: 0 <= k < |cs| && cs[k].value == result
    ensures IsFirstWith(cs, result, i) && FirstWith(cs, result) == Some(cs[i].source)
    decreases |cs|
  {
    if cs[0].value == result {
      i := 0;
    } else {
      var k :| 0 <= k < |cs| && cs[k].value == result;
      assert cs[1..][k - 1] == cs[k];
      i := FirstWithFinds(cs[1..], result);
      i := i + 1;
    }
  }

  lemma {:induction false} FirstWithIsNone<I>(cs: seq<Contribution<I>>, result: Value<I>)
    ensures FirstWith(cs, result).None? <==> forall k :: 0 <= k < |cs| ==> cs[k].value != result
    decreases |cs|
  {
    if cs != [] {
      FirstWithIsNone(cs[1..], result);
      assert forall k :: 0 < k < |cs| ==> cs[k] == cs[1..][k - 1];
      assert forall k :: 0 <= k < |cs| - 1 ==> cs[1..][k] == cs[k + 1];
    }
  }

  lemma {:induction false} ExtremumIsAValue<I>(cs: seq<Contribution<I>>, takeMax: bool)
    requires cs != [] && AllNums(cs)
    ensures exists k :: 0 <= k < |cs| && cs[k].value == Num(Extremum(cs, takeMax))
    ensures forall k :: 0 <= k < |cs| ==>
              if takeMax then cs[k].value.n <= Extremum(cs, takeMax) else cs[k].value.n >= Extremum(cs, takeMax)
    decreases |cs|
  {
    if |cs| == 1 {
      assert cs[0].value == Num(Extremum(cs, takeMax));
    } else {
      ExtremumIsAValue(cs[1..], takeMax);
      assert cs[0].value == Num(cs[0].value.n);
      assert forall k :: 0 < k < |cs| ==> cs[k] == cs[1..][k - 1];
      var k :| 0 <= k < |cs[1..]| && cs[1..][k].value == Num(Extremum(cs[1..], takeMax));
      assert cs[k + 1] == cs[1..][k];
    }
  }

  /**
   What the three strategies without lists promise: MAX and MIN are a contributed number that no
   contributed number exceeds or undercuts, and MOST_RESTRICTIVE allows exactly when everybody
   does; anything but numbers or flags is refused.
   */
  lemma ScalarsMean<I, K>(cs: seq<Contribution<I>>, rule: Rule<I, K>)
    requires cs != []
    ensures rule.strategy == Max ==>
              && (Merged(cs, rule).Ok? <==> AllNums(cs))
              && (AllNums(cs) ==>
                    var merged := Merged(cs, rule).value.value;
                    && merged.Num? && (exists i :: 0 <= i < |cs| && cs[i].value == merged)
                    && forall i :: 0 <= i < |cs| ==> cs[i].value.n <= merged.n)
    ensures rule.strategy == Min ==>
              && (Merged(cs, rule).Ok? <==> AllNums(cs))
              && (AllNums(cs) ==>
                    var merged := Merged(cs, rule).value.value;
                    && merged.Num? && (exists i :: 0 <= i < |cs| && cs[i].value == merged)
                    && forall i :: 0 <= i < |cs| ==> cs[i].value.n >= merged.n)
    ensures rule.strategy == MostRestrictive ==>
              && (Merged(cs, rule).Ok? <==> AllFlags(cs))
              && (AllFlags(cs) ==>
                    Merged(cs, rule).value.value == Flag(forall i :: 0 <= i < |cs| ==> cs[i].value == Flag(true)))
  {
    hide Extremum, Losers, FirstWith;
    if rule.strategy == Max && AllNums(cs) {
      ExtremumIsAValue(cs, true);
    } else if rule.strategy == Min && AllNums(cs) {
      ExtremumIsAValue(cs, false);
    }
  }

  lemma FlagsWinner<I>(cs: seq<Contribution<I>>) returns (i: nat)
    requires cs != [] && AllFlags(cs)
    ensures IsFirstWith(cs, MergedFlags(cs).value.value, i) && MergedFlags(cs).value.winner == Some(cs[i].source)
  {
    hide FirstWith, Losers;
    FirstWithIsNone(cs, Flag(false));
    if FirstWith(cs, Flag(false)).None? {
      i := 0;
    } else {
      i := FirstWithFinds(cs, Flag(false));
    }
  }

  /** Whoever is named the winner contributed the result itself, and nobody before did. */
  lemma WinnerIsFirst<I, K>(cs: seq<Contribution<I>>, rule: Rule<I, K>)
    requires Merged(cs, rule).Ok?
    ensures Merged(cs, rule).value.winner.Some? <==> NamesWinner(rule.strategy)
    ensures NamesWinner(rule.strategy) ==>
              exists i: nat :: IsFirstWith(cs, Merged(cs, rule).value.value, i) &&
                     Merged(cs, rule).value.winner == Some(cs[i].source)
  {
    hide Losers, FirstWith, Extremum, Common, Shrunk, Joined, DistinctBy, TaggedItems, Displaced;
    match rule.strategy
    case MostRestrictive =>
      var i := FlagsWinner(cs);
    case Max =>
      ExtremumIsAValue(cs, true);
      var i := FirstWithFinds(cs, Num(Extremum(cs, true)));
    case Min =>
      ExtremumIsAValue(cs, false);
      var i := FirstWithFinds(cs, Num(Extremum(cs, false)));
    case HighestRank =>
      assert IsFirstWith(cs, cs[0].value, 0);
    case Union =>
    case Intersect =>
    case MergeByKey =>
  }

  /** This contribution's own value differs from the result, as the strategy compares them. */
  predicate Differs<I(==)>(s: Strategy, value: Value<I>, result: Value<I>) {
    if s == Intersect && value.Items? && result.Items? then SetOf(value.items) != SetOf(result.items)
      else value != result
  }

  /** Every contribution, as it is recorded when it is overridden. */
  function AsLost<I>(cs: seq<Contribution<I>>): (all: seq<Lost<I>>)
    ensures |all| == |cs|
  {
    seq(|cs|, i requires 0 <= i < |cs| => LostValue(cs[i].value, cs[i].source))
  }

  /** Exactly the contributions whose value differs from the result. */
  ghost predicate DifferingAt<I>(s: Strategy, cs: seq<Contribution<I>>, result: Value<I>, picks: seq<nat>) {
    forall i :: 0 <= i < |cs| ==> (i in picks <==> Differs(s, cs[i].value, result))
  }

  lemma {:induction false} LosersSnoc<I>(cs: seq<Contribution<I>>, c: Contribution<I>, result: Value<I>)
    ensures Losers(cs + [c], result) ==
              Losers(cs, result) + if c.value != result then [LostValue(c.value, c.source)] else []
    decreases |cs|
  {
    if cs == [] {
      assert ([] + [c])[1..] == [];
    } else {
      assert (cs + [c])[1..] == cs[1..] + [c];
      LosersSnoc(cs[1..], c, result);
    }
  }

  /** The contributions recorded, one contribution further. */
  lemma LostSnoc<I>(s: Strategy, cs: seq<Contribution<I>>, c: Contribution<I>, result: Value<I>, lost: seq<Lost<I>>,
                    picks: seq<nat>)
    returns (longer: seq<nat>)
    requires PicksFrom(lost, AsLost(cs), picks) && DifferingAt(s, cs, result, picks)
    ensures var one := if Differs(s, c.value, result) then [LostValue(c.value, c.source)] else [];
            PicksFrom(lost + one, AsLost(cs + [c]), longer) && DifferingAt(s, cs + [c], result, longer)
  {
    hide Differs, PicksFrom;
    var x, all, take := LostValue(c.value, c.source), cs + [c], Differs(s, c.value, result);
    assert AsLost(all) == AsLost(cs) + [x];
    assert all[|cs|] == c && forall i :: 0 <= i < |cs| ==> all[i] == cs[i];
    hide AsLost;
    longer := PickNext(lost, AsLost(cs), picks, x, take);
  }

  lemma {:induction false} LosersPicks<I>(s: Strategy, cs: seq<Contribution<I>>, result: Value<I>)
    returns (picks: seq<nat>)
    requires s != Intersect
    ensures PicksFrom(Losers(cs, result), AsLost(cs), picks) && DifferingAt(s, cs, result, picks)
    decreases |cs|
  {
    if cs == [] {
      picks := [];
    } else {
      var before, last := cs[..|cs| - 1], cs[|cs| - 1];
      assert cs == before + [last];
      picks := LosersPicks(s, before, result);
      LosersSnoc(before, last, result);
      hide Losers, PicksFrom, AsLost, DifferingAt;
      picks := LostSnoc(s, before, last, result, Losers(before, result), picks);
    }
  }

  lemma {:induction false} ShrunkPicks<I>(cs: seq<Contribution<I>>, merged: seq<I>) returns (picks: seq<nat>)
    requires AllLists(cs)
    ensures PicksFrom(Shrunk(cs, merged), AsLost(cs), picks) && DifferingAt(Intersect, cs, Items(merged), picks)
    decreases |cs|
  {
    hide SetOf;
    if cs == [] {
      picks := [];
    } else {
      var before, last := cs[..|cs| - 1], cs[|cs| - 1];
      assert cs == before + [last];
      picks := ShrunkPicks(before, merged);
      ShrunkStep(before, last, merged);
      hide Shrunk, PicksFrom, AsLost, DifferingAt;
      picks := LostSnoc(Intersect, before, last, Items(merged), Shrunk(before, merged), picks);
    }
  }

  /**
   Overridden are exactly the contributions whose value is not the result (for lists, whose items are
   not), in order.
   */
  lemma OverriddenAreTheDiffering<I, K>(cs: seq<Contribution<I>>, rule: Rule<I, K>)
    requires Merged(cs, rule).Ok? && (NamesWinner(rule.strategy) || rule.strategy == Intersect)
    ensures var o := Merged(cs, rule).value;
            exists picks :: PicksFrom(o.overridden, AsLost(cs), picks) && DifferingAt(rule.strategy, cs, o.value, picks)
  {
    hide Losers, FirstWith, Extremum, Common, Shrunk, SetOf, PicksFrom, DifferingAt, AsLost;
    var o := Merged(cs, rule).value;
    if rule.strategy == Intersect {
      var picks := ShrunkPicks(cs, o.value.items);
    } else {
      var picks := LosersPicks(rule.strategy, cs, o.value);
    }
  }

  // ------------------------------------------------------- conflicts

  /** A different item for the same entity came first. */
  ghost predicate IsDisplaced<I, K>(tagged: seq<Tagged<I>>, entity: I -> Option<K>, j: nat) {
    && j < |tagged|
    && SeenBy(tagged, EntityOf(entity), entity(tagged[j].item))
    && tagged[FirstIndex(tagged, EntityOf(entity), entity(tagged[j].item))].item != tagged[j].item
  }

  lemma DisplacedAdd<I, K>(before: seq<Tagged<I>>, entity: I -> Option<K>, last: Tagged<I>)
    ensures forall j :: 0 <= j < |before| ==>
              (IsDisplaced(before + [last], entity, j) <==> IsDisplaced(before, entity, j))
    ensures IsDisplaced(before + [last], entity, |before|) <==>
              SeenBy(before, EntityOf(entity), entity(last.item)) &&
              before[FirstIndex(before, EntityOf(entity), entity(last.item))].item != last.item
  {
    hide FirstIndex;
    var key, all := EntityOf(entity), before + [last];
    assert forall j :: 0 <= j < |before| ==> all[j] == before[j];
    forall j | 0 <= j < |before|
      ensures IsDisplaced(all, entity, j) <==> IsDisplaced(before, entity, j)
    {
      var k := entity(before[j].item);
      assert key(before[j]) == k;
      assert SeenBy(before, key, k);
      SeenSnoc(before, last, key, k);
      FirstIndexSnoc(before, last, key, k);
    }
    var k := entity(last.item);
    SeenSnoc(before, last, key, k);
    FirstIndexSnoc(before, last, key, k);
    assert all[|before|] == last;
  }

  /** Every item, as it is recorded when it is overridden. */
  function ItemsAsLost<I>(tagged: seq<Tagged<I>>): seq<Lost<I>> {
    seq(|tagged|, j requires 0 <= j < |tagged| => LostItem(tagged[j].item, tagged[j].source))
  }

  /** Exactly the items that differ from an earlier one of their entity. */
  ghost predicate DisplacedAt<I, K>(tagged: seq<Tagged<I>>, entity: I -> Option<K>, picks: seq<nat>) {
    forall j :: 0 <= j < |tagged| ==> (j in picks <==> IsDisplaced(tagged, entity, j))
  }

  /** A merge by key overrides exactly the displaced items, in order. */
  lemma DisplacedAre<I, K>(tagged: seq<Tagged<I>>, entity: I -> Option<K>)
    ensures exists picks ::
              PicksFrom(Displaced(tagged, entity), ItemsAsLost(tagged), picks) && DisplacedAt(tagged, entity, picks)
  {
    var picks := DisplacedPicks(tagged, entity);
  }

  lemma {:induction false} DisplacedPicks<I, K>(tagged: seq<Tagged<I>>, entity: I -> Option<K>)
    returns (picks: seq<nat>)
    ensures PicksFrom(Displaced(tagged, entity), ItemsAsLost(tagged), picks) && DisplacedAt(tagged, entity, picks)
    decreases |tagged|
  {
    hide SeenBy, FirstIndex, IsDisplaced;
    if tagged == [] {
      picks := [];
    } else {
      var before, last := tagged[..|tagged| - 1], tagged[|tagged| - 1];
      var x := LostItem(last.item, last.source);
      assert tagged == before + [last] && ItemsAsLost(tagged) == ItemsAsLost(before) + [x];
      picks := DisplacedPicks(before, entity);
      DisplacedAdd(before, entity, last);
      DisplacedSnoc(before, entity, last);
      hide Displaced, PicksFrom;
      picks := PickNext(Displaced(before, entity), ItemsAsLost(before), picks, x,
                        IsDisplaced(tagged, entity, |before|));
    }
  }

  /** Two items describe one entity differently. */
  ghost predicate Disagree<I, K>(items: seq<I>, entity: I -> Option<K>, i: nat, j: nat) {
    i < |items| && j < |items| && entity(items[i]) == entity(items[j]) && items[i] != items[j]
  }

  lemma DisplacedWhenDisagreeing<I, K>(tagged: seq<Tagged<I>>, entity: I -> Option<K>)
    ensures Displaced(tagged, entity) != [] <==> exists i: nat, j: nat :: Disagree(ItemsOf(tagged), entity, i, j)
  {
    var picks := DisplacedPicks(tagged, entity);
    hide Displaced;
    var key, items := EntityOf(entity), ItemsOf(tagged);
    var displaced := Displaced(tagged, entity);
    if displaced != [] {
      var j := picks[0];
      assert j in picks && IsDisplaced(tagged, entity, j);
      assert Disagree(items, entity, FirstIndex(tagged, key, entity(tagged[j].item)), j);
    }
    forall i: nat, j: nat | Disagree(items, entity, i, j) ensures displaced != [] {
      var k := entity(items[i]);
      assert key(tagged[i]) == k && key(tagged[j]) == k;
      assert SeenBy(tagged, key, k);
      assert IsDisplaced(tagged, entity, i) || IsDisplaced(tagged, entity, j);
      var d := if IsDisplaced(tagged, entity, i) then i else j;
      assert d in picks;
    }
  }

  lemma {:induction false} LosersWhenDiffering<I>(cs: seq<Contribution<I>>, result: Value<I>)
    ensures Losers(cs, result) != [] <==> exists i :: 0 <= i < |cs| && cs[i].value != result
    decreases |cs|
  {
    if cs != [] {
      LosersWhenDiffering(cs[1..], result);
      assert forall k :: 0 < k < |cs| ==> cs[k] == cs[1..][k - 1];
      assert forall k :: 0 <= k < |cs| - 1 ==> cs[1..][k] == cs[k + 1];
    }
  }

  /** What an operator is told: a differing value was dropped by a strategy without an order of its own. */
  ghost predicate DroppedArbitrarily<I, K>(cs: seq<Contribution<I>>, rule: Rule<I, K>) {
    match rule.strategy
    case HighestRank => exists i :: 0 <= i < |cs| && cs[i].value != cs[0].value
    case MergeByKey => AllLists(cs) && exists i: nat, j: nat :: Disagree(Joined(cs), rule.entity, i, j)
    case _ => false
  }

  /** A conflict is recorded exactly then; everybody who contributed is listed in order. */
  lemma ConflictIsExact<I(!new), K>(cs: seq<Contribution<I>>, rule: Rule<I, K>)
    requires Merged(cs, rule).Ok?
    ensures Merged(cs, rule).value.conflict <==> DroppedArbitrarily(cs, rule)
    ensures Merged(cs, rule).value.contributors == Sources(cs) && Merged(cs, rule).value.strategy == rule.strategy
  {
    hide Losers, FirstWith, Extremum, Common, Shrunk, Joined, DistinctBy, TaggedItems, Displaced, Disagree;
    match rule.strategy
    case HighestRank => LosersWhenDiffering(cs, cs[0].value);
    case MergeByKey =>
      TaggedAreJoined(cs, rule.entity);
      DisplacedWhenDisagreeing(TaggedItems(cs, rule.entity).value, rule.entity);
    case MostRestrictive =>
    case Max =>
    case Min =>
    case Union =>
    case Intersect =>
  }
}
