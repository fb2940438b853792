/** The seven per-field merge strategies over contributions ordered by precedence, with provenance. */
module Strategies {
  import opened Wrappers
  import opened Lists

  datatype Strategy = MostRestrictive | Max | Min | Union | Intersect | MergeByKey | HighestRank

  /** A field's value. The items of all lists of one field have one type, with equality. */
  datatype Value<I> = Flag(b: bool) | Num(n: int) | Text(s: string) | Items(items: seq<I>)

  datatype SourceRef = SourceRef(
    assignmentId: string,
    policyId: string,
    policyName: string,
    policyVersion: int,
    scope: string,
    rank: int)

  datatype Contribution<I> = Contribution(value: Value<I>, source: SourceRef)

  /** What a merge left out: a contribution's whole value, or one item of its list. */
  datatype Lost<I> = LostValue(value: Value<I>, source: SourceRef) | LostItem(item: I, source: SourceRef)

  /**
   How a field composes. `entity` says which entity an item describes; None when the item is not
   a dictionary holding the key.
   */
  datatype Rule<!I, K> = Rule(strategy: Strategy, keyed: bool, entity: I -> Option<K>)

  datatype Outcome<I> = Outcome(
    value: Value<I>,
    strategy: Strategy,
    contributors: seq<SourceRef>,
    winner: Option<SourceRef>,
    overridden: seq<Lost<I>>,
    conflict: bool)

  datatype MergeError = NothingToMerge | NotABool | NotANumber | NotAList | NoKey | KeylessItem

  function Sources<I>(cs: seq<Contribution<I>>): (r: seq<SourceRef>)
    ensures |r| == |cs|
  {
    seq(|cs|, i requires 0 <= i < |cs| => cs[i].source)
  }

  /** `_losers`: the contributions whose value is not the result, in order. */
  function Losers<I(==)>(cs: seq<Contribution<I>>, result: Value<I>): seq<Lost<I>> {
    if cs == [] then []
    else (if cs[0].value != result then [LostValue(cs[0].value, cs[0].source)] else []) + Losers(cs[1..], result)
  }

  /** The source of the first contribution whose value is the result. */
  function FirstWith<I(==)>(cs: seq<Contribution<I>>, result: Value<I>): Option<SourceRef> {
    if cs == [] then None
    else if cs[0].value == result then Some(cs[0].source)
    else FirstWith(cs[1..], result)
  }

  predicate AllFlags<I>(cs: seq<Contribution<I>>) {
    forall i :: 0 <= i < |cs| ==> cs[i].value.Flag?
  }

  predicate AllNums<I>(cs: seq<Contribution<I>>) {
    forall i :: 0 <= i < |cs| ==> cs[i].value.Num?
  }

  predicate AllLists<I>(cs: seq<Contribution<I>>) {
    forall i :: 0 <= i < |cs| ==> cs[i].value.Items?
  }

  // ------------------------------------------------------------------ single-winner strategies

  /** A single False denies. The winner is the first denier, else the first contribution. */
  function MergedFlags<I(==)>(cs: seq<Contribution<I>>): Result<Outcome<I>, MergeError>
    requires cs != []
  {
    if !AllFlags(cs) then Err(NotABool)
    else
      var allowed := forall i :: 0 <= i < |cs| ==> cs[i].value.b;
      var denier := FirstWith(cs, Flag(false));
      Ok(Outcome(Flag(allowed), MostRestrictive, Sources(cs),
                 Some(if denier.Some? then denier.value else cs[0].source), Losers(cs, Flag(allowed)), false))
  }

  function Better(takeMax: bool, a: int, b: int): int {
    if takeMax then (if a >= b then a else b) else (if a <= b then a else b)
  }

  /** `max` or `min` of the values. */
  function Extremum<I>(cs: seq<Contribution<I>>, takeMax: bool): int
    requires cs != [] && AllNums(cs)
  {
    if |cs| == 1 then cs[0].value.n
    else Better(takeMax, cs[0].value.n, Extremum(cs[1..], takeMax))
  }

  function MergedExtremum<I(==)>(cs: seq<Contribution<I>>, takeMax: bool): Result<Outcome<I>, MergeError>
    requires cs != []
  {
    if !AllNums(cs) then Err(NotANumber)
    else
      var value := Num(Extremum(cs, takeMax));
      Ok(Outcome(value, if takeMax then Max else Min, Sources(cs), FirstWith(cs, value), Losers(cs, value), false))
  }

  function MergedRank<I(==)>(cs: seq<Contribution<I>>): Outcome<I>
    requires cs != []
  {
    var losers := Losers(cs, cs[0].value);
    Outcome(cs[0].value, HighestRank, Sources(cs), Some(cs[0].source), losers, losers != [])
  }

  // ------------------------------------------------------------------ union

  function Joined<I>(cs: seq<Contribution<I>>): seq<I>
    requires AllLists(cs)
  {
    if cs == [] then [] else cs[0].value.items + Joined(cs[1..])
  }

  function MergedUnion<I(==)>(cs: seq<Contribution<I>>): Result<Outcome<I>, MergeError> {
    if !AllLists(cs) then Err(NotAList)
    else Ok(Outcome(Items(Distinct(Joined(cs))), Union, Sources(cs), None, [], false))
  }

  lemma {:induction false} JoinedSnoc<I>(cs: seq<Contribution<I>>, c: Contribution<I>)
    requires AllLists(cs) && c.value.Items?
    ensures AllLists(cs + [c]) && Joined(cs + [c]) == Joined(cs) + c.value.items
    decreases |cs|
  {
    if cs == [] {
      assert ([] + [c])[1..] == [];
    } else {
      assert (cs + [c])[1..] == cs[1..] + [c];
      JoinedSnoc(cs[1..], c);
    }
  }

  /** One contribution's items, added to what has been merged. */
  method AddItems<I(==)>(merged: seq<I>, seen: set<I>, items: seq<I>, ghost before: seq<I>)
    returns (merged': seq<I>, seen': set<I>)
    requires merged == Distinct(before) && forall x :: x in seen <==> x in before
    ensures merged' == Distinct(before + items) && forall x :: x in seen' <==> x in before + items
  {
    hide DistinctBy, SeenBy;
    merged', seen' := merged, seen;
    assert before + items[..0] == before;
    for j := 0 to |items|
      invariant merged' == Distinct(before + items[..j])
      invariant forall x :: x in seen' <==> x in before + items[..j]
    {
      ghost var done := before + items[..j];
      assert before + items[..j + 1] == done + [items[j]];
      SeenIsElement(done, items[j]);
      DistinctSnoc(done, items[j], Self);
      if items[j] !in seen' {
        seen' := seen' + {items[j]};
        merged' := merged' + [items[j]];
      }
    }
    assert items[..|items|] == items;
  }

  /** `_merge_union` */
  method MergeUnion<I(==)>(cs: seq<Contribution<I>>) returns (r: Result<Outcome<I>, MergeError>)
    ensures r == MergedUnion(cs)
  {
    hide Distinct, Joined;
    var merged: seq<I> := [];
    var seen: set<I> := {};
    assert Joined(cs[..0]) == [] && merged == Distinct(Joined(cs[..0])) by {
      NothingJoined(cs[..0]);
    }
    for i := 0 to |cs|
      invariant AllLists(cs[..i])
      invariant merged == Distinct(Joined(cs[..i]))
      invariant forall x :: x in seen <==> x in Joined(cs[..i])
    {
      if !cs[i].value.Items? {
        return Err(NotAList);
      }
      assert cs[..i + 1] == cs[..i] + [cs[i]];
      JoinedSnoc(cs[..i], cs[i]);
      merged, seen := AddItems(merged, seen, cs[i].value.items, Joined(cs[..i]));
    }
    assert cs[..|cs|] == cs;
    return Ok(Outcome(Items(merged), Union, Sources(cs), None, [], false));
  }

  lemma NothingJoined<I>(cs: seq<Contribution<I>>)
    requires cs == []
    ensures AllLists(cs) && Joined(cs) == [] && Distinct(Joined(cs)) == []
  {
  }

  // ------------------------------------------------------------------ intersection

  predicate InEvery<I(==)>(cs: seq<Contribution<I>>, item: I)
    requires AllLists(cs)
  {
    forall i :: 0 <= i < |cs| ==> item in cs[i].value.items
  }

  /** The items of a list that every contribution has, repeats kept. */
  function Common<I(==)>(items: seq<I>, cs: seq<Contribution<I>>): seq<I>
    requires AllLists(cs)
  {
    if items == [] then []
    else (if InEvery(cs, items[0]) then [items[0]] else []) + Common(items[1..], cs)
  }

  function SetOf<I(==)>(items: seq<I>): set<I> {
    set x | x in items
  }

  /** The contributions whose set of items is not the merged one, in order. */
  function Shrunk<I(==)>(cs: seq<Contribution<I>>, merged: seq<I>): seq<Lost<I>>
    requires AllLists(cs)
  {
    if cs == [] then []
    else
      (if SetOf(cs[0].value.items) != SetOf(merged) then [LostValue(cs[0].value, cs[0].source)] else [])
      + Shrunk(cs[1..], merged)
  }

  function MergedIntersect<I(==)>(cs: seq<Contribution<I>>): Result<Outcome<I>, MergeError>
    requires cs != []
  {
    if !AllLists(cs) then Err(NotAList)
    else
      var merged := Common(cs[0].value.items, cs);
      Ok(Outcome(Items(merged), Intersect, Sources(cs), None, Shrunk(cs, merged), false))
  }

  lemma CommonStep<I>(items: seq<I>, cs: seq<Contribution<I>>, x: I)
    requires AllLists(cs)
    ensures Common(items + [x], cs) == Common(items, cs) + if InEvery(cs, x) then [x] else []
    decreases |items|
  {
    hide InEvery;
    if items == [] {
      assert ([] + [x])[1..] == [];
    } else {
      assert (items + [x])[1..] == items[1..] + [x];
      CommonStep(items[1..], cs, x);
    }
  }

  lemma ShrunkStep<I>(cs: seq<Contribution<I>>, c: Contribution<I>, merged: seq<I>)
    requires AllLists(cs) && c.value.Items?
    ensures AllLists(cs + [c])
    ensures Shrunk(cs + [c], merged) ==
            Shrunk(cs, merged) + if SetOf(c.value.items) != SetOf(merged) then [LostValue(c.value, c.source)] else []
    decreases |cs|
  {
    hide SetOf;
    if cs == [] {
      assert ([] + [c])[1..] == [];
    } else {
      assert (cs + [c])[1..] == cs[1..] + [c];
      ShrunkStep(cs[1..], c, merged);
    }
  }

  /** `_merge_intersect` */
  method MergeIntersect<I(==)>(cs: seq<Contribution<I>>) returns (r: Result<Outcome<I>, MergeError>)
    requires cs != []
    ensures r == MergedIntersect(cs)
  {
    hide Common, Shrunk;
    if !cs[0].value.Items? {
      return Err(NotAList);
    }
    var common := SetOf(cs[0].value.items);
    for i := 1 to |cs|
      invariant AllLists(cs[..i])
      invariant forall x :: x in common <==> InEvery(cs[..i], x)
    {
      if !cs[i].value.Items? {
        return Err(NotAList);
      }
      common := common * SetOf(cs[i].value.items);
    }
    assert cs[..|cs|] == cs;
    var ordered := cs[0].value.items;
    var merged: seq<I> := [];
    assert Common(ordered[..0], cs) == [] by { NothingCommon(ordered[..0], cs); }
    for j := 0 to |ordered|
      invariant merged == Common(ordered[..j], cs)
    {
      assert ordered[..j + 1] == ordered[..j] + [ordered[j]];
      CommonStep(ordered[..j], cs, ordered[j]);
      if ordered[j] in common {
        merged := merged + [ordered[j]];
      }
    }
    assert ordered[..|ordered|] == ordered;
    var dropped := DropShrunk(cs, merged);
    return Ok(Outcome(Items(merged), Intersect, Sources(cs), None, dropped, false));
  }

  lemma NothingCommon<I>(items: seq<I>, cs: seq<Contribution<I>>)
    requires items == [] && AllLists(cs)
    ensures Common(items, cs) == []
  {
  }

  method DropShrunk<I(==)>(cs: seq<Contribution<I>>, merged: seq<I>) returns (dropped: seq<Lost<I>>)
    requires AllLists(cs)
    ensures dropped == Shrunk(cs, merged)
  {
    dropped := [];
    for i := 0 to |cs|
      invariant dropped == Shrunk(cs[..i], merged)
    {
      assert cs[..i + 1] == cs[..i] + [cs[i]];
      ShrunkStep(cs[..i], cs[i], merged);
      if SetOf(cs[i].value.items) != SetOf(merged) {
        dropped := dropped + [LostValue(cs[i].value, cs[i].source)];
      }
    }
    assert cs[..|cs|] == cs;
  }

  // ------------------------------------------------------------------ by key

  /** An item with the source of the list it came from. */
  datatype Tagged<I> = Tagged(item: I, source: SourceRef)

  function TagAll<I>(items: seq<I>, source: SourceRef): (r: seq<Tagged<I>>)
    ensures |r| == |items|
  {
    seq(|items|, i requires 0 <= i < |items| => Tagged(items[i], source))
  }

  predicate AllKeyed<I, K(==)>(items: seq<I>, entity: I -> Option<K>) {
    forall i :: 0 <= i < |items| ==> entity(items[i]).Some?
  }

  /** Every item in precedence order, or the first thing wrong. */
  function TaggedItems<I, K(==)>(cs: seq<Contribution<I>>, entity: I -> Option<K>): Result<seq<Tagged<I>>, MergeError> {
    if cs == [] then Ok([])
    else if !cs[0].value.Items? then Err(NotAList)
    else if !AllKeyed(cs[0].value.items, entity) then Err(KeylessItem)
    else
      var rest :- TaggedItems(cs[1..], entity);
      Ok(TagAll(cs[0].value.items, cs[0].source) + rest)
  }

  function EntityOf<I, K>(entity: I -> Option<K>): Tagged<I> -> Option<K> {
    (t: Tagged<I>) => entity(t.item)
  }

  /** The items that lost to an earlier, different item for the same entity. */
  function Displaced<I(==), K(==)>(tagged: seq<Tagged<I>>, entity: I -> Option<K>): seq<Lost<I>> {
    if tagged == [] then []
    else
      var before, last := tagged[..|tagged| - 1], tagged[|tagged| - 1];
      Displaced(before, entity) +
      if SeenBy(before, EntityOf(entity), entity(last.item)) &&
         before[FirstIndex(before, EntityOf(entity), entity(last.item))].item != last.item
      then [LostItem(last.item, last.source)] else []
  }

  function ItemsOf<I>(tagged: seq<Tagged<I>>): (r: seq<I>)
    ensures |r| == |tagged|
  {
    seq(|tagged|, i requires 0 <= i < |tagged| => tagged[i].item)
  }

  function MergedByKey<I(==), K(==)>(cs: seq<Contribution<I>>, rule: Rule<I, K>): Result<Outcome<I>, MergeError> {
    if !rule.keyed then Err(NoKey)
    else
      var tagged :- TaggedItems(cs, rule.entity);
      var displaced := Displaced(tagged, rule.entity);
      Ok(Outcome(Items(ItemsOf(DistinctBy(tagged, EntityOf(rule.entity)))), MergeByKey, Sources(cs), None, displaced,
                 displaced != []))
  }

  /** A dictionary and its keys in insertion order hold the first item of each entity. */
  ghost predicate HoldsFirsts<I, K(!new)>(done: seq<Tagged<I>>, entity: I -> Option<K>, order: seq<K>,
                                          merged: map<K, I>) {
    var key := EntityOf(entity);
    var firsts := DistinctBy(done, key);
    && |order| == |firsts|
    && (forall i :: 0 <= i < |order| ==>
        order[i] in merged && Some(order[i]) == entity(firsts[i].item) && merged[order[i]] == firsts[i].item)
    && (forall k :: k in merged <==> SeenBy(done, key, Some(k)))
    && (forall k :: k in merged && SeenBy(done, key, Some(k)) ==>
        merged[k] == done[FirstIndex(done, key, Some(k))].item)
  }

  lemma FirstsAdd<I, K(!new)>(done: seq<Tagged<I>>, entity: I -> Option<K>, order: seq<K>, merged: map<K, I>,
                              t: Tagged<I>)
    requires HoldsFirsts(done, entity, order, merged) && entity(t.item).Some?
    ensures var k := entity(t.item).value;
            && (k in merged ==> HoldsFirsts(done + [t], entity, order, merged))
            && (k !in merged ==> HoldsFirsts(done + [t], entity, order + [k], merged[k := t.item]))
  {
    hide SeenBy, DistinctBy, FirstIndex;
    var k, key := entity(t.item).value, EntityOf(entity);
    DistinctSnoc(done, t, key);
    forall k' ensures SeenBy(done + [t], key, Some(k')) <==> SeenBy(done, key, Some(k')) || k' == k {
      SeenSnoc(done, t, key, Some(k'));
    }
    forall k' | SeenBy(done + [t], key, Some(k'))
      ensures FirstIndex(done + [t], key, Some(k')) ==
              if SeenBy(done, key, Some(k')) then FirstIndex(done, key, Some(k')) else |done|
    {
      FirstIndexSnoc(done, t, key, Some(k'));
    }
    assert forall i :: 0 <= i < |done| ==> (done + [t])[i] == done[i];
  }

  lemma DisplacedSnoc<I, K>(done: seq<Tagged<I>>, entity: I -> Option<K>, t: Tagged<I>)
    ensures Displaced(done + [t], entity) ==
            Displaced(done, entity) +
            if SeenBy(done, EntityOf(entity), entity(t.item)) &&
               done[FirstIndex(done, EntityOf(entity), entity(t.item))].item != t.item
            then [LostItem(t.item, t.source)] else []
  {
    assert (done + [t])[..|done|] == done;
  }

  /** One contribution's items; stops at an item without the key. */
  method AddKeyed<I(==), K(==,!new)>(order: seq<K>, merged: map<K, I>, overridden: seq<Lost<I>>, conflict: bool,
                                     items: seq<I>, source: SourceRef, entity: I -> Option<K>,
                                       ghost done: seq<Tagged<I>>)
    returns (ok: bool, order': seq<K>, merged': map<K, I>, overridden': seq<Lost<I>>, conflict': bool)
    requires HoldsFirsts(done, entity, order, merged)
    requires overridden == Displaced(done, entity) && conflict == (overridden != [])
    ensures ok == AllKeyed(items, entity)
    ensures ok ==> HoldsFirsts(done + TagAll(items, source), entity, order', merged')
    ensures ok ==> overridden' == Displaced(done + TagAll(items, source), entity)
    ensures conflict' == (overridden' != [])
  {
    hide HoldsFirsts, Displaced, SeenBy, FirstIndex;
    order', merged', overridden', conflict' := order, merged, overridden, conflict;
    ghost var tagged := TagAll(items, source);
    assert done + tagged[..0] == done;
    for j := 0 to |items|
      invariant AllKeyed(items[..j], entity)
      invariant HoldsFirsts(done + tagged[..j], entity, order', merged')
      invariant overridden' == Displaced(done + tagged[..j], entity)
      invariant conflict' == (overridden' != [])
    {
      ghost var sofar := done + tagged[..j];
      assert done + tagged[..j + 1] == sofar + [tagged[j]];
      var found := entity(items[j]);
      if found.None? {
        return false, order', merged', overridden', conflict';
      }
      FirstsAdd(sofar, entity, order', merged', tagged[j]);
      DisplacedSnoc(sofar, entity, tagged[j]);
      HeldMeansSeen(sofar, entity, order', merged', found.value);
      if found.value !in merged' {
        merged' := merged'[found.value := items[j]];
        order' := order' + [found.value];
      } else if merged'[found.value] != items[j] {
        overridden' := overridden' + [LostItem(items[j], source)];
        conflict' := true;
      }
    }
    assert tagged[..|items|] == tagged && items[..|items|] == items;
    ok := true;
  }

  lemma HeldMeansSeen<I, K(!new)>(done: seq<Tagged<I>>, entity: I -> Option<K>, order: seq<K>, merged: map<K, I>, k: K)
    requires HoldsFirsts(done, entity, order, merged)
    ensures k in merged <==> SeenBy(done, EntityOf(entity), Some(k))
    ensures k in merged ==> merged[k] == done[FirstIndex(done, EntityOf(entity), Some(k))].item
  {
    hide SeenBy, FirstIndex;
  }

  function Followed<I>(done: seq<Tagged<I>>, rest: Result<seq<Tagged<I>>, MergeError>)
    : Result<seq<Tagged<I>>, MergeError>
  {
    if rest.Ok? then Ok(done + rest.value) else rest
  }

  lemma FollowedSteps<I, K>(done: seq<Tagged<I>>, cs: seq<Contribution<I>>, i: nat, entity: I -> Option<K>)
    requires i < |cs|
    ensures Followed([], TaggedItems(cs, entity)) == TaggedItems(cs, entity)
    ensures Followed(done, TaggedItems(cs[i..], entity)) ==
            if !cs[i].value.Items? then Err(NotAList)
            else if !AllKeyed(cs[i].value.items, entity) then Err(KeylessItem)
            else Followed(done + TagAll(cs[i].value.items, cs[i].source), TaggedItems(cs[i + 1..], entity))
  {
    hide AllKeyed;
    var all := TaggedItems(cs, entity);
    assert all.Ok? ==> [] + all.value == all.value;
    var suffix := cs[i..];
    assert suffix[0] == cs[i] && suffix[1..] == cs[i + 1..];
    var rest := TaggedItems(cs[i + 1..], entity);
    if cs[i].value.Items? {
      var tagged := TagAll(cs[i].value.items, cs[i].source);
      assert rest.Ok? ==> done + (tagged + rest.value) == done + tagged + rest.value;
    }
  }

  lemma FollowedEnds<I, K>(done: seq<Tagged<I>>, entity: I -> Option<K>)
    ensures Followed(done, TaggedItems([], entity)) == Ok(done)
  {
    assert done + [] == done;
  }

  /** `_merge_by_key` */
  method MergeItemsByKey<I(==), K(==,!new)>(cs: seq<Contribution<I>>, rule: Rule<I, K>)
    returns (r: Result<Outcome<I>, MergeError>)
    requires cs != []
    ensures r == MergedByKey(cs, rule)
  {
    hide HoldsFirsts, Displaced, AllKeyed, TaggedItems, Followed;
    if !rule.keyed {
      return Err(NoKey);
    }
    var order: seq<K>, merged: map<K, I> := [], map[];
    var overridden: seq<Lost<I>>, conflict := [], false;
    ghost var done: seq<Tagged<I>> := [];
    NothingHeld(rule.entity);
    assert cs[0..] == cs;
    FollowedSteps([], cs, 0, rule.entity);
    for i := 0 to |cs|
      invariant HoldsFirsts(done, rule.entity, order, merged)
      invariant overridden == Displaced(done, rule.entity) && conflict == (overridden != [])
      invariant Followed(done, TaggedItems(cs[i..], rule.entity)) == TaggedItems(cs, rule.entity)
    {
      FollowedSteps(done, cs, i, rule.entity);
      if !cs[i].value.Items? {
        return Err(NotAList);
      }
      var ok;
      ok, order, merged, overridden, conflict :=
        AddKeyed(order, merged, overridden, conflict, cs[i].value.items, cs[i].source, rule.entity, done);
      if !ok {
        return Err(KeylessItem);
      }
      done := done + TagAll(cs[i].value.items, cs[i].source);
    }
    assert cs[|cs|..] == [];
    FollowedEnds(done, rule.entity);
    HeldValues(done, rule.entity, order, merged);
    var values := seq(|order|, i requires 0 <= i < |order| && order[i] in merged => merged[order[i]]);
    return Ok(Outcome(Items(values), MergeByKey, Sources(cs), None, overridden, conflict));
  }

  lemma NothingHeld<I, K(!new)>(entity: I -> Option<K>)
    ensures HoldsFirsts([], entity, [], map[]) && Displaced([], entity) == []
  {
  }

  lemma HeldValues<I, K(!new)>(done: seq<Tagged<I>>, entity: I -> Option<K>, order: seq<K>, merged: map<K, I>)
    requires HoldsFirsts(done, entity, order, merged)
    ensures forall i :: 0 <= i < |order| ==> order[i] in merged
    ensures seq(|order|, i requires 0 <= i < |order| && order[i] in merged => merged[order[i]]) ==
              ItemsOf(DistinctBy(done, EntityOf(entity)))
  {
    hide SeenBy, DistinctBy, FirstIndex;
  }

  // ------------------------------------------------------------------ dispatch

  /** What `apply_strategy` computes. */
  function Merged<I(==), K(==)>(cs: seq<Contribution<I>>, rule: Rule<I, K>): Result<Outcome<I>, MergeError> {
    if cs == [] then Err(NothingToMerge)
    else
      match rule.strategy
      case MostRestrictive => MergedFlags(cs)
      case Max => MergedExtremum(cs, true)
      case Min => MergedExtremum(cs, false)
      case Union => MergedUnion(cs)
      case Intersect => MergedIntersect(cs)
      case MergeByKey => MergedByKey(cs, rule)
      case HighestRank => Ok(MergedRank(cs))
  }

  /** `apply_strategy` */
  method ApplyStrategy<I(==), K(==,!new)>(cs: seq<Contribution<I>>, rule: Rule<I, K>)
    returns (r: Result<Outcome<I>, MergeError>)
    ensures r == Merged(cs, rule)
  {
    hide MergedFlags, MergedExtremum, MergedUnion, MergedIntersect, MergedByKey, MergedRank;
    if cs == [] {
      return Err(NothingToMerge);
    }
    match rule.strategy
    case MostRestrictive => r := MergedFlags(cs);
    case Max => r := MergedExtremum(cs, true);
    case Min => r := MergedExtremum(cs, false);
    case Union => r := MergeUnion(cs);
    case Intersect => r := MergeIntersect(cs);
    case MergeByKey => r := MergeItemsByKey(cs, rule);
    case HighestRank => r := Ok(MergedRank(cs));
  }
}
