/** The effective policy does not depend on input order, types do not mix, and provenance is exact. */
module ResolverTheorems {
  import opened Wrappers
  import opened Lists
  import opened Sorting
  import opened Strategies
  import opened Resolver
  import opened Texts

  // ------------------------------------------------------- precedence

  lemma PrecedenceTells<I>(a: Assignment<I>, b: Assignment<I>)
    requires Precedence(a) == Precedence(b)
    ensures a.id == b.id
  {
    assert Precedence(a)[2..] == CodePoints(a.id) && Precedence(b)[2..] == CodePoints(b.id);
    CodePointsDiffer(a.id, b.id);
  }

  /** Within one policy type no two assignments share an id. */
  ghost predicate IdsTellApart<I(!new)>(assignments: seq<Assignment<I>>) {
    forall x, y :: x in assignments && y in assignments ==>
      (x.policy.policyType == y.policy.policyType && x.id == y.id ==> x == y)
  }

  // ------------------------------------------------------- sorting and selecting one type

  lemma {:induction false} FilterCounts<T(!new)>(xs: seq<T>, p: T -> bool, x: T)
    ensures multiset(Filter(xs, p))[x] == if p(x) then multiset(xs)[x] else 0
    decreases |xs|
  {
    if xs != [] {
      FilterCounts(xs[1..], p, x);
      assert xs == [xs[0]] + xs[1..];
    }
  }

  lemma FilterOfSame<T(!new)>(a: seq<T>, b: seq<T>, p: T -> bool)
    requires multiset(a) == multiset(b)
    ensures multiset(Filter(a, p)) == multiset(Filter(b, p))
  {
    forall x ensures multiset(Filter(a, p))[x] == multiset(Filter(b, p))[x] {
      FilterCounts(a, p, x);
      FilterCounts(b, p, x);
    }
  }

  /** One type's assignments in precedence order: order all and select, or select and order. */
  lemma OneTypeInOrder<I(!new)>(assignments: seq<Assignment<I>>, policyType: string)
    ensures OfType(OrderAssignments(assignments), policyType) == OrderAssignments(OfType(assignments, policyType))
  {
    SortFilters(assignments, (a: Assignment<I>) => Precedence(a), (a: Assignment<I>) => HasType(a, policyType));
  }

  lemma OneTypeForgetsOrder<I(!new)>(a: seq<Assignment<I>>, b: seq<Assignment<I>>, policyType: string)
    requires multiset(a) == multiset(b) && IdsTellApart(a)
    ensures OfType(OrderAssignments(a), policyType) == OfType(OrderAssignments(b), policyType)
  {
    hide Sort, Precedence;
    OneTypeInOrder(a, policyType);
    OneTypeInOrder(b, policyType);
    FilterOfSame(a, b, (x: Assignment<I>) => HasType(x, policyType));
    var chosen := OfType(a, policyType);
    forall x, y | x in chosen && y in chosen && Precedence(x) == Precedence(y) ensures x == y {
      PrecedenceTells(x, y);
    }
    SortForgetsOrder(chosen, OfType(b, policyType), (x: Assignment<I>) => Precedence(x));
  }

  // ------------------------------------------------------- the list of types

  lemma {:induction false} DistinctCounts<T(!new)>(s: seq<T>, x: T)
    requires KeysDiffer(s, Self)
    ensures multiset(s)[x] == if x in s then 1 else 0
    decreases |s|
  {
    if s != [] {
      assert s == [s[0]] + s[1..];
      forall i, j | 0 <= i < j < |s[1..]| ensures Self(s[1..][i]) != Self(s[1..][j]) {
        assert Self(s[i + 1]) != Self(s[j + 1]);
      }
      DistinctCounts(s[1..], x);
      assert forall j :: 0 <= j < |s[1..]| ==> s[1..][j] == s[j + 1] && Self(s[0]) != Self(s[j + 1]);
    }
  }

  lemma SameTypesSortedAlike(a: seq<string>, b: seq<string>)
    requires forall t :: t in a <==> t in b
    ensures SortedTypes(a) == SortedTypes(b)
  {
    hide Sort, DistinctBy, SeenBy, CodePoints;
    var da, db := Distinct(a), Distinct(b);
    DistinctDiffers(a, Self);
    DistinctDiffers(b, Self);
    forall t ensures multiset(da)[t] == multiset(db)[t] && (t in da <==> t in a) {
      DistinctCounts(da, t);
      DistinctCounts(db, t);
      DistinctSees(a, Self, t);
      DistinctSees(b, Self, t);
      SeenIsElement(a, t);
      SeenIsElement(b, t);
      SeenIsElement(da, t);
      SeenIsElement(db, t);
    }
    var key := (s: string) => CodePoints(s);
    forall x, y | x in da && y in da && key(x) == key(y) ensures x == y {
      CodePointsDiffer(x, y);
    }
    SortForgetsOrder(da, db, key);
  }

  lemma SortedTypesAre(types: seq<string>)
    ensures forall t :: t in SortedTypes(types) <==> t in types
    ensures forall t :: multiset(SortedTypes(types))[t] <= 1
  {
    hide Sort, DistinctBy, SeenBy, CodePoints;
    var key := (s: string) => CodePoints(s);
    var d := Distinct(types);
    SortOrders(d, key);
    SortKeeps(d, key);
    DistinctDiffers(types, Self);
    forall t ensures (t in d <==> t in types) && multiset(SortedTypes(types))[t] <= 1 {
      DistinctCounts(d, t);
      DistinctSees(types, Self, t);
      SeenIsElement(types, t);
      SeenIsElement(d, t);
    }
  }

  // ------------------------------------------------------- order does not matter

  /** The same values, provenance and conflicts, or the same failure. */
  ghost predicate SameResult<I>(a: Result<Effective<I>, ResolveError>, b: Result<Effective<I>, ResolveError>) {
    || (a.Err? && b.Err? && a.error == b.error)
    || (a.Ok? && b.Ok? && a.value.values == b.value.values && a.value.provenance == b.value.provenance &&
        a.value.conflicts == b.value.conflicts)
  }

  lemma {:induction false} OnlyTheTypesMatter<I(!new), K>(types: seq<string>, a: seq<Assignment<I>>,
                                                          b: seq<Assignment<I>>, registry: Registry<I, K>)
    requires forall t :: OfType(a, t) == OfType(b, t)
    ensures SameResult(ResolvedTypes(types, a, registry), ResolvedTypes(types, b, registry))
    decreases |types|
  {
    hide OfType, MergedFields;
    if types != [] {
      OnlyTheTypesMatter(types[..|types| - 1], a, b, registry);
    }
  }

  /** For every permutation of assignments whose ids are unique within each type, the result is the same. */
  lemma OrderNeverMatters<I(!new), K>(a: seq<Assignment<I>>, b: seq<Assignment<I>>, registry: Registry<I, K>)
    requires multiset(a) == multiset(b) && IdsTellApart(a)
    ensures SameResult(Resolved(a, registry), Resolved(b, registry))
  {
    hide OrderAssignments, OfType, Sort, ResolvedTypes, SortedTypes;
    var oa, ob := OrderAssignments(a), OrderAssignments(b);
    forall t ensures OfType(oa, t) == OfType(ob, t) && (t in TypesIn(oa) <==> t in TypesIn(ob)) {
      OneTypeForgetsOrder(a, b, t);
      OnlyListedTypes(oa, t);
      OnlyListedTypes(ob, t);
    }
    SameTypesSortedAlike(TypesIn(oa), TypesIn(ob));
    OnlyTheTypesMatter(SortedTypes(TypesIn(oa)), oa, ob, registry);
  }

  // ------------------------------------------------------- types do not mix

  /** What an effective policy says about one type. */
  datatype View<I> = View(
    values: Option<map<string, Value<I>>>,
    provenance: Option<map<string, Outcome<I>>>,
    conflicts: seq<Conflict<I>>)

  function ViewOf<I(!new)>(e: Effective<I>, policyType: string): View<I> {
    View(if policyType in e.values then Some(e.values[policyType]) else None,
         if policyType in e.provenance then Some(e.provenance[policyType]) else None,
         Filter(e.conflicts, (c: Conflict<I>) => c.policyType == policyType))
  }

  /** What one type's merged fields amount to. */
  function FieldsView<I>(fields: Fields<I>): View<I> {
    if fields.values == map[] then View(None, None, fields.conflicts)
    else View(Some(fields.values), Some(fields.provenance), fields.conflicts)
  }

  lemma {:induction false} ConflictsNameTheirType<I(!new), K>(policyType: string, rules: seq<FieldRule<I, K>>,
                                                              stacked: seq<Assignment<I>>)
    requires MergedFields(policyType, rules, stacked).Ok?
    ensures forall i :: 0 <= i < |MergedFields(policyType, rules, stacked).value.conflicts| ==>
              MergedFields(policyType, rules, stacked).value.conflicts[i].policyType == policyType
    decreases |rules|
  {
    hide Merged, Collected;
    if rules != [] {
      ConflictsNameTheirType(policyType, rules[..|rules| - 1], stacked);
    }
  }

  lemma {:induction false} FilterAll<T(!new)>(xs: seq<T>, p: T -> bool)
    requires forall i :: 0 <= i < |xs| ==> p(xs[i])
    ensures Filter(xs, p) == xs
    decreases |xs|
  {
    if xs != [] {
      FilterAll(xs[1..], p);
    }
  }

  lemma {:induction false} FilterNone<T(!new)>(xs: seq<T>, p: T -> bool)
    requires forall i :: 0 <= i < |xs| ==> !p(xs[i])
    ensures Filter(xs, p) == []
    decreases |xs|
  {
    if xs != [] {
      FilterNone(xs[1..], p);
    }
  }

  lemma AddTypeViews<I(!new)>(added: string, fields: Fields<I>, done: Effective<I>, policyType: string)
    requires forall i :: 0 <= i < |fields.conflicts| ==> fields.conflicts[i].policyType == added
    requires added == policyType ==> ViewOf(done, policyType) == View(None, None, [])
    ensures ViewOf(AddType(added, fields, done), policyType) ==
              if added == policyType then FieldsView(fields) else ViewOf(done, policyType)
  {
    var p := (c: Conflict<I>) => c.policyType == policyType;
    FilterAppend(done.conflicts, fields.conflicts, p);
    if added == policyType {
      FilterAll(fields.conflicts, p);
    } else {
      FilterNone(fields.conflicts, p);
    }
    hide Filter;
    var kept := Filter(done.conflicts, p);
    assert kept + [] == kept && [] + fields.conflicts == fields.conflicts;
  }

  lemma {:induction false} ResolvedTypesView<I(!new), K>(types: seq<string>, ordered: seq<Assignment<I>>,
                                                         registry: Registry<I, K>, policyType: string)
    requires ResolvedTypes(types, ordered, registry).Ok? && multiset(types)[policyType] <= 1
    ensures policyType !in types ==>
              ViewOf(ResolvedTypes(types, ordered, registry).value, policyType) == View(None, None, [])
    ensures policyType in types ==>
              && policyType in registry
              && MergedFields(policyType, registry[policyType], OfType(ordered, policyType)).Ok?
              && ViewOf(ResolvedTypes(types, ordered, registry).value, policyType) ==
                 FieldsView(MergedFields(policyType, registry[policyType], OfType(ordered, policyType)).value)
    decreases |types|
  {
    hide OfType, MergedFields, AddType, ViewOf, FieldsView;
    if types == [] {
      EmptyView(ordered, policyType);
    } else {
      var before, last := types[..|types| - 1], types[|types| - 1];
      assert types == before + [last];
      ResolvedTypesView(before, ordered, registry, policyType);
      assert last == policyType ==> policyType !in before;
      var fields := MergedFields(last, registry[last], OfType(ordered, last)).value;
      ConflictsNameTheirType(last, registry[last], OfType(ordered, last));
      AddTypeViews(last, fields, ResolvedTypes(before, ordered, registry).value, policyType);
    }
  }

  lemma EmptyView<I(!new)>(ordered: seq<Assignment<I>>, policyType: string)
    ensures ViewOf<I>(Effective(map[], map[], [], Considered(ordered)), policyType) == View(None, None, [])
  {
  }

  lemma ResolvedView<I(!new), K>(assignments: seq<Assignment<I>>, registry: Registry<I, K>, policyType: string)
    requires Resolved(assignments, registry).Ok?
    ensures var stacked := OrderAssignments(OfType(assignments, policyType));
            && (stacked == [] ==> ViewOf(Resolved(assignments, registry).value, policyType) == View(None, None, []))
            && (stacked != [] ==>
                  && policyType in registry
                  && MergedFields(policyType, registry[policyType], stacked).Ok?
                  && ViewOf(Resolved(assignments, registry).value, policyType) ==
                     FieldsView(MergedFields(policyType, registry[policyType], stacked).value))
  {
    hide OrderAssignments, OfType, Sort, ResolvedTypes, SortedTypes, MergedFields, ViewOf, FieldsView, TypesIn;
    var ordered := OrderAssignments(assignments);
    OneTypeInOrder(assignments, policyType);
    OnlyListedTypes(ordered, policyType);
    SortedTypesAre(TypesIn(ordered));
    ResolvedTypesView(SortedTypes(TypesIn(ordered)), ordered, registry, policyType);
  }

  lemma {:induction false} ResolvedWhenEachTypeIs<I(!new), K>(types: seq<string>, ordered: seq<Assignment<I>>,
                                                              registry: Registry<I, K>)
    requires forall t :: t in types ==> t in registry && MergedFields(t, registry[t], OfType(ordered, t)).Ok?
    ensures ResolvedTypes(types, ordered, registry).Ok?
    decreases |types|
  {
    hide OfType, MergedFields, AddType;
    if types != [] {
      ResolvedWhenEachTypeIs(types[..|types| - 1], ordered, registry);
    }
  }

  lemma OfTypeTwice<I(!new)>(assignments: seq<Assignment<I>>, policyType: string, other: string)
    ensures OfType(OfType(assignments, policyType), other) ==
              if other == policyType then OfType(assignments, policyType) else []
  {
    var chosen := OfType(assignments, policyType);
    if other == policyType {
      FilterAll(chosen, (a: Assignment<I>) => HasType(a, other));
    } else {
      forall i | 0 <= i < |chosen| ensures !HasType(chosen[i], other) {
        assert chosen[i] in chosen;
      }
      FilterNone(chosen, (a: Assignment<I>) => HasType(a, other));
    }
  }

  /** Taking away every other type's assignments changes nothing about this type. */
  lemma TypesDoNotMix<I(!new), K>(assignments: seq<Assignment<I>>, registry: Registry<I, K>, policyType: string)
    requires Resolved(assignments, registry).Ok?
    ensures var alone := Resolved(OfType(assignments, policyType), registry);
            alone.Ok? && ViewOf(alone.value, policyType) == ViewOf(Resolved(assignments, registry).value, policyType)
  {
    hide OrderAssignments, OfType, Sort, ResolvedTypes, SortedTypes, MergedFields, ViewOf, FieldsView, TypesIn;
    var chosen := OfType(assignments, policyType);
    ResolvedView(assignments, registry, policyType);
    var ordered := OrderAssignments(chosen);
    SortedTypesAre(TypesIn(ordered));
    forall t | t in SortedTypes(TypesIn(ordered))
      ensures t in registry && MergedFields(t, registry[t], OfType(ordered, t)).Ok?
    {
      OnlyListedTypes(ordered, t);
      OneTypeInOrder(chosen, t);
      OfTypeTwice(assignments, policyType, t);
      OrderNothing<I>();
    }
    ResolvedWhenEachTypeIs(SortedTypes(TypesIn(ordered)), ordered, registry);
    OfTypeTwice(assignments, policyType, policyType);
    ResolvedView(chosen, registry, policyType);
  }

  lemma OrderNothing<I(!new)>()
    ensures OrderAssignments<I>([]) == []
  {
  }

  // ------------------------------------------------------- provenance is exact

  ghost predicate UniqueFields<I, K>(rules: seq<FieldRule<I, K>>) {
    forall i, j :: 0 <= i < j < |rules| ==> rules[i].field != rules[j].field
  }

  /** The assignments that set a field to something, in their order. */
  function Setting<I(!new)>(stacked: seq<Assignment<I>>, field: string): seq<Assignment<I>> {
    Filter(stacked, (a: Assignment<I>) => SetsField(a, field))
  }

  lemma SettingSnoc<I(!new)>(before: seq<Assignment<I>>, last: Assignment<I>, field: string)
    ensures Setting(before + [last], field) == Setting(before, field) + if SetsField(last, field) then [last] else []
  {
    var p := (a: Assignment<I>) => SetsField(a, field);
    FilterAppend(before, [last], p);
    assert Filter([last], p) == (if p(last) then [last] else []) + Filter([], p);
  }

  lemma {:induction false} CollectedAre<I(!new)>(stacked: seq<Assignment<I>>, field: string)
    ensures Sources(Collected(stacked, field)) == Considered(Setting(stacked, field))
    ensures |Collected(stacked, field)| == |Setting(stacked, field)|
    ensures forall i :: 0 <= i < |Setting(stacked, field)| ==>
              SetsField(Setting(stacked, field)[i], field) &&
                Collected(stacked, field)[i].value == Setting(stacked, field)[i].policy.spec[field].value
    decreases |stacked|
  {
    hide SourceOf;
    if stacked == [] {
      NothingSet<I>(field);
      assert Considered<I>([]) == [];
    } else {
      var before, last := stacked[..|stacked| - 1], stacked[|stacked| - 1];
      assert stacked == before + [last];
      CollectedAre(before, field);
      SettingSnoc(before, last, field);
      hide Filter, Setting;
      var kept, more := Setting(before, field), if SetsField(last, field) then [last] else [];
      var done := Collected(before, field);
      var added := if SetsField(last, field) then [Contribution(last.policy.spec[field].value, SourceOf(last))] else [];
      assert Setting(stacked, field) == kept + more && Collected(stacked, field) == done + added;
      assert Considered(kept + more) == Considered(kept) + Considered(more);
      assert Sources(done + added) == Sources(done) + Sources(added);
      assert Considered(more) == Sources(added);
    }
  }

  /** One field's entry: absent when nobody sets it, else its own merge. */
  ghost predicate FieldIsMerged<I, K>(fields: Fields<I>, rule: FieldRule<I, K>, stacked: seq<Assignment<I>>) {
    var merged := Merged(Collected(stacked, rule.field), rule.rule);
    && (rule.field in fields.values <==> Collected(stacked, rule.field) != [])
    && (rule.field in fields.provenance <==> rule.field in fields.values)
    && (rule.field in fields.values ==>
          merged == Ok(fields.provenance[rule.field]) &&
            fields.values[rule.field] == fields.provenance[rule.field].value)
  }

  lemma {:induction false} OnlyListedFields<I, K>(policyType: string, rules: seq<FieldRule<I, K>>,
                                                  stacked: seq<Assignment<I>>, field: string)
    requires MergedFields(policyType, rules, stacked).Ok?
    requires forall i :: 0 <= i < |rules| ==> rules[i].field != field
    ensures field !in MergedFields(policyType, rules, stacked).value.values
    ensures field !in MergedFields(policyType, rules, stacked).value.provenance
    ensures forall c :: c in MergedFields(policyType, rules, stacked).value.conflicts ==> c.field != field
    decreases |rules|
  {
    hide Merged, Collected;
    if rules != [] {
      OnlyListedFields(policyType, rules[..|rules| - 1], stacked, field);
    }
  }

  /** The record of a conflict in this field of this type, and of what its merge decided. */
  ghost predicate Reports<I(!new)>(c: Conflict<I>, policyType: string, field: string, merged: Outcome<I>) {
    && c.policyType == policyType && c.field == field
    && c.strategy == merged.strategy && c.winningValue == merged.value
    && c.winningSource == merged.winner && c.discarded == merged.overridden
  }

  lemma {:induction false} FieldsAreMerged<I(!new), K>(policyType: string, rules: seq<FieldRule<I, K>>,
                                                 stacked: seq<Assignment<I>>, i: nat)
    requires MergedFields(policyType, rules, stacked).Ok? && UniqueFields(rules) && i < |rules|
    ensures FieldIsMerged(MergedFields(policyType, rules, stacked).value, rules[i], stacked)
    ensures var merged := Merged(Collected(stacked, rules[i].field), rules[i].rule);
            forall c :: c in MergedFields(policyType, rules, stacked).value.conflicts && c.field == rules[i].field <==>
              merged.Ok? && merged.value.conflict && Reports(c, policyType, rules[i].field, merged.value)
    decreases |rules|
  {
    hide Merged, Collected;
    var last, before := rules[|rules| - 1], rules[..|rules| - 1];
    EmptyMergesNothing(Collected(stacked, last.field), last.rule);
    if i == |rules| - 1 {
      OnlyListedFields(policyType, before, stacked, last.field);
    } else {
      FieldsAreMerged(policyType, before, stacked, i);
      assert before[i] == rules[i] && rules[i].field != last.field;
    }
  }

  /**
   Of each field of each type: it is present exactly when some assignment of that type sets it,
   its contributors are those assignments in precedence order, its value is its own merge's, and
   a conflict is recorded for it exactly when that merge says so.
   */
  lemma ProvenanceIsExact<I(!new), K>(assignments: seq<Assignment<I>>, registry: Registry<I, K>, policyType: string,
                                      i: nat)
    requires Resolved(assignments, registry).Ok?
    requires policyType in registry && UniqueFields(registry[policyType]) && i < |registry[policyType]|
    ensures var e, rule := Resolved(assignments, registry).value, registry[policyType][i];
            var setters := Setting(OrderAssignments(OfType(assignments, policyType)), rule.field);
            var merged := Merged(Collected(OrderAssignments(OfType(assignments, policyType)), rule.field), rule.rule);
            && (policyType in e.values && rule.field in e.values[policyType] <==> setters != [])
            && (setters != [] ==>
                  && merged.Ok?
                  && policyType in e.provenance && rule.field in e.provenance[policyType]
                  && e.provenance[policyType][rule.field] == merged.value
                  && e.values[policyType][rule.field] == merged.value.value
                  && merged.value.contributors == Considered(setters))
            && (forall c :: c in e.conflicts && c.policyType == policyType && c.field == rule.field <==>
                  merged.Ok? && merged.value.conflict && Reports(c, policyType, rule.field, merged.value))
  {
    hide OrderAssignments, OfType, MergedFields, Resolved, Merged, Collected, Setting, Reports, SetsField;
    var e, rules := Resolved(assignments, registry).value, registry[policyType];
    var stacked := OrderAssignments(OfType(assignments, policyType));
    ResolvedView(assignments, registry, policyType);
    CollectedAre(stacked, rules[i].field);
    EmptyMergesNothing(Collected(stacked, rules[i].field), rules[i].rule);
    forall c ensures c in ViewOf(e, policyType).conflicts <==> c in e.conflicts && c.policyType == policyType {
      ViewConflicts(e, policyType, c);
    }
    if stacked == [] {
      NothingSet<I>(rules[i].field);
    } else {
      FieldsAreMerged(policyType, rules, stacked, i);
      ContributorsAreSources(Collected(stacked, rules[i].field), rules[i].rule);
      hide ViewOf;
      var fields := MergedFields(policyType, rules, stacked).value;
      assert ViewOf(e, policyType).conflicts == fields.conflicts;
      ViewValues(e, policyType, fields);
    }
  }

  lemma ViewConflicts<I(!new)>(e: Effective<I>, policyType: string, c: Conflict<I>)
    ensures c in ViewOf(e, policyType).conflicts <==> c in e.conflicts && c.policyType == policyType
  {
  }

  lemma ViewValues<I(!new)>(e: Effective<I>, policyType: string, fields: Fields<I>)
    requires ViewOf(e, policyType) == FieldsView(fields)
    ensures policyType in e.values <==> fields.values != map[]
    ensures policyType in e.values ==>
              policyType in e.provenance && e.values[policyType] == fields.values &&
                e.provenance[policyType] == fields.provenance
  {
  }

  lemma NothingSet<I(!new)>(field: string)
    ensures Setting<I>([], field) == []
  {
  }

  lemma ContributorsAreSources<I, K>(cs: seq<Contribution<I>>, rule: Rule<I, K>)
    ensures Merged(cs, rule).Ok? ==> Merged(cs, rule).value.contributors == Sources(cs)
  {
    hide TaggedItems, Displaced;
  }

  // ------------------------------------------------------- what is refused

  /** Every field that somebody sets can be merged. */
  ghost predicate AllMerge<I(!new), K(!new)>(rules: seq<FieldRule<I, K>>, stacked: seq<Assignment<I>>) {
    forall i :: 0 <= i < |rules| && Collected(stacked, rules[i].field) != [] ==>
      Merged(Collected(stacked, rules[i].field), rules[i].rule).Ok?
  }

  lemma {:induction false} FieldsMergeExactlyWhen<I(!new), K(!new)>(policyType: string, rules: seq<FieldRule<I, K>>,
                                                                    stacked: seq<Assignment<I>>)
    ensures MergedFields(policyType, rules, stacked).Ok? <==> AllMerge(rules, stacked)
    decreases |rules|
  {
    hide Merged, Collected;
    if rules != [] {
      var before, last := rules[..|rules| - 1], rules[|rules| - 1];
      FieldsMergeExactlyWhen(policyType, before, stacked);
      EmptyMergesNothing(Collected(stacked, last.field), last.rule);
      assert AllMerge(rules, stacked) <==>
             AllMerge(before, stacked) &&
             (Collected(stacked, last.field) != [] ==> Merged(Collected(stacked, last.field), last.rule).Ok?);
    }
  }

  /** A device has an effective policy exactly when every assigned type is known and every field set can be merged. */
  lemma ResolvesExactlyWhen<I(!new), K(!new)>(assignments: seq<Assignment<I>>, registry: Registry<I, K>)
    ensures Resolved(assignments, registry).Ok? <==>
              forall a :: a in assignments ==>
                && a.policy.policyType in registry
                && AllMerge(registry[a.policy.policyType], OrderAssignments(OfType(assignments, a.policy.policyType)))
  {
    hide OrderAssignments, OfType, Resolved, SortedTypes, MergedFields, TypesIn, AllMerge, Collected, Merged;
    if Resolved(assignments, registry).Ok? {
      forall a | a in assignments
        ensures a.policy.policyType in registry
        ensures AllMerge(registry[a.policy.policyType], OrderAssignments(OfType(assignments, a.policy.policyType)))
      {
        var t := a.policy.policyType;
        ResolvedView(assignments, registry, t);
        StackHolds(assignments, a);
        FieldsMergeExactlyWhen(t, registry[t], OrderAssignments(OfType(assignments, t)));
      }
    } else {
      var t := RefusedType(assignments, registry);
      var a :| a in assignments && a.policy.policyType == t;
      if t in registry {
        FieldsMergeExactlyWhen(t, registry[t], OrderAssignments(OfType(assignments, t)));
      }
    }
  }

  lemma StackHolds<I(!new)>(assignments: seq<Assignment<I>>, a: Assignment<I>)
    requires a in assignments
    ensures a in OrderAssignments(OfType(assignments, a.policy.policyType))
  {
    hide Precedence;
    var chosen := OfType(assignments, a.policy.policyType);
    assert HasType(a, a.policy.policyType);
    assert a in chosen;
    SortOrders(chosen, (x: Assignment<I>) => Precedence(x));
    assert a in multiset(OrderAssignments(chosen));
  }

  /** A type for which nothing can be resolved. */
  lemma RefusedType<I(!new), K>(assignments: seq<Assignment<I>>, registry: Registry<I, K>) returns (t: string)
    requires Resolved(assignments, registry).Err?
    ensures exists a :: a in assignments && a.policy.policyType == t
    ensures t in registry ==> MergedFields(t, registry[t], OrderAssignments(OfType(assignments, t))).Err?
  {
    hide OrderAssignments, OfType, ResolvedTypes, SortedTypes, MergedFields, TypesIn;
    var ordered := OrderAssignments(assignments);
    var types := SortedTypes(TypesIn(ordered));
    if forall t :: t in types ==> t in registry && MergedFields(t, registry[t], OfType(ordered, t)).Ok? {
      ResolvedWhenEachTypeIs(types, ordered, registry);
      assert false;
    }
    t :| t in types && !(t in registry && MergedFields(t, registry[t], OfType(ordered, t)).Ok?);
    OneTypeInOrder(assignments, t);
    SortedTypesAre(TypesIn(ordered));
    TypeIsAssigned(assignments, t);
  }

  lemma TypeIsAssigned<I(!new)>(assignments: seq<Assignment<I>>, t: string)
    requires t in TypesIn(OrderAssignments(assignments))
    ensures exists a :: a in assignments && a.policy.policyType == t
  {
    hide Precedence;
    var ordered := OrderAssignments(assignments);
    var i :| 0 <= i < |ordered| && TypesIn(ordered)[i] == t;
    SortOrders(assignments, (x: Assignment<I>) => Precedence(x));
    assert ordered[i] in multiset(assignments);
  }
}
