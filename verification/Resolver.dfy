/** Policy stacking: assignments in precedence order, merged field by field with provenance. */
module Resolver {
  import opened Wrappers
  import opened Lists
  import opened Sorting
  import opened Strategies
  import opened Texts

  /** A published policy version. A field holding None was set to an explicit null. */
  datatype Policy<I> = Policy(
    policyId: string,
    name: string,
    policyType: string,
    version: int,
    spec: map<string, Option<Value<I>>>)

  datatype Assignment<I> = Assignment(id: string, scope: string, rank: int, policy: Policy<I>)

  datatype Conflict<I> = Conflict(
    policyType: string,
    field: string,
    strategy: Strategy,
    winningValue: Value<I>,
    winningSource: Option<SourceRef>,
    discarded: seq<Lost<I>>)

  datatype FieldRule<!I, K> = FieldRule(field: string, rule: Rule<I, K>)

  /** Each policy type's fields with their merge rules, in the order they are declared. */
  type Registry<!I, K> = map<string, seq<FieldRule<I, K>>>

  datatype ResolveError = UnknownType(name: string) | CannotMerge(error: MergeError)

  /** One policy type's merged fields. */
  datatype Fields<I> = Fields(values: map<string, Value<I>>, provenance: map<string, Outcome<I>>,
                              conflicts: seq<Conflict<I>>)

  datatype Effective<I> = Effective(
    values: map<string, map<string, Value<I>>>,
    provenance: map<string, map<string, Outcome<I>>>,
    conflicts: seq<Conflict<I>>,
    considered: seq<SourceRef>)

  function SourceOf<I>(a: Assignment<I>): SourceRef {
    SourceRef(a.id, a.policy.policyId, a.policy.name, a.policy.version, a.scope, a.rank)
  }

  function Specificity(scope: string): int {
    if scope == "device" then 2 else if scope == "group" then 1 else 0
  }

  /** Rank, then specificity, both descending, then the assignment's id. */
  function Precedence<I>(a: Assignment<I>): Key {
    [-a.rank, -Specificity(a.scope)] + CodePoints(a.id)
  }

  /** `order_assignments` */
  function OrderAssignments<I(!new)>(assignments: seq<Assignment<I>>): seq<Assignment<I>> {
    Sort(assignments, (a: Assignment<I>) => Precedence(a))
  }

  // ------------------------------------------------------------------ collecting

  predicate SetsField<I>(a: Assignment<I>, field: string) {
    field in a.policy.spec && a.policy.spec[field].Some?
  }

  /** The contributions to a field: one for each assignment that sets it, in order. */
  function Collected<I>(assignments: seq<Assignment<I>>, field: string): seq<Contribution<I>> {
    if assignments == [] then []
    else
      var before, last := assignments[..|assignments| - 1], assignments[|assignments| - 1];
      Collected(before, field) +
      if SetsField(last, field) then [Contribution(last.policy.spec[field].value, SourceOf(last))] else []
  }

  /** `_collect` */
  method Collect<I>(assignments: seq<Assignment<I>>, field: string) returns (contributions: seq<Contribution<I>>)
    ensures contributions == Collected(assignments, field)
  {
    contributions := [];
    for i := 0 to |assignments|
      invariant contributions == Collected(assignments[..i], field)
    {
      var assignment := assignments[i];
      assert assignments[..i + 1][..i] == assignments[..i];
      if field !in assignment.policy.spec {
        continue;
      }
      var value := assignment.policy.spec[field];
      if value.None? {
        continue;
      }
      contributions := contributions + [Contribution(value.value, SourceOf(assignment))];
    }
    assert assignments[..|assignments|] == assignments;
  }

  // ------------------------------------------------------------------ one policy type

  /** `_record_conflict` */
  function RecordConflict<I>(policyType: string, field: string, o: Outcome<I>): Conflict<I> {
    Conflict(policyType, field, o.strategy, o.value, o.winner, o.overridden)
  }

  /** One field's merge, added to what is done; a field nobody set stays absent. */
  function AddField<I, K>(policyType: string, fieldRule: FieldRule<I, K>, merged: Result<Outcome<I>, MergeError>,
                          done: Fields<I>):
    Result<Fields<I>, ResolveError>
  {
    match merged
    case Err(NothingToMerge) => Ok(done)
    case Err(error) => Err(CannotMerge(error))
    case Ok(o) =>
      Ok(Fields(done.values[fieldRule.field := o.value], done.provenance[fieldRule.field := o],
                done.conflicts + if o.conflict then [RecordConflict(policyType, fieldRule.field, o)] else []))
  }

  function MergedFields<I(==), K(==)>(policyType: string, rules: seq<FieldRule<I, K>>, stacked: seq<Assignment<I>>):
    Result<Fields<I>, ResolveError>
  {
    if rules == [] then Ok(Fields(map[], map[], []))
    else
      var last := rules[|rules| - 1];
      var done :- MergedFields(policyType, rules[..|rules| - 1], stacked);
      AddField(policyType, last, Merged(Collected(stacked, last.field), last.rule), done)
  }

  method MergeFields<I(==), K(==,!new)>(policyType: string, rules: seq<FieldRule<I, K>>, stacked: seq<Assignment<I>>)
    returns (r: Result<Fields<I>, ResolveError>)
    ensures r == MergedFields(policyType, rules, stacked)
  {
    hide Merged, Collected;
    r := Ok(Fields(map[], map[], []));
    for i := 0 to |rules|
      invariant r.Ok? && r == MergedFields(policyType, rules[..i], stacked)
    {
      var done := r.value;
      assert rules[..i + 1][..i] == rules[..i];
      var contributions := Collect(stacked, rules[i].field);
      EmptyMergesNothing(contributions, rules[i].rule);
      if contributions != [] {
        var merged := ApplyStrategy(contributions, rules[i].rule);
        r := AddField(policyType, rules[i], merged, done);
        if r.Err? {
          FailureStays(policyType, rules, stacked, i + 1);
          return;
        }
      }
    }
    assert rules[..|rules|] == rules;
  }

  lemma EmptyMergesNothing<I, K>(cs: seq<Contribution<I>>, rule: Rule<I, K>)
    ensures cs == [] <==> Merged(cs, rule) == Err(NothingToMerge)
  {
    hide TaggedItems;
    TagsFail(cs, rule.entity);
  }

  lemma {:induction false} TagsFail<I, K>(cs: seq<Contribution<I>>, entity: I -> Option<K>)
    ensures TaggedItems(cs, entity).Err? ==> !TaggedItems(cs, entity).error.NothingToMerge?
    decreases |cs|
  {
    if cs != [] {
      TagsFail(cs[1..], entity);
    }
  }

  lemma {:induction false} FailureStays<I, K>(policyType: string, rules: seq<FieldRule<I, K>>,
                                              stacked: seq<Assignment<I>>, i: nat)
    requires i <= |rules| && MergedFields(policyType, rules[..i], stacked).Err?
    ensures MergedFields(policyType, rules, stacked) == MergedFields(policyType, rules[..i], stacked)
    decreases |rules|
  {
    hide Merged, Collected, AddField;
    if i == |rules| {
      assert rules[..i] == rules;
    } else {
      var shorter := rules[..|rules| - 1];
      assert shorter[..i] == rules[..i];
      FailureStays(policyType, shorter, stacked, i);
    }
  }

  // ------------------------------------------------------------------ all policy types

  function TypesIn<I>(assignments: seq<Assignment<I>>): (r: seq<string>)
    ensures |r| == |assignments|
  {
    seq(|assignments|, i requires 0 <= i < |assignments| => assignments[i].policy.policyType)
  }

  function SortedTypes(types: seq<string>): seq<string> {
    Sort(Distinct(types), (s: string) => CodePoints(s))
  }

  predicate HasType<I>(a: Assignment<I>, policyType: string) {
    a.policy.policyType == policyType
  }

  /** The assignments of one type, in their order. */
  function OfType<I(!new)>(assignments: seq<Assignment<I>>, policyType: string): seq<Assignment<I>> {
    Filter(assignments, (a: Assignment<I>) => HasType(a, policyType))
  }

  function AddType<I>(policyType: string, fields: Fields<I>, done: Effective<I>): Effective<I> {
    var conflicts := done.conflicts + fields.conflicts;
    if fields.values == map[] then done.(conflicts := conflicts)
    else done.(values := done.values[policyType := fields.values],
               provenance := done.provenance[policyType := fields.provenance],
               conflicts := conflicts)
  }

  function ResolvedTypes<I(==,!new), K(==)>(types: seq<string>, ordered: seq<Assignment<I>>, registry: Registry<I, K>):
    Result<Effective<I>, ResolveError>
  {
    if types == [] then Ok(Effective(map[], map[], [], Considered(ordered)))
    else
      var last := types[|types| - 1];
      var done :- ResolvedTypes(types[..|types| - 1], ordered, registry);
      if last !in registry then Err(UnknownType(last))
      else
        var fields :- MergedFields(last, registry[last], OfType(ordered, last));
        Ok(AddType(last, fields, done))
  }

  function Considered<I>(assignments: seq<Assignment<I>>): (r: seq<SourceRef>)
    ensures |r| == |assignments|
  {
    seq(|assignments|, i requires 0 <= i < |assignments| => SourceOf(assignments[i]))
  }

  /** What `resolve` computes. */
  function Resolved<I(==,!new), K(==)>(assignments: seq<Assignment<I>>, registry: Registry<I, K>)
    : Result<Effective<I>, ResolveError>
  {
    var ordered := OrderAssignments(assignments);
    ResolvedTypes(SortedTypes(TypesIn(ordered)), ordered, registry)
  }

  lemma {:induction false} FilterAppend<T(!new)>(a: seq<T>, b: seq<T>, p: T -> bool)
    ensures Filter(a + b, p) == Filter(a, p) + Filter(b, p)
    decreases |a|
  {
    if a == [] {
      assert a + b == b;
    } else {
      assert (a + b)[0] == a[0] && (a + b)[1..] == a[1..] + b;
      FilterAppend(a[1..], b, p);
    }
  }

  lemma OfTypeSnoc<I(!new)>(assignments: seq<Assignment<I>>, a: Assignment<I>, policyType: string)
    ensures OfType(assignments + [a], policyType) ==
              OfType(assignments, policyType) + if HasType(a, policyType) then [a] else []
  {
    var p := (x: Assignment<I>) => HasType(x, policyType);
    FilterAppend(assignments, [a], p);
    assert Filter([a], p) == (if p(a) then [a] else []) + Filter([], p);
  }

  /** The grouping loop of `resolve`; `names` are the dictionary's keys as they were inserted. */
  method GroupByType<I(==,!new)>(ordered: seq<Assignment<I>>)
    returns (names: seq<string>, byType: map<string, seq<Assignment<I>>>)
    ensures names == Distinct(TypesIn(ordered))
    ensures forall t :: t in byType <==> t in names
    ensures forall t :: t in byType ==> byType[t] == OfType(ordered, t)
  {
    hide DistinctBy, SeenBy, OfType;
    names, byType := [], map[];
    NothingGrouped(ordered[..0]);
    for i := 0 to |ordered|
      invariant names == Distinct(TypesIn(ordered[..i]))
      invariant forall t :: t in byType <==> t in names
      invariant forall t :: t in byType ==> byType[t] == OfType(ordered[..i], t)
    {
      var assignment, policyType := ordered[i], ordered[i].policy.policyType;
      GroupStep(ordered, i, names);
      if policyType !in byType {
        names := names + [policyType];
        byType := byType[policyType := [assignment]];
      } else {
        byType := byType[policyType := byType[policyType] + [assignment]];
      }
    }
    assert ordered[..|ordered|] == ordered;
  }

  lemma NothingGrouped<I(!new)>(none: seq<Assignment<I>>)
    requires none == []
    ensures Distinct(TypesIn(none)) == [] && forall t :: OfType(none, t) == []
  {
  }

  lemma GroupStep<I(!new)>(ordered: seq<Assignment<I>>, i: nat, names: seq<string>)
    requires i < |ordered| && names == Distinct(TypesIn(ordered[..i]))
    ensures var policyType := ordered[i].policy.policyType;
            && Distinct(TypesIn(ordered[..i + 1])) == (if policyType in names then names else names + [policyType])
            && (policyType !in names ==> OfType(ordered[..i], policyType) == [])
            && (forall t :: OfType(ordered[..i + 1], t) ==
                              OfType(ordered[..i], t) + if t == policyType then [ordered[i]] else [])
  {
    hide DistinctBy, SeenBy, OfType;
    var before, policyType := ordered[..i], ordered[i].policy.policyType;
    assert ordered[..i + 1] == before + [ordered[i]];
    assert TypesIn(ordered[..i + 1]) == TypesIn(before) + [policyType];
    DistinctSnoc(TypesIn(before), policyType, Self);
    DistinctSees(TypesIn(before), Self, policyType);
    SeenIsElement(TypesIn(before), policyType);
    SeenIsElement(names, policyType);
    OnlyListedTypes(before, policyType);
    forall t ensures OfType(ordered[..i + 1], t) == OfType(before, t) + if t == policyType then [ordered[i]] else [] {
      OfTypeSnoc(before, ordered[i], t);
    }
  }

  lemma OnlyListedTypes<I(!new)>(assignments: seq<Assignment<I>>, policyType: string)
    ensures policyType in TypesIn(assignments) <==> OfType(assignments, policyType) != []
  {
    var kept := OfType(assignments, policyType);
    if kept != [] {
      assert kept[0] in kept;
      var i :| 0 <= i < |assignments| && assignments[i] == kept[0];
      assert TypesIn(assignments)[i] == policyType;
    }
    if policyType in TypesIn(assignments) {
      var i :| 0 <= i < |assignments| && TypesIn(assignments)[i] == policyType;
      assert assignments[i] in kept;
    }
  }

  /** `resolve` */
  method Resolve<I(==,!new), K(==,!new)>(assignments: seq<Assignment<I>>, registry: Registry<I, K>)
    returns (r: Result<Effective<I>, ResolveError>)
    ensures r == Resolved(assignments, registry)
  {
    hide OrderAssignments, OfType, Distinct, MergedFields, Sort;
    var ordered := OrderAssignments(assignments);
    var names, byType := GroupByType(ordered);
    var types := Sort(names, (s: string) => CodePoints(s));
    assert types == SortedTypes(TypesIn(ordered));
    SortKeeps(names, (s: string) => CodePoints(s));
    r := Ok(Effective(map[], map[], [], Considered(ordered)));
    for i := 0 to |types|
      invariant r.Ok? && r == ResolvedTypes(types[..i], ordered, registry)
    {
      var policyType := types[i];
      assert types[..i + 1][..i] == types[..i];
      StopsAtFailure(types, ordered, registry, i + 1);
      if policyType !in registry {
        return Err(UnknownType(policyType));
      }
      assert policyType in byType;
      var fields := MergeFields(policyType, registry[policyType], byType[policyType]);
      if fields.Err? {
        return Err(fields.error);
      }
      r := Ok(AddType(policyType, fields.value, r.value));
    }
    assert types[..|types|] == types;
  }

  lemma SortKeeps<T(!new)>(xs: seq<T>, key: T -> Key)
    ensures forall x :: x in Sort(xs, key) <==> x in xs
  {
    SortOrders(xs, key);
    forall x ensures x in Sort(xs, key) <==> x in xs {
      assert x in multiset(xs) <==> x in xs;
      assert x in multiset(Sort(xs, key)) <==> x in Sort(xs, key);
    }
  }

  lemma {:induction false} StopsAtFailure<I(!new), K>(types: seq<string>, ordered: seq<Assignment<I>>,
                                                      registry: Registry<I, K>, i: nat)
    requires i <= |types|
    ensures ResolvedTypes(types[..i], ordered, registry).Err? ==>
              ResolvedTypes(types, ordered, registry) == ResolvedTypes(types[..i], ordered, registry)
    decreases |types|
  {
    hide MergedFields, OfType, AddType;
    if i == |types| {
      assert types[..i] == types;
    } else {
      var shorter := types[..|types| - 1];
      assert shorter[..i] == types[..i];
      StopsAtFailure(shorter, ordered, registry, i);
    }
  }
}
