/** Who comes first when policies are stacked, said of ranks, scopes and ids themselves. */
module PrecedenceTheorems {
  import opened Wrappers
  import opened Lists
  import opened Sorting
  import opened Strategies
  import opened StrategyTheorems
  import opened Resolver
  import opened ResolverTheorems
  import opened Texts

  // ------------------------------------------------------- the order

  /** The texts agree up to `i`, where `a` ends or has the smaller character. */
  predicate PartsAt(a: string, b: string, i: nat) {
    i <= |a| && i <= |b| && a[..i] == b[..i] && (i == |a| || (i < |b| && a[i] < b[i]))
  }

  /** `a` is `b` or comes before it in the order of code points. */
  ghost predicate TextAtMost(a: string, b: string) {
    exists i: nat :: PartsAt(a, b, i)
  }

  /** Devices come before groups, and groups before everything else. */
  ghost predicate MoreSpecific(a: string, b: string) {
    (a == "device" && b != "device") || (a == "group" && b != "device" && b != "group")
  }

  /** The higher rank, then the more specific scope, then the smaller id. */
  ghost predicate NotAfter(a: SourceRef, b: SourceRef) {
    || a.rank > b.rank
    || (a.rank == b.rank && MoreSpecific(a.scope, b.scope))
    || (a.rank == b.rank && !MoreSpecific(b.scope, a.scope) && TextAtMost(a.assignmentId, b.assignmentId))
  }

  lemma PartsLater(a: string, b: string)
    requires a != "" && b != "" && a[0] == b[0]
    ensures TextAtMost(a, b) <==> TextAtMost(a[1..], b[1..])
  {
    if i: nat :| PartsAt(a, b, i) {
      assert i > 0;
      assert a[1..][..i - 1] == a[..i][1..] && b[1..][..i - 1] == b[..i][1..];
      assert PartsAt(a[1..], b[1..], i - 1);
    }
    if i: nat :| PartsAt(a[1..], b[1..], i) {
      assert a[..i + 1] == [a[0]] + a[1..][..i] && b[..i + 1] == [b[0]] + b[1..][..i];
      assert PartsAt(a, b, i + 1);
    }
  }

  lemma {:induction false} CodePointsCompare(a: string, b: string)
    ensures LexLe(CodePoints(a), CodePoints(b)) <==> TextAtMost(a, b)
    decreases |a|
  {
    if a == "" {
      assert PartsAt(a, b, 0);
    } else if b != "" && a[0] == b[0] {
      PartsLater(a, b);
      CodePointsCompare(a[1..], b[1..]);
      assert CodePoints(a)[1..] == CodePoints(a[1..]) && CodePoints(b)[1..] == CodePoints(b[1..]);
    } else if b != "" {
      if a[0] < b[0] {
        assert PartsAt(a, b, 0);
      }
      assert forall i: nat :: PartsAt(a, b, i) && i > 0 ==> a[..i][0] == b[..i][0];
    }
  }

  lemma PrecedenceMeans<I>(a: Assignment<I>, b: Assignment<I>)
    ensures LexLe(Precedence(a), Precedence(b)) <==> NotAfter(SourceOf(a), SourceOf(b))
  {
    hide TextAtMost;
    CodePointsCompare(a.id, b.id);
    var p, q := Precedence(a), Precedence(b);
    assert p[1..][0] == -Specificity(a.scope) && q[1..][0] == -Specificity(b.scope);
    assert p[1..][1..] == CodePoints(a.id) && q[1..][1..] == CodePoints(b.id);
  }

  ghost predicate InPrecedence(sources: seq<SourceRef>) {
    forall j, k :: 0 <= j < k < |sources| ==> NotAfter(sources[j], sources[k])
  }

  /** The order is on the assignments themselves, and loses none. */
  lemma OrderIsPrecedence<I(!new)>(assignments: seq<Assignment<I>>)
    ensures var ordered := OrderAssignments(assignments);
            InPrecedence(Considered(ordered)) && multiset(ordered) == multiset(assignments)
  {
    hide Precedence, NotAfter, SourceOf, Sort, LexLe;
    var key, ordered := (a: Assignment<I>) => Precedence(a), OrderAssignments(assignments);
    SortOrders(assignments, key);
    forall j, k | 0 <= j < k < |ordered| ensures NotAfter(Considered(ordered)[j], Considered(ordered)[k]) {
      PrecedenceMeans(ordered[j], ordered[k]);
      assert LexLe(key(ordered[j]), key(ordered[k]));
    }
  }

  // ------------------------------------------------------- one field's setters

  /** Selecting keeps the order. */
  lemma {:induction false} SelectedStayInOrder<I(!new)>(stacked: seq<Assignment<I>>, field: string)
    requires InPrecedence(Considered(stacked))
    ensures InPrecedence(Considered(Setting(stacked, field)))
    decreases |stacked|
  {
    hide NotAfter, SourceOf;
    if stacked != [] {
      var rest := stacked[1..];
      forall j, k | 0 <= j < k < |rest| ensures NotAfter(Considered(rest)[j], Considered(rest)[k]) {
        assert Considered(rest)[j] == Considered(stacked)[j + 1] && Considered(rest)[k] == Considered(stacked)[k + 1];
      }
      SelectedStayInOrder(rest, field);
      FirstStaysFirst(stacked, field);
    }
  }

  lemma FirstStaysFirst<I(!new)>(stacked: seq<Assignment<I>>, field: string)
    requires stacked != [] && InPrecedence(Considered(stacked)) &&
             InPrecedence(Considered(Setting(stacked[1..], field)))
    ensures InPrecedence(Considered(Setting(stacked, field)))
  {
    hide NotAfter, SourceOf;
    var kept := Setting(stacked[1..], field);
    if SetsField(stacked[0], field) {
      var all := [stacked[0]] + kept;
      assert Setting(stacked, field) == all;
      forall j, k | 0 <= j < k < |all| ensures NotAfter(Considered(all)[j], Considered(all)[k]) {
        if j == 0 {
          assert all[k] in kept;
          var i :| 0 <= i < |stacked[1..]| && stacked[1..][i] == all[k];
          assert Considered(stacked)[0] == Considered(all)[0] && Considered(stacked)[i + 1] == Considered(all)[k];
        } else {
          assert Considered(all)[j] == Considered(kept)[j - 1] && Considered(all)[k] == Considered(kept)[k - 1];
        }
      }
    } else {
      assert Setting(stacked, field) == kept;
    }
  }

  /** This assignment is of the type and sets the field. */
  predicate IsSetter<I>(a: Assignment<I>, policyType: string, field: string) {
    a.policy.policyType == policyType && SetsField(a, field)
  }

  /** In precedence order, exactly the assignments given, as often as they were given. */
  lemma SettersAreOrdered<I(!new)>(assignments: seq<Assignment<I>>, policyType: string, field: string)
    ensures var setters := Setting(OrderAssignments(OfType(assignments, policyType)), field);
            && InPrecedence(Considered(setters))
            && multiset(setters) == multiset(Setting(OfType(assignments, policyType), field))
            && forall a :: a in setters <==> a in assignments && IsSetter(a, policyType, field)
  {
    hide InPrecedence, SourceOf, Sort;
    var chosen := OfType(assignments, policyType);
    var ordered := OrderAssignments(chosen);
    OrderIsPrecedence(chosen);
    SelectedStayInOrder(ordered, field);
    FilterOfSame(ordered, chosen, (a: Assignment<I>) => SetsField(a, field));
    forall a ensures a in ordered <==> a in chosen {
      assert a in multiset(ordered) <==> a in multiset(chosen);
    }
  }

  ghost predicate NamesEach<I(!new)>(sources: seq<SourceRef>, given: seq<Assignment<I>>) {
    && |sources| == |given|
    && forall i :: 0 <= i < |given| ==>
         && sources[i].assignmentId == given[i].id && sources[i].policyId == given[i].policy.policyId
         && sources[i].policyName == given[i].policy.name && sources[i].policyVersion == given[i].policy.version
         && sources[i].scope == given[i].scope && sources[i].rank == given[i].rank
  }

  lemma ConsideredAreNamed<I(!new)>(given: seq<Assignment<I>>)
    ensures NamesEach(Considered(given), given)
  {
  }

  /** `sources` are those of exactly these assignments, each as often as it is given, in some order. */
  ghost predicate SourcesOf<I(!new)>(sources: seq<SourceRef>, given: seq<Assignment<I>>) {
    exists ordered: seq<Assignment<I>> :: NamesEach(sources, ordered) && multiset(ordered) == multiset(given)
  }

  /**
   In every effective policy a field's contributors are the assignments that set it, and stand in
   precedence: by falling rank, then from device to group to the rest, then by rising id.
   */
  lemma ContributorsFollowPrecedence<I(!new), K>(assignments: seq<Assignment<I>>, registry: Registry<I, K>,
                                                 policyType: string, i: nat)
    requires Resolved(assignments, registry).Ok?
    requires policyType in registry && UniqueFields(registry[policyType]) && i < |registry[policyType]|
    requires var e, field := Resolved(assignments, registry).value, registry[policyType][i].field;
             policyType in e.values && field in e.values[policyType]
    ensures var e, field := Resolved(assignments, registry).value, registry[policyType][i].field;
            && policyType in e.provenance && field in e.provenance[policyType]
            && InPrecedence(e.provenance[policyType][field].contributors)
            && SourcesOf(e.provenance[policyType][field].contributors, Setting(OfType(assignments, policyType), field))
  {
    hide OrderAssignments, OfType, Resolved, Merged, Collected, Setting, RecordConflict, InPrecedence, SourceOf;
    ProvenanceIsExact(assignments, registry, policyType, i);
    SettersAreOrdered(assignments, policyType, registry[policyType][i].field);
    ConsideredAreNamed(Setting(OrderAssignments(OfType(assignments, policyType)), registry[policyType][i].field));
  }

  /** All assignments considered are listed, in precedence. */
  lemma ConsideredFollowPrecedence<I(!new), K>(assignments: seq<Assignment<I>>, registry: Registry<I, K>)
    requires Resolved(assignments, registry).Ok?
    ensures var considered := Resolved(assignments, registry).value.considered;
            InPrecedence(considered) && SourcesOf(considered, assignments)
  {
    hide OrderAssignments, InPrecedence, SourceOf, ResolvedTypes, Considered;
    var ordered := OrderAssignments(assignments);
    OrderIsPrecedence(assignments);
    AllAreConsidered(SortedTypes(TypesIn(ordered)), ordered, registry);
    ConsideredAreNamed(ordered);
  }

  lemma {:induction false} AllAreConsidered<I(!new), K>(types: seq<string>, ordered: seq<Assignment<I>>,
                                                        registry: Registry<I, K>)
    requires ResolvedTypes(types, ordered, registry).Ok?
    ensures ResolvedTypes(types, ordered, registry).value.considered == Considered(ordered)
    decreases |types|
  {
    hide MergedFields, OfType;
    if types != [] {
      AllAreConsidered(types[..|types| - 1], ordered, registry);
    }
  }

  // ------------------------------------------------------- what the first setter decides

  /** Keeping the first of each kind keeps what a first part gave, in its place. */
  lemma {:induction false} DistinctStartsWith<T, K>(a: seq<T>, b: seq<T>, key: T -> K)
    ensures DistinctBy(a, key) <= DistinctBy(a + b, key)
    decreases |b|
  {
    hide DistinctBy, SeenBy;
    if b == [] {
      assert a + b == a;
    } else {
      var before, last := b[..|b| - 1], b[|b| - 1];
      assert a + b == (a + before) + [last];
      DistinctStartsWith(a, before, key);
      DistinctSnoc(a + before, last, key);
    }
  }

  /** How the first contribution shows in a merged value. */
  ghost predicate FirstDecides<I, K>(first: Value<I>, rule: Rule<I, K>, merged: Value<I>) {
    match rule.strategy
    case HighestRank => merged == first
    case Union => first.Items? && merged.Items? && Distinct(first.items) <= merged.items
    case MergeByKey => first.Items? && merged.Items? && DistinctBy(first.items, rule.entity) <= merged.items
    case Intersect => first.Items? && merged.Items? && exists picks :: PicksFrom(merged.items, first.items, picks)
    case _ => true
  }

  lemma FirstContributionDecides<I(!new), K>(cs: seq<Contribution<I>>, rule: Rule<I, K>)
    requires cs != [] && Merged(cs, rule).Ok?
    ensures FirstDecides(cs[0].value, rule, Merged(cs, rule).value.value)
  {
    hide Losers, FirstWith, Extremum, Common, Shrunk, DistinctBy, TaggedItems, Displaced, PicksFrom, AllKeyed, KeptBy;
    match rule.strategy
    case Union => DistinctStartsWith(cs[0].value.items, Joined(cs[1..]), Self);
    case MergeByKey =>
      ByKeyMeans(cs, rule);
      DistinctStartsWith(cs[0].value.items, Joined(cs[1..]), rule.entity);
    case Intersect => IntersectMeans(cs, rule);
    case _ =>
  }

  /** A setter of the field that no other setter comes before. */
  ghost predicate IsTopSetter<I(!new)>(top: Assignment<I>, assignments: seq<Assignment<I>>, policyType: string,
                                       field: string) {
    && top in assignments && IsSetter(top, policyType, field)
    && forall b :: b in assignments && IsSetter(b, policyType, field) && b != top ==>
         NotAfter(SourceOf(top), SourceOf(b))
  }

  /**
   A HIGHEST_RANK value is that of a setter no other setter outranks; UNION and MERGE_BY_KEY lists
   begin with that setter's items, and an INTERSECT list has its order.
   */
  lemma TopSetterDecides<I(!new), K>(assignments: seq<Assignment<I>>, registry: Registry<I, K>, policyType: string,
                                     i: nat)
    requires Resolved(assignments, registry).Ok?
    requires policyType in registry && UniqueFields(registry[policyType]) && i < |registry[policyType]|
    requires var e, field := Resolved(assignments, registry).value, registry[policyType][i].field;
             policyType in e.values && field in e.values[policyType]
    ensures var e, rule := Resolved(assignments, registry).value, registry[policyType][i];
            exists top ::
              && IsTopSetter(top, assignments, policyType, rule.field)
              && FirstDecides(top.policy.spec[rule.field].value, rule.rule, e.values[policyType][rule.field])
  {
    hide OrderAssignments, OfType, Resolved, Merged, Collected, Setting, RecordConflict, SourceOf, NotAfter,
         FirstDecides;
    var rule := registry[policyType][i];
    var stacked := OrderAssignments(OfType(assignments, policyType));
    var setters := Setting(stacked, rule.field);
    ProvenanceIsExact(assignments, registry, policyType, i);
    SettersAreOrdered(assignments, policyType, rule.field);
    CollectedAre(stacked, rule.field);
    FirstContributionDecides(Collected(stacked, rule.field), rule.rule);
    var top := setters[0];
    assert top in setters;
    forall b | b in assignments && IsSetter(b, policyType, rule.field) && b != top
      ensures NotAfter(SourceOf(top), SourceOf(b))
    {
      assert b in setters;
      var k :| 0 <= k < |setters| && setters[k] == b;
      assert Considered(setters)[0] == SourceOf(top) && Considered(setters)[k] == SourceOf(b);
    }
    assert IsTopSetter(top, assignments, policyType, rule.field);
  }
}
