/** The pre-publish preview: which fields move between two effective policies. */
module PolicyDiff {
  import opened Wrappers
  import opened Sorting
  import opened Texts

  type Values<V> = map<string, map<string, V>>

  datatype Kind = Added | Removed | Changed

  datatype Change<V> = Change(policyType: string, field: string, kind: Kind, before: Option<V>, after: Option<V>)

  function Get<V>(fields: map<string, V>, field: string): Option<V> {
    if field in fields then Some(fields[field]) else None
  }

  function FieldsOf<V>(values: Values<V>, policyType: string): map<string, V> {
    if policyType in values then values[policyType] else map[]
  }

  /** The field's value; a type that is absent has no fields. */
  function At<V>(values: Values<V>, policyType: string, field: string): Option<V> {
    Get(FieldsOf(values, policyType), field)
  }

  function KindOf<V>(before: Option<V>, after: Option<V>): Kind {
    if before.None? then Added else if after.None? then Removed else Changed
  }

  function NameKey(name: string): Key {
    CodePoints(name)
  }

  /** Before in code point order. */
  predicate Precedes(a: string, b: string) {
    a != b && LexLe(NameKey(a), NameKey(b))
  }

  ghost predicate Increasing(names: seq<string>) {
    forall i, j :: 0 <= i < j < |names| ==> Precedes(names[i], names[j])
  }

  /** `sorted` of a set. */
  method SortedNames(names: set<string>) returns (r: seq<string>)
    ensures Increasing(r)
    ensures forall n :: n in r <==> n in names
  {
    hide LexLe, NameKey;
    var key := (n: string) => NameKey(n);
    r := [];
    var left := names;
    while left != {}
      invariant Ordered(r, key) && multiset(r) == multiset(names - left) && left <= names
      decreases |left|
    {
      var n :| n in left;
      InsertOrders(n, r, key);
      r := Insert(n, r, key);
      assert names - (left - {n}) == (names - left) + {n};
      left := left - {n};
    }
    assert names - left == names;
    forall n ensures n in r <==> n in names {
      assert n in multiset(r) <==> n in multiset(names);
    }
    forall i, j | 0 <= i < j < |r| ensures Precedes(r[i], r[j]) {
      TwiceInSequence(r, i, j);
    }
  }

  lemma TwiceInSequence<T>(s: seq<T>, i: nat, j: nat)
    requires i < j < |s|
    ensures s[i] == s[j] ==> multiset(s)[s[i]] >= 2
  {
    assert s == s[..j] + [s[j]] + s[j + 1..];
    assert s[i] in s[..j];
  }

  /** The change says how this type and field move. */
  ghost predicate IsMove<V>(c: Change<V>, before: Values<V>, after: Values<V>) {
    && c.before == At(before, c.policyType, c.field)
    && c.after == At(after, c.policyType, c.field)
    && c.before != c.after
    && (c.kind.Added? <==> c.before.None?) && (c.kind.Removed? <==> c.after.None?)
  }

  predicate Lists<V(==)>(changes: seq<Change<V>>, policyType: string, field: string) {
    exists i :: 0 <= i < |changes| && changes[i].policyType == policyType && changes[i].field == field
  }

  /** By type, then by field. */
  predicate ComesBefore<V>(a: Change<V>, b: Change<V>) {
    Precedes(a.policyType, b.policyType) || (a.policyType == b.policyType && Precedes(a.field, b.field))
  }

  ghost predicate InOrder<V>(changes: seq<Change<V>>) {
    forall i, j :: 0 <= i < j < |changes| ==> ComesBefore(changes[i], changes[j])
  }

  /** The whole preview: every field that moves, once, in order, and nothing else. */
  ghost predicate IsDiff<V>(changes: seq<Change<V>>, before: Values<V>, after: Values<V>) {
    && (forall i :: 0 <= i < |changes| ==> IsMove(changes[i], before, after))
    && (forall t, f :: At(before, t, f) != At(after, t, f) ==> Lists(changes, t, f))
    && InOrder(changes)
  }

  lemma ListsAppend<V>(a: seq<Change<V>>, b: seq<Change<V>>, policyType: string, field: string)
    ensures Lists(a + b, policyType, field) <==> Lists(a, policyType, field) || Lists(b, policyType, field)
  {
    var ab := a + b;
    assert forall i :: 0 <= i < |a| ==> ab[i] == a[i];
    assert forall i :: 0 <= i < |b| ==> ab[|a| + i] == b[i];
    assert forall i :: |a| <= i < |ab| ==> ab[i] == b[i - |a|];
  }

  /** One type's fields. */
  method TypeChanges<V(==)>(policyType: string, before: Values<V>, after: Values<V>) returns (changes: seq<Change<V>>)
    ensures forall i :: 0 <= i < |changes| ==> changes[i].policyType == policyType && IsMove(changes[i], before, after)
    ensures forall f :: At(before, policyType, f) != At(after, policyType, f) ==> Lists(changes, policyType, f)
    ensures InOrder(changes)
  {
    hide LexLe, NameKey, Precedes;
    var oldFields, newFields := FieldsOf(before, policyType), FieldsOf(after, policyType);
    var names := SortedNames(oldFields.Keys + newFields.Keys);
    changes := [];
    for j := 0 to |names|
      invariant forall i :: 0 <= i < |changes| ==>
                  changes[i].policyType == policyType && IsMove(changes[i], before, after) &&
                    changes[i].field in names[..j]
      invariant forall f :: f in names[..j] && At(before, policyType, f) != At(after, policyType, f) ==>
                  Lists(changes, policyType, f)
      invariant InOrder(changes)
    {
      var was, now := Get(oldFields, names[j]), Get(newFields, names[j]);
      if was != now {
        var change := Change(policyType, names[j], KindOf(was, now), was, now);
        forall f ensures Lists(changes + [change], policyType, f) <==> Lists(changes, policyType, f) || f == names[j] {
          ListsAppend(changes, [change], policyType, f);
          assert [change][0] == change;
        }
        changes := changes + [change];
      }
    }
    assert names[..|names|] == names;
    forall f | At(before, policyType, f) != At(after, policyType, f) ensures Lists(changes, policyType, f) {
      assert f in oldFields.Keys + newFields.Keys;
    }
  }

  /** `diff_values` */
  method DiffValues<V(==)>(before: Values<V>, after: Values<V>) returns (changes: seq<Change<V>>)
    ensures IsDiff(changes, before, after)
  {
    hide LexLe, NameKey, Precedes, Lists, IsMove;
    var types := SortedNames(before.Keys + after.Keys);
    changes := [];
    for i := 0 to |types|
      invariant forall k :: 0 <= k < |changes| ==>
                  IsMove(changes[k], before, after) && changes[k].policyType in types[..i]
      invariant forall t, f :: t in types[..i] && At(before, t, f) != At(after, t, f) ==> Lists(changes, t, f)
      invariant InOrder(changes)
    {
      var more := TypeChanges(types[i], before, after);
      forall t, f ensures Lists(changes + more, t, f) <==> Lists(changes, t, f) || Lists(more, t, f) {
        ListsAppend(changes, more, t, f);
      }
      changes := changes + more;
    }
    assert types[..|types|] == types;
    forall t, f | At(before, t, f) != At(after, t, f) ensures Lists(changes, t, f) {
      assert t in before.Keys + after.Keys;
    }
  }

  // ------------------------------------------------------- what a preview promises

  /** Carrying out one change. */
  function ApplyChange<V>(values: Values<V>, c: Change<V>): Values<V> {
    var fields := FieldsOf(values, c.policyType);
    values[c.policyType := if c.after.Some? then fields[c.field := c.after.value] else fields - {c.field}]
  }

  function ApplyAll<V>(values: Values<V>, changes: seq<Change<V>>): Values<V>
    decreases |changes|
  {
    if changes == [] then values else ApplyAll(ApplyChange(values, changes[0]), changes[1..])
  }

  lemma AppliedAt<V>(values: Values<V>, c: Change<V>, t: string, f: string)
    ensures At(ApplyChange(values, c), t, f) == if c.policyType == t && c.field == f then c.after else At(values, t, f)
  {
  }

  lemma {:induction false} ApplyingReaches<V>(changes: seq<Change<V>>, values: Values<V>, after: Values<V>, t: string,
                                              f: string)
    requires forall i :: 0 <= i < |changes| ==> changes[i].after == At(after, changes[i].policyType, changes[i].field)
    ensures At(ApplyAll(values, changes), t, f) == if Lists(changes, t, f) then At(after, t, f) else At(values, t, f)
    decreases |changes|
  {
    hide At, ApplyChange;
    if changes != [] {
      AppliedAt(values, changes[0], t, f);
      ApplyingReaches(changes[1..], ApplyChange(values, changes[0]), after, t, f);
      assert changes == [changes[0]] + changes[1..];
      ListsAppend([changes[0]], changes[1..], t, f);
      assert [changes[0]][0] == changes[0];
      assert Lists([changes[0]], t, f) <==> changes[0].policyType == t && changes[0].field == f;
    }
  }

  /** Carrying the preview out on the old policy gives the new one, field by field. */
  lemma PreviewIsFaithful<V(!new)>(changes: seq<Change<V>>, before: Values<V>, after: Values<V>)
    requires IsDiff(changes, before, after)
    ensures forall t, f :: At(ApplyAll(before, changes), t, f) == At(after, t, f)
  {
    hide At, Lists;
    forall t, f ensures At(ApplyAll(before, changes), t, f) == At(after, t, f) {
      ApplyingReaches(changes, before, after, t, f);
    }
  }

  /** The preview is empty exactly when nothing moves, and lists no field twice. */
  lemma PreviewIsExact<V(!new)>(changes: seq<Change<V>>, before: Values<V>, after: Values<V>)
    requires IsDiff(changes, before, after)
    ensures changes == [] <==> forall t, f :: At(before, t, f) == At(after, t, f)
    ensures forall i, j :: 0 <= i < j < |changes| ==>
              changes[i].policyType != changes[j].policyType || changes[i].field != changes[j].field
  {
    hide At, LexLe;
    if changes != [] {
      var c := changes[0];
      assert At(before, c.policyType, c.field) != At(after, c.policyType, c.field);
    }
    forall i, j | 0 <= i < j < |changes|
      ensures changes[i].policyType != changes[j].policyType || changes[i].field != changes[j].field
    {
      assert ComesBefore(changes[i], changes[j]);
    }
  }
}
