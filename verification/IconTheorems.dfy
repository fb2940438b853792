/** What the icon search costs, what it returns, and when it can be trusted to find something. */
module IconTheorems {
  import opened Wrappers
  import opened Bytes
  import opened Axml
  import opened ElementTree
  import opened IconSearch
  import Arsc

  // ------------------------------------------------------- work

  function AtLeastOne(n: int): int {
    if n > 1 then n else 1
  }

  /** The budget only shrinks, and every lookup is paid for. */
  ghost predicate Paid(remaining: int, lookups: nat, o: Outcome) {
    o.remaining <= remaining && o.lookups + AtLeastOne(o.remaining) <= lookups + AtLeastOne(remaining)
  }

  lemma {:induction false} SearchIsPaid(app: App, id: nat, depth: nat, adaptive: bool, visited: set<nat>,
                                        remaining: int,
                                        lookups: nat)
    ensures Paid(remaining, lookups, Search(app, id, depth, adaptive, visited, remaining, lookups))
    decreases MAX_DEPTH + 1 - depth, 2, 0
  {
    hide Arsc.Values;
    if depth <= MAX_DEPTH && remaining - 1 > 0 && id !in visited {
      ValuesArePaid(app, Arsc.Values(app.table, id), depth, adaptive, visited + {id}, None, remaining - 1, lookups + 1);
    }
  }

  lemma {:induction false} ValuesArePaid(app: App, values: seq<Arsc.ResourceValue>, depth: nat, adaptive: bool,
                                         visited: set<nat>, best: Option<AppIcon>, remaining: int, lookups: nat)
    requires depth <= MAX_DEPTH
    ensures Paid(remaining, lookups, SearchValues(app, values, depth, adaptive, visited, best, remaining, lookups))
    decreases MAX_DEPTH + 1 - depth, 1, |values|
  {
    hide Raster, Drawable, LayerReferences, Better;
    if values != [] {
      var v := values[0];
      var raster, drawable := Raster(app, v), Drawable(app, v);
      var found :=
        if v.IsReference() then Search(app, v.value, depth + 1, adaptive, visited, remaining, lookups)
        else if drawable.Some? then
          SearchReferences(app, LayerReferences(drawable.value), depth, adaptive || IsAdaptive(drawable.value), visited,
                           remaining, lookups)
        else Outcome(None, remaining, lookups);
      if v.IsReference() {
        SearchIsPaid(app, v.value, depth + 1, adaptive, visited, remaining, lookups);
      } else if drawable.Some? {
        ReferencesArePaid(app, LayerReferences(drawable.value), depth, adaptive || IsAdaptive(drawable.value), visited,
                          remaining, lookups);
      }
      ValuesArePaid(app, values[1..], depth, adaptive, visited,
                    if raster.Some? then Some(Better(best, AppIcon(raster.value.0, raster.value.1, adaptive)))
                    else best,
                    found.remaining, found.lookups);
    }
  }

  lemma {:induction false} ReferencesArePaid(app: App, references: seq<nat>, depth: nat, adaptive: bool,
                                             visited: set<nat>, remaining: int, lookups: nat)
    requires depth <= MAX_DEPTH
    ensures Paid(remaining, lookups, SearchReferences(app, references, depth, adaptive, visited, remaining, lookups))
    decreases MAX_DEPTH + 1 - depth, 0, |references|
  {
    if references != [] {
      SearchIsPaid(app, references[0], depth + 1, adaptive, visited, remaining, lookups);
      var found := Search(app, references[0], depth + 1, adaptive, visited, remaining, lookups);
      ReferencesArePaid(app, references[1..], depth, adaptive, visited, found.remaining, found.lookups);
    }
  }

  // ------------------------------------------------------- chains

  /** How one id leads to the next: an alias, or a drawable document that names it. */
  datatype Step = Alias(to: nat) | Layer(elements: seq<Element>, to: nat)

  ghost predicate StepFrom(app: App, id: nat, step: Step) {
    match step
    case Alias(to) => exists v :: v in Arsc.Values(app.table, id) && v.IsReference() && v.value == to
    case Layer(elements, to) =>
      && to in LayerReferences(elements)
      && exists v :: v in Arsc.Values(app.table, id) && Drawable(app, v) == Some(elements)
  }

  predicate ThroughAdaptive(step: Step) {
    step.Layer? && IsAdaptive(step.elements)
  }

  /** The id itself names this raster file. */
  ghost predicate NamesRaster(app: App, id: nat, icon: AppIcon) {
    exists v :: v in Arsc.Values(app.table, id) && Raster(app, v) == Some((icon.data, icon.mediaType))
  }

  /** Following `steps` from `id`, never back to an id already passed, ends at the icon. */
  ghost predicate Chain(app: App, id: nat, steps: seq<Step>, visited: set<nat>, adaptive: bool, icon: AppIcon)
    decreases |steps|
  {
    id !in visited &&
    if steps == [] then icon.adaptive == adaptive && NamesRaster(app, id, icon)
    else StepFrom(app, id, steps[0]) &&
         Chain(app, steps[0].to, steps[1..], visited + {id}, adaptive || ThroughAdaptive(steps[0]), icon)
  }

  /** A chain of at most `length` steps exists. */
  ghost predicate Reachable(app: App, id: nat, visited: set<nat>, adaptive: bool, icon: AppIcon, length: int) {
    exists steps :: |steps| <= length && Chain(app, id, steps, visited, adaptive, icon)
  }

  lemma ChainGrows(app: App, id: nat, step: Step, visited: set<nat>, adaptive: bool, icon: AppIcon, length: int)
    requires id !in visited && StepFrom(app, id, step)
    requires Reachable(app, step.to, visited + {id}, adaptive || ThroughAdaptive(step), icon, length - 1)
    ensures Reachable(app, id, visited, adaptive, icon, length)
  {
    hide StepFrom;
    var rest :| |rest| <= length - 1 &&
        Chain(app, step.to, rest, visited + {id}, adaptive || ThroughAdaptive(step), icon);
    assert ([step] + rest)[1..] == rest;
    assert Chain(app, id, [step] + rest, visited, adaptive, icon);
  }

  // ------------------------------------------------------- soundness

  lemma {:induction false} SearchIsSound(app: App, id: nat, depth: nat, adaptive: bool, visited: set<nat>,
                                         remaining: int, lookups: nat)
    ensures var o := Search(app, id, depth, adaptive, visited, remaining, lookups);
            o.icon.Some? ==> Reachable(app, id, visited, adaptive, o.icon.value, MAX_DEPTH - depth)
    decreases MAX_DEPTH + 1 - depth, 2, 0
  {
    hide Arsc.Values;
    if depth <= MAX_DEPTH && remaining - 1 > 0 && id !in visited {
      ValuesAreSound(app, id, Arsc.Values(app.table, id), depth, adaptive, visited, None, remaining - 1, lookups + 1);
    }
  }

  /** A raster named by the id is a chain of no steps. */
  lemma RasterIsReachable(app: App, id: nat, visited: set<nat>, icon: AppIcon, length: nat)
    requires id !in visited && NamesRaster(app, id, icon)
    ensures Reachable(app, id, visited, icon.adaptive, icon, length)
  {
    hide NamesRaster;
    assert Chain(app, id, [], visited, icon.adaptive, icon);
  }

  lemma {:induction false} ValuesAreSound(app: App, id: nat, values: seq<Arsc.ResourceValue>, depth: nat,
                                          adaptive: bool,
                                          visited: set<nat>, best: Option<AppIcon>, remaining: int, lookups: nat)
    requires depth <= MAX_DEPTH && id !in visited
    requires forall v :: v in values ==> v in Arsc.Values(app.table, id)
    requires best.Some? ==> best.value.adaptive == adaptive && NamesRaster(app, id, best.value)
    ensures var o := SearchValues(app, values, depth, adaptive, visited + {id}, best, remaining, lookups);
            o.icon.Some? ==> Reachable(app, id, visited, adaptive, o.icon.value, MAX_DEPTH - depth)
    decreases MAX_DEPTH + 1 - depth, 1, |values|
  {
    hide Arsc.Values, Raster, Drawable, LayerReferences, Reachable;
    if values == [] {
      if best.Some? {
        RasterIsReachable(app, id, visited, best.value, MAX_DEPTH - depth);
      }
    } else {
      var v := values[0];
      assert v in Arsc.Values(app.table, id);
      var raster, drawable := Raster(app, v), Drawable(app, v);
      var found := FirstValueIsSound(app, id, v, depth, adaptive, visited, remaining, lookups);
      if found.icon.None? {
        var better := if raster.Some? then Some(Better(best, AppIcon(raster.value.0, raster.value.1, adaptive)))
          else best;
        ValuesAreSound(app, id, values[1..], depth, adaptive, visited, better, found.remaining, found.lookups);
      }
    }
  }

  lemma FirstValueIsSound(app: App, id: nat, v: Arsc.ResourceValue, depth: nat, adaptive: bool, visited: set<nat>,
                          remaining: int, lookups: nat)
    returns (found: Outcome)
    requires depth <= MAX_DEPTH && id !in visited && v in Arsc.Values(app.table, id)
    ensures found ==
            if v.IsReference() then Search(app, v.value, depth + 1, adaptive, visited + {id}, remaining, lookups)
            else if Drawable(app, v).Some? then
              var elements := Drawable(app, v).value;
              SearchReferences(app, LayerReferences(elements), depth, adaptive || IsAdaptive(elements), visited + {id},
                               remaining, lookups)
            else Outcome(None, remaining, lookups)
    ensures found.icon.Some? ==> Reachable(app, id, visited, adaptive, found.icon.value, MAX_DEPTH - depth)
    decreases MAX_DEPTH + 1 - depth, 1, 0
  {
    hide Arsc.Values, Drawable, LayerReferences, Reachable;
    found := Outcome(None, remaining, lookups);
    if v.IsReference() {
      found := Search(app, v.value, depth + 1, adaptive, visited + {id}, remaining, lookups);
      SearchIsSound(app, v.value, depth + 1, adaptive, visited + {id}, remaining, lookups);
      if found.icon.Some? {
        ChainGrows(app, id, Alias(v.value), visited, adaptive, found.icon.value, MAX_DEPTH - depth);
      }
    } else if Drawable(app, v).Some? {
      var elements := Drawable(app, v).value;
      found := SearchReferences(app, LayerReferences(elements), depth, adaptive || IsAdaptive(elements), visited + {id},
                                remaining, lookups);
      assert exists w :: w in Arsc.Values(app.table, id) && Drawable(app, w) == Some(elements);
      ReferencesAreSound(app, id, elements, LayerReferences(elements), depth, adaptive, visited, remaining, lookups);
    }
  }

  lemma {:induction false} ReferencesAreSound(app: App, id: nat, elements: seq<Element>, references: seq<nat>,
                                              depth: nat, adaptive: bool, visited: set<nat>, remaining: int,
                                                lookups: nat)
    requires depth <= MAX_DEPTH && id !in visited
    requires exists v :: v in Arsc.Values(app.table, id) && Drawable(app, v) == Some(elements)
    requires forall r :: r in references ==> r in LayerReferences(elements)
    ensures var o := SearchReferences(app, references, depth, adaptive || IsAdaptive(elements), visited + {id},
                                      remaining, lookups);
            o.icon.Some? ==> Reachable(app, id, visited, adaptive, o.icon.value, MAX_DEPTH - depth)
    decreases MAX_DEPTH + 1 - depth, 0, |references|
  {
    hide Arsc.Values, Drawable, LayerReferences, Reachable, IsAdaptive;
    if references != [] {
      var nested := adaptive || IsAdaptive(elements);
      var found := Search(app, references[0], depth + 1, nested, visited + {id}, remaining, lookups);
      SearchIsSound(app, references[0], depth + 1, nested, visited + {id}, remaining, lookups);
      if found.icon.Some? {
        ChainGrows(app, id, Layer(elements, references[0]), visited, adaptive, found.icon.value, MAX_DEPTH - depth);
      } else {
        ReferencesAreSound(app, id, elements, references[1..], depth, adaptive, visited, found.remaining,
                           found.lookups);
      }
    }
  }

  // ------------------------------------------------------- completeness

  /** While the budget lasts, a chain that fits the depth limit is never missed. */
  lemma {:induction false} SearchIsComplete(app: App, id: nat, depth: nat, adaptive: bool, visited: set<nat>,
                                            remaining: int, lookups: nat, steps: seq<Step>, flag: bool, icon: AppIcon)
    requires Search(app, id, depth, adaptive, visited, remaining, lookups).remaining > 0
    requires |steps| <= MAX_DEPTH - depth && Chain(app, id, steps, visited, flag, icon)
    ensures Search(app, id, depth, adaptive, visited, remaining, lookups).icon.Some?
    decreases MAX_DEPTH + 1 - depth, 2, 0
  {
    hide Arsc.Values;
    SearchIsPaid(app, id, depth, adaptive, visited, remaining, lookups);
    ValuesAreComplete(app, id, Arsc.Values(app.table, id), depth, adaptive, visited, None, remaining - 1, lookups + 1,
                      steps, flag, icon);
  }

  /** Does this value take the first step of the chain, or name its raster? */
  ghost predicate Serves(app: App, v: Arsc.ResourceValue, steps: seq<Step>, icon: AppIcon) {
    if steps == [] then Raster(app, v) == Some((icon.data, icon.mediaType))
    else match steps[0]
      case Alias(to) => v.IsReference() && v.value == to
      case Layer(elements, to) => Drawable(app, v) == Some(elements) && to in LayerReferences(elements)
  }

  lemma DrawableIsNoReference(app: App, v: Arsc.ResourceValue)
    ensures Drawable(app, v).Some? ==> !v.IsReference()
  {
  }

  lemma {:induction false} ValuesAreComplete(app: App, id: nat, values: seq<Arsc.ResourceValue>, depth: nat,
                                             adaptive: bool, visited: set<nat>, best: Option<AppIcon>, remaining: int,
                                               lookups: nat, steps: seq<Step>, flag: bool, icon: AppIcon)
    requires depth <= MAX_DEPTH
    requires SearchValues(app, values, depth, adaptive, visited + {id}, best, remaining, lookups).remaining > 0
    requires |steps| <= MAX_DEPTH - depth && Chain(app, id, steps, visited, flag, icon)
    requires best.Some? || exists v :: v in values && Serves(app, v, steps, icon)
    ensures SearchValues(app, values, depth, adaptive, visited + {id}, best, remaining, lookups).icon.Some?
    decreases MAX_DEPTH + 1 - depth, 1, |values|
  {
    hide Raster, Drawable, LayerReferences, Better, IsAdaptive, StepFrom, NamesRaster;
    if values != [] {
      var v := values[0];
      assert values == [v] + values[1..];
      var raster, drawable := Raster(app, v), Drawable(app, v);
      DrawableIsNoReference(app, v);
      var found :=
        if v.IsReference() then Search(app, v.value, depth + 1, adaptive, visited + {id}, remaining, lookups)
        else if drawable.Some? then
          SearchReferences(app, LayerReferences(drawable.value), depth, adaptive || IsAdaptive(drawable.value),
                           visited + {id}, remaining, lookups)
        else Outcome(None, remaining, lookups);
      var better := if raster.Some? then Some(Better(best, AppIcon(raster.value.0, raster.value.1, adaptive)))
        else best;
      if found.icon.None? {
        ValuesArePaid(app, values[1..], depth, adaptive, visited + {id}, better, found.remaining, found.lookups);
        if Serves(app, v, steps, icon) && steps != [] {
          if v.IsReference() {
            SearchIsComplete(app, v.value, depth + 1, adaptive, visited + {id}, remaining, lookups,
                             steps[1..], flag || ThroughAdaptive(steps[0]), icon);
          } else {
            ReferencesAreComplete(app, LayerReferences(drawable.value), depth, adaptive || IsAdaptive(drawable.value),
                                  visited + {id},
                                  remaining, lookups, steps[0].to, steps[1..], flag || ThroughAdaptive(steps[0]), icon);
          }
        }
        ValuesAreComplete(app, id, values[1..], depth, adaptive, visited, better, found.remaining, found.lookups, steps,
                          flag, icon);
      }
    }
  }

  lemma {:induction false} ReferencesAreComplete(app: App, references: seq<nat>, depth: nat, adaptive: bool,
                                                 visited: set<nat>, remaining: int, lookups: nat, to: nat,
                                                   steps: seq<Step>, flag: bool, icon: AppIcon)
    requires depth <= MAX_DEPTH && to in references
    requires SearchReferences(app, references, depth, adaptive, visited, remaining, lookups).remaining > 0
    requires |steps| <= MAX_DEPTH - depth - 1 && Chain(app, to, steps, visited, flag, icon)
    ensures SearchReferences(app, references, depth, adaptive, visited, remaining, lookups).icon.Some?
    decreases MAX_DEPTH + 1 - depth, 0, |references|
  {
    hide Chain;
    var found := Search(app, references[0], depth + 1, adaptive, visited, remaining, lookups);
    if found.icon.None? {
      ReferencesArePaid(app, references[1..], depth, adaptive, visited, found.remaining, found.lookups);
      if to == references[0] {
        SearchIsComplete(app, to, depth + 1, adaptive, visited, remaining, lookups, steps, flag, icon);
      }
      ReferencesAreComplete(app, references[1..], depth, adaptive, visited, found.remaining, found.lookups, to, steps,
                            flag, icon);
    }
  }

  // ------------------------------------------------------- main results

  /** The ids a chain passes through. */
  function IdsOf(id: nat, steps: seq<Step>): seq<nat>
    decreases |steps|
  {
    if steps == [] then [id] else [id] + IdsOf(steps[0].to, steps[1..])
  }

  predicate RepeatFree(ids: seq<nat>) {
    forall i, j :: 0 <= i < j < |ids| ==> ids[i] != ids[j]
  }

  lemma {:induction false} ChainFacts(app: App, id: nat, steps: seq<Step>, visited: set<nat>, adaptive: bool,
                                      icon: AppIcon)
    requires Chain(app, id, steps, visited, adaptive, icon)
    ensures |IdsOf(id, steps)| == |steps| + 1 && RepeatFree(IdsOf(id, steps))
    ensures forall i :: i in IdsOf(id, steps) ==> i !in visited
    ensures icon.adaptive <==> adaptive || exists step :: step in steps && ThroughAdaptive(step)
    ensures MediaTypeOf(icon.data) == Some(icon.mediaType) && |icon.data| <= 1024 * 1024
    decreases |steps|
  {
    hide StepFrom, ThroughAdaptive, Arsc.Values, MediaTypeOf;
    if steps != [] {
      var rest := IdsOf(steps[0].to, steps[1..]);
      ChainFacts(app, steps[0].to, steps[1..], visited + {id}, adaptive || ThroughAdaptive(steps[0]), icon);
      assert steps == [steps[0]] + steps[1..];
      assert id !in rest;
    }
  }

  /** `_resolve` from the top, with a fresh budget. */
  function FindIcon(app: App, id: nat): Outcome {
    Search(app, id, 0, false, {}, MAX_LOOKUPS, 0)
  }

  /**
   However cyclic or wide the table: fewer than 4,096 lookups, and an icon that is returned is a
   recognised raster of at most 1 MiB at the end of a repeat-free chain of at most seven ids,
   flagged adaptive exactly when the chain passes through an adaptive-icon document.
   */
  lemma FoundIconIsGenuine(app: App, id: nat)
    ensures FindIcon(app, id).lookups < 4096
    ensures FindIcon(app, id).icon.Some? ==>
              var icon := FindIcon(app, id).icon.value;
              && MediaTypeOf(icon.data) == Some(icon.mediaType) && |icon.data| <= 1024 * 1024
              && exists steps :: Chain(app, id, steps, {}, false, icon)
                   && |IdsOf(id, steps)| <= 7 && RepeatFree(IdsOf(id, steps))
                   && (icon.adaptive <==> exists step :: step in steps && ThroughAdaptive(step))
  {
    hide Chain, Search, MediaTypeOf, RepeatFree;
    SearchIsPaid(app, id, 0, false, {}, MAX_LOOKUPS, 0);
    SearchIsSound(app, id, 0, false, {}, MAX_LOOKUPS, 0);
    if FindIcon(app, id).icon.Some? {
      var icon := FindIcon(app, id).icon.value;
      var steps :| |steps| <= MAX_DEPTH - 0 && Chain(app, id, steps, {}, false, icon);
      ChainFacts(app, id, steps, {}, false, icon);
    }
  }

  /** With budget to spare, an icon is found exactly when some chain of at most seven ids has one. */
  lemma IconIsFoundIfItCanBe(app: App, id: nat)
    requires FindIcon(app, id).remaining > 0
    ensures FindIcon(app, id).icon.Some? <==> exists icon :: Reachable(app, id, {}, false, icon, 6)
  {
    hide Chain, Search;
    SearchIsSound(app, id, 0, false, {}, MAX_LOOKUPS, 0);
    if icon :| Reachable(app, id, {}, false, icon, 6) {
      var steps :| |steps| <= MAX_DEPTH && Chain(app, id, steps, {}, false, icon);
      SearchIsComplete(app, id, 0, false, {}, MAX_LOOKUPS, 0, steps, false, icon);
    }
  }

  // ------------------------------------------------------- tables the budget is enough for

  /** The ids one resource's values lead to: aliases, and the references of drawable documents. */
  function Outgoing(app: App, values: seq<Arsc.ResourceValue>): seq<nat> {
    if values == [] then []
    else
      var v, drawable := values[0], Drawable(app, values[0]);
      (if v.IsReference() then [v.value] else if drawable.Some? then LayerReferences(drawable.value) else [])
      + Outgoing(app, values[1..])
  }

  /** How many walks through the table begin at this id and stay within the depth limit. */
  function Walks(app: App, id: nat, depth: nat): nat
    decreases MAX_DEPTH + 1 - depth, 1, 0
  {
    if depth > MAX_DEPTH then 0 else 1 + WalksFrom(app, Outgoing(app, Arsc.Values(app.table, id)), depth + 1)
  }

  function WalksFrom(app: App, ids: seq<nat>, depth: nat): nat
    requires depth <= MAX_DEPTH + 1
    decreases MAX_DEPTH + 1 - depth, 2, |ids|
  {
    if ids == [] then 0 else Walks(app, ids[0], depth) + WalksFrom(app, ids[1..], depth)
  }

  lemma {:induction false} WalksAppend(app: App, a: seq<nat>, b: seq<nat>, depth: nat)
    requires depth <= MAX_DEPTH + 1
    ensures WalksFrom(app, a + b, depth) == WalksFrom(app, a, depth) + WalksFrom(app, b, depth)
    decreases |a|
  {
    hide Walks;
    if a == [] {
      assert a + b == b;
    } else {
      assert (a + b)[0] == a[0] && (a + b)[1..] == a[1..] + b;
      WalksAppend(app, a[1..], b, depth);
    }
  }

  lemma WalksFromOne(app: App, id: nat, depth: nat)
    requires depth <= MAX_DEPTH + 1
    ensures WalksFrom(app, [id], depth) == Walks(app, id, depth)
  {
    assert [id][1..] == [];
  }

  /** A search spends no more than the walks there are. */
  lemma {:induction false} SearchCosts(app: App, id: nat, depth: nat, adaptive: bool, visited: set<nat>, remaining: int,
                                       lookups: nat)
    ensures Search(app, id, depth, adaptive, visited, remaining, lookups).remaining >= remaining - Walks(app, id, depth)
    decreases MAX_DEPTH + 1 - depth, 2, 0
  {
    hide Arsc.Values, Outgoing;
    if depth <= MAX_DEPTH && remaining - 1 > 0 && id !in visited {
      ValuesCost(app, Arsc.Values(app.table, id), depth, adaptive, visited + {id}, None, remaining - 1, lookups + 1);
    }
  }

  lemma {:induction false} ValuesCost(app: App, values: seq<Arsc.ResourceValue>, depth: nat, adaptive: bool,
                                      visited: set<nat>, best: Option<AppIcon>, remaining: int, lookups: nat)
    requires depth <= MAX_DEPTH
    ensures SearchValues(app, values, depth, adaptive, visited, best, remaining, lookups).remaining
            >= remaining - WalksFrom(app, Outgoing(app, values), depth + 1)
    decreases MAX_DEPTH + 1 - depth, 1, |values|
  {
    hide Raster, Drawable, LayerReferences, Better, WalksFrom;
    if values != [] {
      var v := values[0];
      var raster, drawable := Raster(app, v), Drawable(app, v);
      var found :=
        if v.IsReference() then Search(app, v.value, depth + 1, adaptive, visited, remaining, lookups)
        else if drawable.Some? then
          SearchReferences(app, LayerReferences(drawable.value), depth, adaptive || IsAdaptive(drawable.value), visited,
                           remaining, lookups)
        else Outcome(None, remaining, lookups);
      var here := if v.IsReference() then [v.value] else if drawable.Some? then LayerReferences(drawable.value) else [];
      WalksAppend(app, here, Outgoing(app, values[1..]), depth + 1);
      if v.IsReference() {
        WalksFromOne(app, v.value, depth + 1);
        SearchCosts(app, v.value, depth + 1, adaptive, visited, remaining, lookups);
      } else if drawable.Some? {
        ReferencesCost(app, LayerReferences(drawable.value), depth, adaptive || IsAdaptive(drawable.value), visited,
                       remaining, lookups);
      }
      ValuesCost(app, values[1..], depth, adaptive, visited,
                 if raster.Some? then Some(Better(best, AppIcon(raster.value.0, raster.value.1, adaptive))) else best,
                 found.remaining, found.lookups);
    }
  }

  lemma {:induction false} ReferencesCost(app: App, references: seq<nat>, depth: nat, adaptive: bool, visited: set<nat>,
                                          remaining: int, lookups: nat)
    requires depth <= MAX_DEPTH
    ensures SearchReferences(app, references, depth, adaptive, visited, remaining, lookups).remaining
            >= remaining - WalksFrom(app, references, depth + 1)
    decreases MAX_DEPTH + 1 - depth, 0, |references|
  {
    hide Walks;
    if references != [] {
      SearchCosts(app, references[0], depth + 1, adaptive, visited, remaining, lookups);
      var found := Search(app, references[0], depth + 1, adaptive, visited, remaining, lookups);
      ReferencesCost(app, references[1..], depth, adaptive, visited, found.remaining, found.lookups);
    }
  }

  /** No id leads to more than three. */
  ghost predicate IsNarrow(app: App) {
    forall id :: |Outgoing(app, Arsc.Values(app.table, id))| <= 3
  }

  /** 1 + 3 + 9 + … down to the depth limit. */
  function NarrowWalks(depth: nat): nat
    decreases MAX_DEPTH + 1 - depth
  {
    if depth > MAX_DEPTH then 0 else 1 + 3 * NarrowWalks(depth + 1)
  }

  lemma {:induction false} NarrowHasFewWalks(app: App, id: nat, depth: nat)
    requires IsNarrow(app)
    ensures Walks(app, id, depth) <= NarrowWalks(depth)
    decreases MAX_DEPTH + 1 - depth, 1, 0
  {
    hide Arsc.Values, Outgoing;
    if depth <= MAX_DEPTH {
      var ids := Outgoing(app, Arsc.Values(app.table, id));
      NarrowWalksFrom(app, ids, depth + 1);
      assert |ids| * NarrowWalks(depth + 1) <= 3 * NarrowWalks(depth + 1) by {
        TimesAtMost(|ids|, 3, NarrowWalks(depth + 1));
      }
    }
  }

  lemma TimesAtMost(a: nat, b: nat, n: nat)
    requires a <= b
    ensures a * n <= b * n
  {
  }

  lemma {:induction false} NarrowWalksFrom(app: App, ids: seq<nat>, depth: nat)
    requires IsNarrow(app) && depth <= MAX_DEPTH + 1
    ensures WalksFrom(app, ids, depth) <= |ids| * NarrowWalks(depth)
    decreases MAX_DEPTH + 1 - depth, 2, |ids|
  {
    hide Walks, NarrowWalks, IsNarrow;
    if ids != [] {
      NarrowHasFewWalks(app, ids[0], depth);
      NarrowWalksFrom(app, ids[1..], depth);
    }
  }

  /**
   In a table with fewer than 4,096 walks of at most seven ids from this one, an icon is found
   exactly when some chain has one; and so in every table where no id leads to more than three.
   */
  lemma SmallTablesAreSearchedWhole(app: App, id: nat)
    requires Walks(app, id, 0) < 4096 || IsNarrow(app)
    ensures FindIcon(app, id).icon.Some? <==> exists icon :: Reachable(app, id, {}, false, icon, 6)
  {
    hide Walks, Search, Reachable, IsNarrow, NarrowWalks;
    SearchCosts(app, id, 0, false, {}, MAX_LOOKUPS, 0);
    if IsNarrow(app) {
      NarrowHasFewWalks(app, id, 0);
      SevenLevels();
    }
    IconIsFoundIfItCanBe(app, id);
  }

  lemma SevenLevels()
    ensures NarrowWalks(0) == 1093
  {
    assert NarrowWalks(6) == 1 && NarrowWalks(5) == 4 && NarrowWalks(4) == 13 && NarrowWalks(3) == 40;
  }

  // ------------------------------------------------------- layers

  lemma {:induction false} ScanReaches(elements: seq<Element>, i: nat, child: nat, depth: int)
    requires i <= child < |elements|
    ensures ScanFrom(elements, i, child, depth) <==> forall j :: i <= j < child ==> elements[j].depth > depth
    decreases |elements| - i
  {
    if i < child {
      ScanReaches(elements, i + 1, child, depth);
    }
  }

  lemma {:induction false} ScanMisses(elements: seq<Element>, i: nat, child: nat, depth: int)
    requires child < i
    ensures !ScanFrom(elements, i, child, depth)
    decreases |elements| - i
  {
    if i < |elements| {
      ScanMisses(elements, i + 1, child, depth);
    }
  }

  /** The layer chosen by name is the first element equal to itself. */
  lemma LayerIsItsOwnIndex(elements: seq<Element>, layer: nat)
    requires layer < |elements| && layer == FirstNamed(elements, elements[layer].name)
    ensures IndexOf(elements, elements[layer]) == layer
  {
  }

  /** What `_within` tests: everything strictly between the layer and the child is deeper than the layer. */
  lemma WithinMeans(elements: seq<Element>, child: nat, layer: nat)
    requires child < |elements| && layer < |elements| && layer == FirstNamed(elements, elements[layer].name)
    ensures Within(elements, child, layer) <==>
            layer < child && forall j :: layer < j < child ==> elements[j].depth > elements[layer].depth
  {
    hide IndexOf, FirstNamed;
    LayerIsItsOwnIndex(elements, layer);
    if layer < child {
      ScanReaches(elements, layer + 1, child, elements[layer].depth);
    } else {
      ScanMisses(elements, layer + 1, child, elements[layer].depth);
    }
  }

  /** In any document tree, the guarded test selects exactly the layer's strict descendants. */
  lemma InLayerIsDescendant(forest: seq<Tree>, child: nat, layer: nat)
    requires var elements := Preorder(forest, 0);
             child < |elements| && layer < |elements| && layer == FirstNamed(elements, elements[layer].name)
    ensures |Paths(forest, [], 0)| == |Preorder(forest, 0)|
    ensures InLayer(Preorder(forest, 0), child, layer) <==>
              ProperPrefix(Paths(forest, [], 0)[layer], Paths(forest, [], 0)[child])
  {
    hide Preorder, Paths, IndexOf, FirstNamed, ProperPrefix, Within;
    WithinMeans(Preorder(forest, 0), child, layer);
    DescendantsAreDeeper(forest, [], 0, 0, layer, child);
  }

  /** Without the depth guard it also takes the element right after the layer's last descendant. */
  lemma WithinAloneIsTooWide(a: Tree, b: Tree)
    requires a.children == [] && b.children == [] && a.name != b.name
    ensures var elements := Preorder([a, b], 0);
            && |elements| == |Paths([a, b], [], 0)| == 2 && Within(elements, 1, 0) && !InLayer(elements, 1, 0)
            && !ProperPrefix(Paths([a, b], [], 0)[0], Paths([a, b], [], 0)[1])
  {
    var elements := Preorder([a, b], 0);
    assert [a, b][1..] == [b] && Preorder([b], 0) == [Element(b.name, b.attributes, 0)];
    assert elements == [Element(a.name, a.attributes, 0), Element(b.name, b.attributes, 0)];
    var root: seq<nat> := [];
    assert root + [0] == [0] && root + [1] == [1];
    assert Paths([], root + [1], 0) == [] && Paths([b][1..], root, 2) == [];
    assert Paths([b], root, 1) == [root + [1]];
    assert Paths([a, b], root, 0) == [root + [0]] + Paths(a.children, root + [0], 0) + Paths([b], root, 1);
    assert IndexOf(elements, elements[0]) == 0;
  }

  // ------------------------------------------------------- symbolic references

  lemma {:induction false} HexRoundTrip(n: nat, digits: nat)
    ensures ParseHex(Hex(n, digits)) == Some(n % Power16(digits))
    decreases digits
  {
    if digits > 0 {
      var s := Hex(n, digits);
      assert s[..|s| - 1] == Hex(n / 16, digits - 1) && s[|s| - 1] == HexDigit(n % 16);
      HexRoundTrip(n / 16, digits - 1);
      DigitRoundTrip(n % 16);
      LowDigits(n, Power16(digits - 1));
    }
  }

  function Power16(digits: nat): (p: nat)
    ensures p > 0
  {
    if digits == 0 then 1 else 16 * Power16(digits - 1)
  }

  lemma DigitRoundTrip(d: nat)
    requires d < 16
    ensures HexValue(HexDigit(d)) == Some(d)
  {
    assert "0123456789abcdef"[d] == if d < 10 then (d + '0' as int) as char else (d - 10 + 'a' as int) as char;
  }

  lemma LowDigits(n: nat, p: nat)
    requires p > 0
    ensures n / 16 % p * 16 + n % 16 == n % (16 * p)
  {
    var q, r := n / 16 / p, n / 16 % p * 16 + n % 16;
    assert n / 16 == q * p + n / 16 % p;
    assert q * p * 16 == q * (16 * p);
    UniqueRemainder(n, 16 * p, q, r);
  }

  lemma MultipleAtLeast(d: nat, k: nat)
    requires k >= 1
    ensures d * k >= d
  {
  }

  lemma UniqueRemainder(n: nat, d: nat, q: nat, r: nat)
    requires d > 0 && n == q * d + r && r < d
    ensures n % d == r
  {
    var k: int := n / d - q;
    assert n == d * (n / d) + n % d;
    assert d * k == d * (n / d) - d * q;
    if k > 0 {
      MultipleAtLeast(d, k);
    } else if k < 0 {
      assert d * (-k) == -(d * k);
      MultipleAtLeast(d, -k);
    }
  }

  /** The id the manifest parser writes symbolically is the id the icon search reads back. */
  lemma ReferenceRoundTrip(id: nat)
    requires id < U32_LIMIT
    ensures ReferenceIn(Text(ReferenceText(id))) == Some(id)
  {
    HexRoundTrip(id, 8);
    assert ReferenceText(id)[3..] == Hex(id, 8) && ReferenceText(id)[..3] == "@0x";
    assert Power16(8) == 16 * Power16(7) && Power16(7) == 16 * Power16(6) && Power16(6) == 16 * Power16(5);
    assert Power16(5) == 16 * Power16(4) && Power16(4) == 16 * Power16(3) && Power16(3) == 16 * Power16(2) == 16 * 256;
  }
}
