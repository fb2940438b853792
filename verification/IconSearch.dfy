/** The search for an app's launcher icon through a resource table that may be cyclic or wide. */
module IconSearch {
  import opened Wrappers
  import opened Bytes
  import opened Axml
  import Arsc

  const PNG_MAGIC: bytes := [0x89, 0x50, 0x4E, 0x47, 0x0D, 0x0A, 0x1A, 0x0A]
  const RIFF: bytes := [0x52, 0x49, 0x46, 0x46]
  const WEBP: bytes := [0x57, 0x45, 0x42, 0x50]
  const JPEG_MAGIC: bytes := [0xFF, 0xD8, 0xFF]
  const AXML_MAGIC: bytes := [0x03, 0x00, 0x08, 0x00]
  const MAX_DEPTH: nat := 6
  const MAX_LOOKUPS: nat := 4096
  const MAX_ICON_BYTES: nat := 1_048_576

  datatype MediaType = Png | Webp | Jpeg

  datatype AppIcon = AppIcon(data: bytes, mediaType: MediaType, adaptive: bool)

  /** The two things the search reads: the resource table and the archive's entries. */
  datatype App = App(table: Arsc.Tables, files: map<string, bytes>)

  function MediaTypeOf(blob: bytes): Option<MediaType> {
    if Slice(blob, 0, 8) == PNG_MAGIC then Some(Png)
    else if Slice(blob, 0, 4) == RIFF && Slice(blob, 8, 12) == WEBP then Some(Webp)
    else if Slice(blob, 0, 3) == JPEG_MAGIC then Some(Jpeg)
    else None
  }

  predicate IsBinaryXml(blob: bytes) {
    Slice(blob, 0, 4) == AXML_MAGIC
  }

  // ------------------------------------------------------------------ references in a drawable

  function HexValue(c: char): Option<nat> {
    if '0' <= c <= '9' then Some(c as int - '0' as int)
    else if 'a' <= c <= 'f' then Some(c as int - 'a' as int + 10)
    else if 'A' <= c <= 'F' then Some(c as int - 'A' as int + 10)
    else None
  }

  /** The digits of `s` read in base 16; None when one is not a digit. */
  function ParseHex(s: string): Option<nat> {
    if s == "" then Some(0)
    else
      var before, last := ParseHex(s[..|s| - 1]), HexValue(s[|s| - 1]);
      if before.None? || last.None? then None else Some(before.value * 16 + last.value)
  }

  /** The id an attribute value refers to, if it has the symbolic form. */
  function ReferenceIn(v: Value): Option<nat> {
    if v.Text? && |v.text| > 3 && v.text[..3] == "@0x" then ParseHex(v.text[3..]) else None
  }

  /** `_references` */
  function ReferencesOf(attributes: Attributes): seq<nat> {
    if attributes == [] then []
    else
      var r := ReferenceIn(attributes[0].1);
      (if r.Some? then [r.value] else []) + ReferencesOf(attributes[1..])
  }

  /** Position of the first element with this name, or the length. */
  function FirstNamed(elements: seq<Element>, name: string): (i: nat)
    ensures i <= |elements|
    ensures i < |elements| ==> elements[i].name == name
    ensures forall j :: 0 <= j < i ==> elements[j].name != name
  {
    if elements == [] || elements[0].name == name then 0 else 1 + FirstNamed(elements[1..], name)
  }

  /** `elements.index(x)`: the first element equal to `x`. */
  function IndexOf(elements: seq<Element>, x: Element): (i: nat)
    requires x in elements
    ensures i < |elements| && elements[i] == x
    ensures forall j :: 0 <= j < i ==> elements[j] != x
  {
    if elements[0] == x then 0 else 1 + IndexOf(elements[1..], x)
  }

  /** The scan of `_within` from position `i` on. */
  predicate ScanFrom(elements: seq<Element>, i: nat, child: nat, depth: int)
    decreases |elements| - i
  {
    i < |elements| && (i == child || (elements[i].depth > depth && ScanFrom(elements, i + 1, child, depth)))
  }

  /** `_within`, for elements given by position. */
  predicate Within(elements: seq<Element>, child: nat, layer: nat)
    requires child < |elements| && layer < |elements|
  {
    ScanFrom(elements, IndexOf(elements, elements[layer]) + 1, child, elements[layer].depth)
  }

  predicate InLayer(elements: seq<Element>, child: nat, layer: nat)
    requires child < |elements| && layer < |elements|
  {
    elements[child].depth > elements[layer].depth && Within(elements, child, layer)
  }

  /** References carried by the elements inside a layer, from position `i` on. */
  function ReferencesInside(elements: seq<Element>, layer: nat, i: nat): seq<nat>
    requires layer < |elements| && i <= |elements|
    decreases |elements| - i
  {
    if i == |elements| then []
    else (if InLayer(elements, i, layer) then ReferencesOf(elements[i].attributes) else []) +
           ReferencesInside(elements, layer, i + 1)
  }

  function ReferencesOfLayer(elements: seq<Element>, name: string): seq<nat> {
    var layer := FirstNamed(elements, name);
    if layer == |elements| then []
    else ReferencesOf(elements[layer].attributes) + ReferencesInside(elements, layer, 0)
  }

  function AllReferences(elements: seq<Element>): seq<nat> {
    if elements == [] then [] else ReferencesOf(elements[0].attributes) + AllReferences(elements[1..])
  }

  predicate IsAdaptive(elements: seq<Element>) {
    elements != [] && elements[0].name == "adaptive-icon"
  }

  /** `_layer_references`: the foreground's before the background's, else document order. */
  function LayerReferences(elements: seq<Element>): seq<nat> {
    if IsAdaptive(elements) then ReferencesOfLayer(elements, "foreground") + ReferencesOfLayer(elements, "background")
    else AllReferences(elements)
  }

  // ------------------------------------------------------------------ the search

  /** The result of a search, with what is left of the budget and how often the table was asked. */
  datatype Outcome = Outcome(icon: Option<AppIcon>, remaining: int, lookups: nat)

  /** A drawable document worth descending into: binary XML that parses and is not a vector. */
  function Drawable(app: App, v: Arsc.ResourceValue): Option<seq<Element>> {
    if v.IsReference() || !v.IsFile() || v.text.value !in app.files then None
    else
      var blob := app.files[v.text.value];
      if MediaTypeOf(blob).Some? || !IsBinaryXml(blob) then None
      else
        var elements := Parsed(blob);
        if elements.Err? || (elements.value != [] && elements.value[0].name == "vector") then None
          else Some(elements.value)
  }

  /** A raster the value names directly, if it is recognised and small enough. */
  function Raster(app: App, v: Arsc.ResourceValue): Option<(bytes, MediaType)> {
    if v.IsReference() || !v.IsFile() || v.text.value !in app.files then None
    else
      var blob := app.files[v.text.value];
      if MediaTypeOf(blob).None? || |blob| > MAX_ICON_BYTES then None else Some((blob, MediaTypeOf(blob).value))
  }

  /** The larger file is the better artwork; the earlier one on a tie. */
  function Better(best: Option<AppIcon>, candidate: AppIcon): AppIcon {
    if best.None? || |candidate.data| > |best.value.data| then candidate else best.value
  }

  /** `_resolve` */
  function Search(app: App, id: nat, depth: nat, adaptive: bool, visited: set<nat>, remaining: int,
                  lookups: nat): Outcome
    decreases MAX_DEPTH + 1 - depth, 2, 0
  {
    if depth > MAX_DEPTH then Outcome(None, remaining, lookups)
    else if remaining - 1 <= 0 || id in visited then Outcome(None, remaining - 1, lookups)
    else SearchValues(app, Arsc.Values(app.table, id), depth, adaptive, visited + {id}, None, remaining - 1,
                      lookups + 1)
  }

  function SearchValues(app: App, values: seq<Arsc.ResourceValue>, depth: nat, adaptive: bool, visited: set<nat>,
                        best: Option<AppIcon>, remaining: int, lookups: nat): Outcome
    requires depth <= MAX_DEPTH
    decreases MAX_DEPTH + 1 - depth, 1, |values|
  {
    if values == [] then Outcome(best, remaining, lookups)
    else
      var v := values[0];
      var raster, drawable := Raster(app, v), Drawable(app, v);
      var found :=
        if v.IsReference() then Search(app, v.value, depth + 1, adaptive, visited, remaining, lookups)
        else if drawable.Some? then
          SearchReferences(app, LayerReferences(drawable.value), depth, adaptive || IsAdaptive(drawable.value), visited,
                           remaining, lookups)
        else Outcome(None, remaining, lookups);
      if found.icon.Some? then found
      else
        SearchValues(app, values[1..], depth, adaptive, visited,
                     if raster.Some? then Some(Better(best, AppIcon(raster.value.0, raster.value.1, adaptive)))
                     else best,
                     found.remaining, found.lookups)
  }

  function SearchReferences(app: App, references: seq<nat>, depth: nat, adaptive: bool, visited: set<nat>,
                            remaining: int, lookups: nat): Outcome
    requires depth <= MAX_DEPTH
    decreases MAX_DEPTH + 1 - depth, 0, |references|
  {
    if references == [] then Outcome(None, remaining, lookups)
    else
      var found := Search(app, references[0], depth + 1, adaptive, visited, remaining, lookups);
      if found.icon.Some? then found
      else SearchReferences(app, references[1..], depth, adaptive, visited, found.remaining, found.lookups)
  }

  /** `_Budget`, with a ghost count of the table lookups it let through. */
  class Budget {
    var remaining: int
    ghost var lookups: nat

    constructor (limit: nat)
      ensures remaining == limit && lookups == 0
    {
      remaining, lookups := limit, 0;
    }

    method Spend() returns (more: bool)
      modifies this
      ensures remaining == old(remaining) - 1 && lookups == old(lookups) && more == (remaining > 0)
    {
      remaining := remaining - 1;
      more := remaining > 0;
    }

    ghost function Result(icon: Option<AppIcon>): Outcome
      reads this
    {
      Outcome(icon, remaining, lookups)
    }
  }

  method Resolve(app: App, id: nat, depth: nat, adaptive: bool, visited: set<nat>, budget: Budget)
    returns (icon: Option<AppIcon>)
    modifies budget
    ensures budget.Result(icon) == Search(app, id, depth, adaptive, visited, old(budget.remaining), old(budget.lookups))
    decreases MAX_DEPTH + 1 - depth, 2
  {
    hide Arsc.Values;
    if depth > MAX_DEPTH {
      return None;
    }
    var more := budget.Spend();
    if !more || id in visited {
      return None;
    }
    ghost var before := budget.remaining;
    budget.lookups := budget.lookups + 1;
    icon := ResolveValues(app, Arsc.Values(app.table, id), depth, adaptive, visited + {id}, budget);
  }

  /** The loop over a resource's values. */
  method ResolveValues(app: App, values: seq<Arsc.ResourceValue>, depth: nat, adaptive: bool, visited: set<nat>,
                       budget: Budget)
    returns (icon: Option<AppIcon>)
    requires depth <= MAX_DEPTH
    modifies budget
    ensures budget.Result(icon) ==
              SearchValues(app, values, depth, adaptive, visited, None, old(budget.remaining), old(budget.lookups))
    decreases MAX_DEPTH + 1 - depth, 1
  {
    hide Raster, Drawable, LayerReferences, Search, SearchReferences;
    var best: Option<AppIcon> := None;
    ghost var whole := SearchValues(app, values, depth, adaptive, visited, None, budget.remaining, budget.lookups);
    assert values[0..] == values;
    for k := 0 to |values|
      invariant SearchValues(app, values[k..], depth, adaptive, visited, best, budget.remaining, budget.lookups) ==
                  whole
    {
      var v := values[k];
      assert values[k..][0] == v && values[k..][1..] == values[k + 1..];
      if v.IsReference() {
        var found := Resolve(app, v.value, depth + 1, adaptive, visited, budget);
        if found.Some? {
          return found;
        }
        assert Raster(app, v).None? by { NoRasterBehindReference(app, v); }
        continue;
      }
      var raster, drawable := Raster(app, v), Drawable(app, v);
      if drawable.Some? {
        var found := ResolveReferences(app, LayerReferences(drawable.value), depth,
                                       adaptive || IsAdaptive(drawable.value), visited, budget);
        if found.Some? {
          return found;
        }
      }
      if raster.Some? {
        best := Some(Better(best, AppIcon(raster.value.0, raster.value.1, adaptive)));
      }
    }
    return best;
  }

  lemma NoRasterBehindReference(app: App, v: Arsc.ResourceValue)
    requires v.IsReference()
    ensures Raster(app, v).None?
  {
  }

  /** The loop over a drawable's references. */
  method ResolveReferences(app: App, references: seq<nat>, depth: nat, adaptive: bool, visited: set<nat>,
                           budget: Budget)
    returns (icon: Option<AppIcon>)
    requires depth <= MAX_DEPTH
    modifies budget
    ensures budget.Result(icon) ==
              SearchReferences(app, references, depth, adaptive, visited, old(budget.remaining), old(budget.lookups))
    decreases MAX_DEPTH + 1 - depth, 0
  {
    hide Search;
    ghost var whole := SearchReferences(app, references, depth, adaptive, visited, budget.remaining, budget.lookups);
    assert references[0..] == references;
    for k := 0 to |references|
      invariant SearchReferences(app, references[k..], depth, adaptive, visited, budget.remaining, budget.lookups) ==
                  whole
    {
      assert references[k..][0] == references[k] && references[k..][1..] == references[k + 1..];
      var found := Resolve(app, references[k], depth + 1, adaptive, visited, budget);
      if found.Some? {
        return found;
      }
    }
    return None;
  }
}
