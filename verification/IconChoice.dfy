/** Which of the icons it can reach the search returns. */
module IconChoice {
  import opened Wrappers
  import opened Bytes
  import opened Axml
  import opened IconSearch
  import opened IconTheorems
  import Arsc

  // ------------------------------------------------------- what a value names

  /** PNG, WebP or JPEG, by the bytes such files begin with. */
  ghost predicate IsImage(blob: bytes, kind: MediaType) {
    match kind
    case Png => |blob| >= 8 && blob[..8] == [0x89, 0x50, 0x4E, 0x47, 0x0D, 0x0A, 0x1A, 0x0A]
    case Webp => |blob| >= 12 && blob[..4] == [0x52, 0x49, 0x46, 0x46] && blob[8..12] == [0x57, 0x45, 0x42, 0x50]
    case Jpeg => |blob| >= 3 && blob[..3] == [0xFF, 0xD8, 0xFF]
  }

  /** The value is the name of a file in the archive. */
  ghost predicate NamesFile(app: App, v: Arsc.ResourceValue, blob: bytes) {
    v.dataType == 0x03 && v.text.Some? && v.text.value != "" && v.text.value in app.files
    && app.files[v.text.value] == blob
  }

  /** The value names an image of at most 1 MiB. */
  ghost predicate NamesImage(app: App, v: Arsc.ResourceValue, data: bytes, kind: MediaType) {
    NamesFile(app, v, data) && IsImage(data, kind) && |data| <= 1024 * 1024
  }

  /** The value names binary XML that is read as these elements and is no vector drawing. */
  ghost predicate NamesDocument(app: App, v: Arsc.ResourceValue, elements: seq<Element>) {
    exists blob ::
      && NamesFile(app, v, blob) && (forall kind :: !IsImage(blob, kind))
      && |blob| >= 4 && blob[..4] == [0x03, 0x00, 0x08, 0x00] && Parsed(blob) == Ok(elements)
      && (elements == [] || elements[0].name != "vector")
  }

  /** The value refers to another resource. */
  predicate Refers(v: Arsc.ResourceValue) {
    v.dataType == 0x01 && v.value != 0
  }

  lemma KindMeans(blob: bytes)
    ensures forall kind :: IsImage(blob, kind) <==> MediaTypeOf(blob) == Some(kind)
  {
    assert |blob| >= 8 ==> Slice(blob, 0, 8) == blob[..8];
    assert |blob| >= 4 ==> Slice(blob, 0, 4) == blob[..4];
    assert |blob| >= 3 ==> Slice(blob, 0, 3) == blob[..3];
    assert |blob| >= 12 ==> Slice(blob, 8, 12) == blob[8..12];
    hide Slice;
    assert |blob| >= 8 ==> blob[0] == blob[..8][0];
    assert |blob| >= 4 ==> blob[0] == blob[..4][0];
    assert |blob| >= 3 ==> blob[0] == blob[..3][0];
    ShortSlices(blob);
  }

  lemma ShortSlices(blob: bytes)
    ensures |Slice(blob, 0, 8)| == 8 <==> |blob| >= 8
    ensures |Slice(blob, 0, 4)| == 4 <==> |blob| >= 4
    ensures |Slice(blob, 0, 3)| == 3 <==> |blob| >= 3
    ensures |Slice(blob, 8, 12)| == 4 <==> |blob| >= 12
  {
  }

  lemma RasterMeans(app: App, v: Arsc.ResourceValue)
    ensures forall data, kind :: Raster(app, v) == Some((data, kind)) <==> NamesImage(app, v, data, kind)
  {
    hide MediaTypeOf, IsImage;
    if v.IsFile() && v.text.value in app.files {
      KindMeans(app.files[v.text.value]);
    }
  }

  lemma DocumentMeans(app: App, v: Arsc.ResourceValue)
    ensures forall elements :: Drawable(app, v) == Some(elements) <==> NamesDocument(app, v, elements)
    ensures Refers(v) <==> v.IsReference()
  {
    hide MediaTypeOf, IsImage, Parsed;
    if v.IsFile() && v.text.value in app.files {
      var blob := app.files[v.text.value];
      KindMeans(blob);
      assert |blob| >= 4 ==> Slice(blob, 0, 4) == blob[..4];
      ShortSlices(blob);
    }
  }

  // ------------------------------------------------------- what a document refers to

  predicate IsHexDigit(c: char) {
    '0' <= c <= '9' || 'a' <= c <= 'f' || 'A' <= c <= 'F'
  }

  predicate AreHexDigits(s: string) {
    forall i :: 0 <= i < |s| ==> IsHexDigit(s[i])
  }

  function DigitOf(c: char): nat {
    match c
    case 'a' => 10 case 'b' => 11 case 'c' => 12 case 'd' => 13 case 'e' => 14 case 'f' => 15
    case 'A' => 10 case 'B' => 11 case 'C' => 12 case 'D' => 13 case 'E' => 14 case 'F' => 15
    case _ => if '0' <= c <= '9' then c as int - '0' as int else 0
  }

  /** The digits read from left to right, after those that make `high`. */
  function NumberOf(high: nat, digits: string): nat
    decreases |digits|
  {
    if digits == "" then high else NumberOf(16 * high + DigitOf(digits[0]), digits[1..])
  }

  /** The id that a text of the form `@0x7f010002` names. */
  function NamedId(v: Value): Option<nat> {
    if v.Text? && |v.text| > 3 && v.text[0] == '@' && v.text[1] == '0' && v.text[2] == 'x' && AreHexDigits(v.text[3..])
    then Some(NumberOf(0, v.text[3..]))
    else None
  }

  lemma {:induction false} NumberSnoc(high: nat, digits: string, c: char)
    ensures NumberOf(high, digits + [c]) == 16 * NumberOf(high, digits) + DigitOf(c)
    decreases |digits|
  {
    if digits == "" {
      assert digits + [c] == [c] && [c][1..] == "";
    } else {
      assert (digits + [c])[1..] == digits[1..] + [c];
      NumberSnoc(16 * high + DigitOf(digits[0]), digits[1..], c);
    }
  }

  lemma NothingRead()
    ensures NumberOf(0, "") == 0
  {
  }

  lemma DigitsSplit(before: string, last: char)
    ensures AreHexDigits(before + [last]) <==> AreHexDigits(before) && IsHexDigit(last)
  {
    var all := before + [last];
    assert all[|before|] == last;
    assert forall i :: 0 <= i < |before| ==> all[i] == before[i];
  }

  lemma DigitMeans(c: char)
    ensures HexValue(c) == if IsHexDigit(c) then Some(DigitOf(c)) else None
  {
  }

  lemma {:induction false} HexMeans(digits: string)
    ensures ParseHex(digits) == if AreHexDigits(digits) then Some(NumberOf(0, digits)) else None
    decreases |digits|
  {
    hide DigitOf, HexValue, NumberOf;
    if digits == "" {
      NothingRead();
    } else {
      var before, last := digits[..|digits| - 1], digits[|digits| - 1];
      assert digits == before + [last];
      HexMeans(before);
      NumberSnoc(0, before, last);
      DigitMeans(last);
      DigitsSplit(before, last);
    }
  }

  lemma NamedMeans(v: Value)
    ensures ReferenceIn(v) == NamedId(v)
  {
    if v.Text? && |v.text| > 3 {
      HexMeans(v.text[3..]);
      assert v.text[..3] == [v.text[0], v.text[1], v.text[2]];
    }
    hide ParseHex, NumberOf, AreHexDigits;
  }

  /** The ids that these attributes name, in the order of the attributes. */
  function IdsNamed(attributes: Attributes): seq<nat> {
    if attributes == [] then []
    else
      var id := NamedId(attributes[|attributes| - 1].1);
      IdsNamed(attributes[..|attributes| - 1]) + if id.Some? then [id.value] else []
  }

  lemma {:induction false} NamedSplits(a: (string, Value), rest: Attributes)
    ensures IdsNamed([a] + rest) == (if NamedId(a.1).Some? then [NamedId(a.1).value] else []) + IdsNamed(rest)
    decreases |rest|
  {
    hide NamedId;
    var all := [a] + rest;
    if rest == [] {
      assert all[..|all| - 1] == [];
    } else {
      assert all[..|all| - 1] == [a] + rest[..|rest| - 1];
      NamedSplits(a, rest[..|rest| - 1]);
    }
  }

  lemma {:induction false} AttributesName(attributes: Attributes)
    ensures ReferencesOf(attributes) == IdsNamed(attributes)
    decreases |attributes|
  {
    hide ReferenceIn, NamedId, IdsNamed;
    if attributes != [] {
      AttributesName(attributes[1..]);
      NamedMeans(attributes[0].1);
      NamedSplits(attributes[0], attributes[1..]);
      assert attributes == [attributes[0]] + attributes[1..];
    } else {
      NothingNamed();
    }
  }

  lemma NothingNamed()
    ensures IdsNamed([]) == []
  {
  }

  /** The ids that all these elements' attributes name. */
  function IdsIn(elements: seq<Element>): seq<nat> {
    if elements == [] then [] else IdsNamed(elements[0].attributes) + IdsIn(elements[1..])
  }

  /** Where the elements deeper than `depth` end, from `i` on. */
  function DeeperEnd(elements: seq<Element>, i: nat, depth: int): (end: nat)
    requires i <= |elements|
    ensures i <= end <= |elements|
    ensures forall j :: i <= j < end ==> elements[j].depth > depth
    ensures end < |elements| ==> elements[end].depth <= depth
    decreases |elements| - i
  {
    if i == |elements| || elements[i].depth <= depth then i else DeeperEnd(elements, i + 1, depth)
  }

  /** The references of the first element of this name and of everything inside it. */
  function IdsUnder(elements: seq<Element>, name: string): seq<nat> {
    var layer := FirstNamed(elements, name);
    if layer == |elements| then [] else IdsIn(elements[layer..DeeperEnd(elements, layer + 1, elements[layer].depth)])
  }

  predicate IsAdaptiveIcon(elements: seq<Element>) {
    elements != [] && elements[0].name == "adaptive-icon"
  }

  /** An adaptive icon's foreground before its background, and nothing else of it; any other document in order. */
  function IdsOfDocument(elements: seq<Element>): seq<nat> {
    if IsAdaptiveIcon(elements) then IdsUnder(elements, "foreground") + IdsUnder(elements, "background")
    else IdsIn(elements)
  }

  lemma RunSplits(elements: seq<Element>, i: nat, end: nat)
    requires i < end <= |elements|
    ensures IdsIn(elements[i..end]) == ReferencesOf(elements[i].attributes) + IdsIn(elements[i + 1..end])
  {
    hide ReferencesOf, IdsNamed;
    AttributesName(elements[i].attributes);
    assert elements[i..end][0] == elements[i] && elements[i..end][1..] == elements[i + 1..end];
  }

  lemma NoRun(elements: seq<Element>, i: nat)
    requires i <= |elements|
    ensures IdsIn(elements[i..i]) == []
  {
    assert elements[i..i] == [];
  }

  lemma StrictlyInside(elements: seq<Element>, layer: nat, i: nat, end: nat)
    requires layer < |elements| && layer == FirstNamed(elements, elements[layer].name) && i < |elements|
    requires end == DeeperEnd(elements, layer + 1, elements[layer].depth)
    ensures InLayer(elements, i, layer) <==> layer < i < end
  {
    hide Within, FirstNamed, DeeperEnd;
    WithinMeans(elements, i, layer);
  }

  /** From position `i` on, the elements inside a layer are those up to where its run of deeper elements ends. */
  lemma {:induction false} InsideIsRun(elements: seq<Element>, layer: nat, i: nat, end: nat)
    requires layer < |elements| && layer == FirstNamed(elements, elements[layer].name)
    requires end == DeeperEnd(elements, layer + 1, elements[layer].depth) && i <= |elements|
    ensures ReferencesInside(elements, layer, i) ==
            if i <= layer then IdsIn(elements[layer + 1..end]) else if i <= end then IdsIn(elements[i..end]) else []
    decreases |elements| - i
  {
    hide InLayer, ReferencesOf, ReferencesInside, IdsIn, FirstNamed, DeeperEnd;
    NoRun(elements, end);
    if i < |elements| {
      InsideIsRun(elements, layer, i + 1, end);
      StrictlyInside(elements, layer, i, end);
      InsideSteps(elements, layer, i);
      if layer < i < end {
        RunSplits(elements, i, end);
      }
    } else {
      NothingInside(elements, layer);
    }
  }

  lemma InsideSteps(elements: seq<Element>, layer: nat, i: nat)
    requires layer < |elements| && i < |elements|
    ensures ReferencesInside(elements, layer, i) ==
            if InLayer(elements, i, layer) then
              ReferencesOf(elements[i].attributes) + ReferencesInside(elements, layer, i + 1)
            else ReferencesInside(elements, layer, i + 1)
  {
    hide InLayer, ReferencesOf;
  }

  lemma NothingInside(elements: seq<Element>, layer: nat)
    requires layer < |elements|
    ensures ReferencesInside(elements, layer, |elements|) == []
  {
  }

  lemma UnderMeans(elements: seq<Element>, name: string)
    ensures ReferencesOfLayer(elements, name) == IdsUnder(elements, name)
  {
    hide ReferencesOf, IdsNamed, ReferencesInside, DeeperEnd;
    var layer := FirstNamed(elements, name);
    if layer < |elements| {
      var end := DeeperEnd(elements, layer + 1, elements[layer].depth);
      InsideIsRun(elements, layer, 0, end);
      AttributesName(elements[layer].attributes);
      assert elements[layer..end][0] == elements[layer] && elements[layer..end][1..] == elements[layer + 1..end];
    }
  }

  lemma {:induction false} AllAreIdsIn(elements: seq<Element>)
    ensures AllReferences(elements) == IdsIn(elements)
    decreases |elements|
  {
    hide ReferencesOf, IdsNamed;
    if elements != [] {
      AttributesName(elements[0].attributes);
      AllAreIdsIn(elements[1..]);
    }
  }

  /** The references tried, in order. */
  lemma DocumentIdsMean(elements: seq<Element>)
    ensures LayerReferences(elements) == IdsOfDocument(elements)
  {
    hide ReferencesOfLayer, IdsUnder, AllReferences, IdsIn;
    UnderMeans(elements, "foreground");
    UnderMeans(elements, "background");
    AllAreIdsIn(elements);
  }

  // ------------------------------------------------------- the best raster of one resource

  /** This value names an image, and these are its bytes. */
  ghost predicate ImageAt(app: App, values: seq<Arsc.ResourceValue>, i: nat, data: bytes) {
    i < |values| && exists kind :: NamesImage(app, values[i], data, kind)
  }

  lemma ImageAtMeans(app: App, values: seq<Arsc.ResourceValue>)
    ensures forall i: nat, data :: ImageAt(app, values, i, data) <==>
              i < |values| && Raster(app, values[i]).Some? && Raster(app, values[i]).value.0 == data
  {
    hide Raster, NamesImage;
    forall i: nat, data
      ensures ImageAt(app, values, i, data) <==>
                i < |values| && Raster(app, values[i]).Some? && Raster(app, values[i]).value.0 == data
    {
      if i < |values| {
        RasterMeans(app, values[i]);
        if Raster(app, values[i]).Some? {
          assert NamesImage(app, values[i], Raster(app, values[i]).value.0, Raster(app, values[i]).value.1);
        }
      }
    }
  }

  /** The icon is the raster of value `at`: none of the others is longer, and those before it are shorter. */
  ghost predicate IsBestAt(app: App, values: seq<Arsc.ResourceValue>, adaptive: bool, icon: AppIcon, at: nat) {
    && at < |values| && NamesImage(app, values[at], icon.data, icon.mediaType) && icon.adaptive == adaptive
    && forall i: nat, data :: ImageAt(app, values, i, data) ==>
         |data| <= |icon.data| && (i < at ==> |data| < |icon.data|)
  }

  /** The first of the longest rasters, or nothing when there is none. */
  ghost predicate IsBestRaster(app: App, values: seq<Arsc.ResourceValue>, adaptive: bool, icon: Option<AppIcon>) {
    match icon
    case None => forall i: nat, data :: !ImageAt(app, values, i, data)
    case Some(best) => exists at: nat :: IsBestAt(app, values, adaptive, best, at)
  }

  /** One more value: its raster takes over exactly when it is longer. */
  lemma BestSoFar(app: App, done: seq<Arsc.ResourceValue>, v: Arsc.ResourceValue, adaptive: bool, best: Option<AppIcon>)
    requires IsBestRaster(app, done, adaptive, best)
    ensures var raster := Raster(app, v);
            IsBestRaster(app, done + [v], adaptive,
                         if raster.Some? then Some(Better(best, AppIcon(raster.value.0, raster.value.1, adaptive)))
                         else best)
  {
    var all, raster := done + [v], Raster(app, v);
    RasterMeans(app, v);
    ImageAtMeans(app, done);
    ImageAtMeans(app, all);
    hide Raster, NamesImage, ImageAt;
    forall i: nat, data ensures ImageAt(app, all, i, data) <==>
        ImageAt(app, done, i, data) || (i == |done| && raster.Some? && raster.value.0 == data)
    {
    }
    if best.Some? {
      var at: nat :| IsBestAt(app, done, adaptive, best.value, at);
      if raster.None? || |raster.value.0| <= |best.value.data| {
        assert IsBestAt(app, all, adaptive, best.value, at);
      } else {
        assert IsBestAt(app, all, adaptive, AppIcon(raster.value.0, raster.value.1, adaptive), |done|);
      }
    } else if raster.Some? {
      assert IsBestAt(app, all, adaptive, AppIcon(raster.value.0, raster.value.1, adaptive), |done|);
    }
  }

  // ------------------------------------------------------- with any budget

  /** What lies behind one value: the icon of the id it refers to, or of the references its document holds. */
  function Behind(app: App, v: Arsc.ResourceValue, depth: nat, adaptive: bool, visited: set<nat>, remaining: int,
                  lookups: nat): Outcome
    requires depth <= MAX_DEPTH
  {
    if v.IsReference() then Search(app, v.value, depth + 1, adaptive, visited, remaining, lookups)
    else if Drawable(app, v).None? then Outcome(None, remaining, lookups)
    else
      var elements := Drawable(app, v).value;
      SearchReferences(app, LayerReferences(elements), depth, adaptive || IsAdaptive(elements), visited, remaining,
                       lookups)
  }

  /** Searched one after the other, nothing lies behind these values; this budget is left then. */
  predicate NothingBehind(app: App, values: seq<Arsc.ResourceValue>, depth: nat, adaptive: bool, visited: set<nat>,
                          remaining: int, lookups: nat, left: Outcome)
    requires depth <= MAX_DEPTH
    decreases |values|
  {
    if values == [] then left == Outcome(None, remaining, lookups)
    else
      var found := Behind(app, values[0], depth, adaptive, visited, remaining, lookups);
      found.icon.None? &&
      NothingBehind(app, values[1..], depth, adaptive, visited, found.remaining, found.lookups, left)
  }

  /** The icon behind the first value that has one; else, when none has, the best raster among the values. */
  ghost predicate FirstElseBest(app: App, values: seq<Arsc.ResourceValue>, depth: nat, adaptive: bool,
                                visited: set<nat>, remaining: int, lookups: nat, o: Outcome)
    requires depth <= MAX_DEPTH
  {
    || (exists k: nat, left ::
          && k < |values| && NothingBehind(app, values[..k], depth, adaptive, visited, remaining, lookups, left)
          && o.icon.Some? && o == Behind(app, values[k], depth, adaptive, visited, left.remaining, left.lookups))
    || (exists left ::
          && NothingBehind(app, values, depth, adaptive, visited, remaining, lookups, left)
          && IsBestRaster(app, values, adaptive, o.icon) && o == left.(icon := o.icon))
  }

  lemma {:induction false} ValuesAreFirstElseBest(app: App, done: seq<Arsc.ResourceValue>,
                                                  values: seq<Arsc.ResourceValue>, depth: nat, adaptive: bool,
                                                  visited: set<nat>, best: Option<AppIcon>, remaining: int,
                                                  lookups: nat)
    requires depth <= MAX_DEPTH && IsBestRaster(app, done, adaptive, best)
    ensures var o := SearchValues(app, values, depth, adaptive, visited, best, remaining, lookups);
            || (exists k: nat, left ::
                  && k < |values| && NothingBehind(app, values[..k], depth, adaptive, visited, remaining, lookups, left)
                  && o.icon.Some? && o == Behind(app, values[k], depth, adaptive, visited, left.remaining,
                                                 left.lookups))
            || (exists left ::
                  && NothingBehind(app, values, depth, adaptive, visited, remaining, lookups, left)
                  && IsBestRaster(app, done + values, adaptive, o.icon) && o == left.(icon := o.icon))
    decreases |values|
  {
    hide Raster, Drawable, LayerReferences, IsBestRaster, Search, SearchReferences, Behind;
    var o := SearchValues(app, values, depth, adaptive, visited, best, remaining, lookups);
    if values == [] {
      assert done + values == done;
      assert NothingBehind(app, values, depth, adaptive, visited, remaining, lookups,
                           Outcome(None, remaining, lookups));
    } else {
      var v, found := values[0], Behind(app, values[0], depth, adaptive, visited, remaining, lookups);
      var raster := Raster(app, v);
      var better := if raster.Some? then Some(Better(best, AppIcon(raster.value.0, raster.value.1, adaptive)))
        else best;
      ValuesUnfold(app, values, depth, adaptive, visited, best, remaining, lookups);
      if found.icon.Some? {
        assert values[..0] == [];
        assert NothingBehind(app, values[..0], depth, adaptive, visited, remaining, lookups,
                             Outcome(None, remaining, lookups));
      } else {
        BestSoFar(app, done, v, adaptive, best);
        ValuesAreFirstElseBest(app, done + [v], values[1..], depth, adaptive, visited, better, found.remaining,
                               found.lookups);
        assert done + [v] + values[1..] == done + values;
        forall k: nat, left | k < |values[1..]| &&
            NothingBehind(app, values[1..][..k], depth, adaptive, visited, found.remaining, found.lookups, left)
          ensures NothingBehind(app, values[..k + 1], depth, adaptive, visited, remaining, lookups, left)
          ensures values[1..][k] == values[k + 1]
        {
          assert values[..k + 1][0] == v && values[..k + 1][1..] == values[1..][..k];
        }
      }
    }
  }

  lemma ValuesUnfold(app: App, values: seq<Arsc.ResourceValue>, depth: nat, adaptive: bool, visited: set<nat>,
                     best: Option<AppIcon>, remaining: int, lookups: nat)
    requires depth <= MAX_DEPTH && values != []
    ensures var found, raster := Behind(app, values[0], depth, adaptive, visited, remaining, lookups),
                                 Raster(app, values[0]);
            SearchValues(app, values, depth, adaptive, visited, best, remaining, lookups) ==
            if found.icon.Some? then found
            else
              SearchValues(app, values[1..], depth, adaptive, visited,
                           if raster.Some? then Some(Better(best, AppIcon(raster.value.0, raster.value.1, adaptive)))
                           else best,
                           found.remaining, found.lookups)
  {
    hide Raster, Drawable, LayerReferences, Search, SearchReferences, Better;
  }

  /**
   Whatever the budget: of an id that is looked up, the search returns the icon behind the first
   of its values that leads to one, and when none does the first of its longest rasters.
   */
  lemma LookupIsFirstElseBest(app: App, id: nat, depth: nat, adaptive: bool, visited: set<nat>, remaining: int,
                              lookups: nat)
    requires depth <= MAX_DEPTH && remaining > 1 && id !in visited
    ensures FirstElseBest(app, Arsc.Values(app.table, id), depth, adaptive, visited + {id}, remaining - 1, lookups + 1,
                          Search(app, id, depth, adaptive, visited, remaining, lookups))
  {
    hide Arsc.Values, Raster, SearchValues, Behind;
    var values := Arsc.Values(app.table, id);
    assert IsBestRaster(app, [], adaptive, None);
    ValuesAreFirstElseBest(app, [], values, depth, adaptive, visited + {id}, None, remaining - 1, lookups + 1);
    assert [] + values == values;
  }

  // ------------------------------------------------------- with budget to spare

  /** What an id should give, said without the search: depth and repeated ids end a chain. */
  ghost predicate Chooses(app: App, id: nat, depth: nat, adaptive: bool, visited: set<nat>, icon: Option<AppIcon>)
    decreases MAX_DEPTH + 1 - depth, 2
  {
    if depth > MAX_DEPTH || id in visited then icon.None?
    else ValuesChoose(app, Arsc.Values(app.table, id), [], depth, adaptive, visited + {id}, icon)
  }

  /** The icon of the first value that leads to one, else the best raster, that of `done` values included. */
  ghost predicate ValuesChoose(app: App, values: seq<Arsc.ResourceValue>, done: seq<Arsc.ResourceValue>, depth: nat,
                               adaptive: bool, visited: set<nat>, icon: Option<AppIcon>)
    requires depth <= MAX_DEPTH
    decreases MAX_DEPTH + 1 - depth, 1
  {
    || (icon.Some? && exists k :: 0 <= k < |values| && LeadsTo(app, values[k], depth, adaptive, visited, icon)
                                  && forall j :: 0 <= j < k ==> LeadsTo(app, values[j], depth, adaptive, visited, None))
    || (IsBestRaster(app, done + values, adaptive, icon)
        && forall j :: 0 <= j < |values| ==> LeadsTo(app, values[j], depth, adaptive, visited, None))
  }

  ghost predicate LeadsTo(app: App, v: Arsc.ResourceValue, depth: nat, adaptive: bool, visited: set<nat>,
                          icon: Option<AppIcon>)
    requires depth <= MAX_DEPTH
    decreases MAX_DEPTH + 1 - depth, 0, 1
  {
    if Refers(v) then Chooses(app, v.value, depth + 1, adaptive, visited, icon)
    else
      && ((forall elements :: !NamesDocument(app, v, elements)) ==> icon.None?)
      && forall elements :: NamesDocument(app, v, elements) ==>
           ReferencesLead(app, IdsOfDocument(elements), depth, adaptive || IsAdaptiveIcon(elements), visited, icon)
  }

  /** The icon of the first reference that has one. */
  ghost predicate ReferencesLead(app: App, ids: seq<nat>, depth: nat, adaptive: bool, visited: set<nat>,
                                 icon: Option<AppIcon>)
    requires depth <= MAX_DEPTH
    decreases MAX_DEPTH + 1 - depth, 0, 0
  {
    if icon.None? then forall k :: 0 <= k < |ids| ==> Chooses(app, ids[k], depth + 1, adaptive, visited, None)
    else exists k :: 0 <= k < |ids| && Chooses(app, ids[k], depth + 1, adaptive, visited, icon)
                     && forall j :: 0 <= j < k ==> Chooses(app, ids[j], depth + 1, adaptive, visited, None)
  }

  /** With budget left over, the search gives exactly that. */
  lemma {:induction false} SearchChooses(app: App, id: nat, depth: nat, adaptive: bool, visited: set<nat>,
                                         remaining: int, lookups: nat)
    requires Search(app, id, depth, adaptive, visited, remaining, lookups).remaining > 0
    ensures Chooses(app, id, depth, adaptive, visited,
                    Search(app, id, depth, adaptive, visited, remaining, lookups).icon)
    decreases MAX_DEPTH + 1 - depth, 2, 0
  {
    hide Arsc.Values, SearchValues, ValuesChoose, Raster;
    if depth <= MAX_DEPTH && id !in visited {
      assert IsBestRaster(app, [], adaptive, None);
      ValuesAreChosen(app, Arsc.Values(app.table, id), [], depth, adaptive, visited + {id}, None, remaining - 1,
                      lookups + 1);
    }
  }

  lemma {:induction false} ValuesAreChosen(app: App, values: seq<Arsc.ResourceValue>, done: seq<Arsc.ResourceValue>,
                                           depth: nat, adaptive: bool, visited: set<nat>, best: Option<AppIcon>,
                                           remaining: int, lookups: nat)
    requires depth <= MAX_DEPTH && IsBestRaster(app, done, adaptive, best)
    requires SearchValues(app, values, depth, adaptive, visited, best, remaining, lookups).remaining > 0
    ensures ValuesChoose(app, values, done, depth, adaptive, visited,
                         SearchValues(app, values, depth, adaptive, visited, best, remaining, lookups).icon)
    decreases MAX_DEPTH + 1 - depth, 1, |values|
  {
    hide Raster, IsBestRaster, Search, SearchReferences, Behind, LeadsTo;
    if values == [] {
      assert done + values == done;
    } else {
      var v, found := values[0], Behind(app, values[0], depth, adaptive, visited, remaining, lookups);
      var raster := Raster(app, v);
      var better := if raster.Some? then Some(Better(best, AppIcon(raster.value.0, raster.value.1, adaptive)))
        else best;
      ValuesUnfold(app, values, depth, adaptive, visited, best, remaining, lookups);
      hide SearchValues;
      if found.icon.None? {
        ValuesArePaid(app, values[1..], depth, adaptive, visited, better, found.remaining, found.lookups);
      }
      BehindIsLed(app, v, depth, adaptive, visited, remaining, lookups);
      if found.icon.None? {
        BestSoFar(app, done, v, adaptive, best);
        ValuesAreChosen(app, values[1..], done + [v], depth, adaptive, visited, better, found.remaining, found.lookups);
        assert done + [v] + values[1..] == done + values;
        assert forall k :: 0 <= k < |values[1..]| ==> values[1..][k] == values[k + 1];
      }
    }
  }

  lemma {:induction false} BehindIsLed(app: App, v: Arsc.ResourceValue, depth: nat, adaptive: bool, visited: set<nat>,
                                       remaining: int, lookups: nat)
    requires depth <= MAX_DEPTH && Behind(app, v, depth, adaptive, visited, remaining, lookups).remaining > 0
    ensures LeadsTo(app, v, depth, adaptive, visited,
                    Behind(app, v, depth, adaptive, visited, remaining, lookups).icon)
    decreases MAX_DEPTH + 1 - depth, 0, 1, 0
  {
    hide Drawable, LayerReferences, Search, SearchReferences, Chooses, ReferencesLead, NamesDocument, IdsOfDocument;
    DocumentMeans(app, v);
    if v.IsReference() {
      SearchChooses(app, v.value, depth + 1, adaptive, visited, remaining, lookups);
    } else if Drawable(app, v).Some? {
      var elements := Drawable(app, v).value;
      DocumentIdsMean(elements);
      ReferencesAreLed(app, LayerReferences(elements), depth, adaptive || IsAdaptive(elements), visited, remaining,
                       lookups);
    }
  }

  lemma {:induction false} ReferencesAreLed(app: App, ids: seq<nat>, depth: nat, adaptive: bool, visited: set<nat>,
                                            remaining: int, lookups: nat)
    requires depth <= MAX_DEPTH
    requires SearchReferences(app, ids, depth, adaptive, visited, remaining, lookups).remaining > 0
    ensures ReferencesLead(app, ids, depth, adaptive, visited,
                           SearchReferences(app, ids, depth, adaptive, visited, remaining, lookups).icon)
    decreases MAX_DEPTH + 1 - depth, 0, 0, |ids|
  {
    hide Search, Chooses;
    if ids != [] {
      var found := Search(app, ids[0], depth + 1, adaptive, visited, remaining, lookups);
      if found.icon.None? {
        ReferencesArePaid(app, ids[1..], depth, adaptive, visited, found.remaining, found.lookups);
      }
      SearchChooses(app, ids[0], depth + 1, adaptive, visited, remaining, lookups);
      if found.icon.None? {
        ReferencesAreLed(app, ids[1..], depth, adaptive, visited, found.remaining, found.lookups);
        assert forall k :: 0 <= k < |ids[1..]| ==> ids[1..][k] == ids[k + 1];
      }
    }
  }

  /**
   In every table the budget is enough for: the icon behind the first value that leads to one, a
   reference or a document's references tried in order; else the first of the longest rasters.
   */
  lemma BestIconIsFound(app: App, id: nat)
    requires FindIcon(app, id).remaining > 0 || Walks(app, id, 0) < 4096 || IsNarrow(app)
    ensures Chooses(app, id, 0, false, {}, FindIcon(app, id).icon)
  {
    hide Walks, Search, Chooses, IsNarrow, NarrowWalks;
    SearchCosts(app, id, 0, false, {}, MAX_LOOKUPS, 0);
    if IsNarrow(app) {
      NarrowHasFewWalks(app, id, 0);
      SevenLevels();
    }
    SearchChooses(app, id, 0, false, {}, MAX_LOOKUPS, 0);
  }
}
