/**
 Rewriting a well-formed manifest preserves its meaning: the parsed elements keep their
 order, names, depths and attribute names; only replaced strings and the root's versionCode
 differ.
 */
module ManifestTheorems {
  import opened Wrappers
  import opened Bytes
  import opened ApkSigning
  import opened StringPools
  import opened StringPoolTheorems
  import opened Axml
  import opened ManifestRewrite

  // ------------------------------------------------------- what the new document must say

  function ReplaceValue(replacements: Replacements, v: Value): Value {
    match v
    case Text(s) => Text(Replace(replacements, s))
    case Number(_) => v
  }

  function ReplaceAttributes(replacements: Replacements, attributes: Attributes): (r: Attributes)
    ensures |r| == |attributes|
  {
    seq(|attributes|, i requires 0 <= i < |attributes| =>
      (attributes[i].0, ReplaceValue(replacements, attributes[i].1)))
  }

  const VERSION_KEYS: set<string> := {"versionCode", "android:versionCode"}

  function SetVersion(attributes: Attributes, version: nat): (r: Attributes)
    ensures |r| == |attributes|
  {
    seq(|attributes|, i requires 0 <= i < |attributes| =>
      if attributes[i].0 in VERSION_KEYS then (attributes[i].0, Number(version)) else attributes[i])
  }

  function ReplaceEvent(replacements: Replacements, e: Event): Event {
    if e.End? then End else Start(e.name, ReplaceAttributes(replacements, e.attributes))
  }

  function ReplaceEvents(replacements: Replacements, events: seq<Event>): seq<Event> {
    if events == [] then [] else [ReplaceEvent(replacements, events[0])] + ReplaceEvents(replacements, events[1..])
  }

  predicate IsManifest(e: Event) {
    e.Start? && e.name == "manifest"
  }

  /** Every value replaced, and the version set on the first `<manifest>`. */
  function RewriteEvents(replacements: Replacements, version: nat, events: seq<Event>): seq<Event> {
    if events == [] then []
    else
      var e := ReplaceEvent(replacements, events[0]);
      if IsManifest(events[0])
      then [Start(e.name, SetVersion(e.attributes, version))] + ReplaceEvents(replacements, events[1..])
      else [e] + RewriteEvents(replacements, version, events[1..])
  }

  /** Is element `i` the first one named manifest? */
  predicate IsRoot(elements: seq<Element>, i: nat)
    requires i < |elements|
  {
    elements[i].name == "manifest" && forall j :: 0 <= j < i ==> elements[j].name != "manifest"
  }

  /** The elements of the rewritten document, one by one. */
  ghost predicate SameMeaning(replacements: Replacements, version: nat, before: seq<Element>, after: seq<Element>) {
    |after| == |before| &&
    forall i :: 0 <= i < |before| ==>
      var replaced := ReplaceAttributes(replacements, before[i].attributes);
      after[i] == Element(before[i].name,
                          if IsRoot(before, i) then SetVersion(replaced, version) else replaced, before[i].depth)
  }

  // ------------------------------------------------------- well-formed manifests

  /** The element header and every attribute lie before `limit`, without overlapping each other. */
  predicate StartFits(data: bytes, offset: nat, limit: nat) {
    offset + 14 <= limit <= |data| &&
    var at, size, count := offset + U16At(data, offset + 8), U16At(data, offset + 10), U16At(data, offset + 12);
    size >= 20 && AttributeBase(at, size, count) <= limit
  }

  /** A pool index that does not name a replaced string. */
  predicate Kept(strings: seq<string>, replacements: Replacements, index: nat) {
    index < |strings| ==> strings[index] !in replacements
  }

  predicate AttributeNamesKept(data: bytes, base: nat, strings: seq<string>, replacements: Replacements)
    requires base + 20 <= |data|
  {
    Kept(strings, replacements, U32At(data, base)) && Kept(strings, replacements, U32At(data, base + 4))
  }

  /** Replaced strings are used as values only, never as element, attribute or namespace names. */
  predicate NamesKept(data: bytes, offset: nat, limit: nat, strings: seq<string>, replacements: Replacements)
    requires StartFits(data, offset, limit)
  {
    var at, size, count := offset + U16At(data, offset + 8), U16At(data, offset + 10), U16At(data, offset + 12);
    Kept(strings, replacements, U32At(data, offset + 4)) &&
    forall i :: 0 <= i < count ==>
      AttributeBase(at, size, i) + 20 <= |data| &&
        AttributeNamesKept(data, AttributeBase(at, size, i), strings, replacements)
  }

  predicate ChunkOk(data: bytes, position: nat, strings: seq<string>, replacements: Replacements)
    requires position + 8 <= |data|
  {
    var kind, header, size := U16At(data, position), U16At(data, position + 2), U32At(data, position + 4);
    && 8 <= size && header <= size && position + size <= |data|
    && (kind == RES_XML_START_ELEMENT ==>
          && StartFits(data, position + header, position + size)
          && NamesKept(data, position + header, position + size, strings, replacements))
  }

  /** Chunks follow each other without gaps, zero sizes or overlaps. */
  predicate ChunksOk(data: bytes, position: nat, strings: seq<string>, replacements: Replacements)
    decreases |data| - position
  {
    position + 8 <= |data| ==>
      ChunkOk(data, position, strings, replacements) &&
      ChunksOk(data, position + U32At(data, position + 4), strings, replacements)
  }

  predicate VersionKeyAt(data: bytes, base: nat, strings: seq<string>, ids: seq<nat>, at: nat)
    requires base + 20 <= |data|
  {
    var key := AttributeKey(data, base, strings, ids);
    if base + 16 == at then key == "versionCode" else key !in VERSION_KEYS
  }

  /** Among the attributes at `at`, the one written is named versionCode (or nameless) and no other is. */
  predicate VersionIsClear(data: bytes, at: nat, size: nat, count: nat, strings: seq<string>, ids: seq<nat>,
                           written: nat) {
    forall i :: 0 <= i < count ==>
      AttributeBase(at, size, i) + 20 <= |data| && VersionKeyAt(data, AttributeBase(at, size, i), strings, ids, written)
  }

  /** `VersionIsClear` for the root that `_set_version_code` finds. */
  predicate RootIsClear(data: bytes, position: nat, strings: seq<string>, ids: seq<nat>, written: nat)
    decreases |data| - position
  {
    position + 8 <= |data| &&
    var kind, header, size := U16At(data, position), U16At(data, position + 2), U32At(data, position + 4);
    0 < size &&
    if kind == RES_XML_RESOURCE_MAP then
      ReadIds(data, position, header, size).Ok? &&
      RootIsClear(data, position + size, strings, ReadIds(data, position, header, size).value, written)
    else if kind == RES_XML_START_ELEMENT then
      position + header + 14 <= |data| &&
      if StringAt(strings, U32At(data, position + header + 4)) == "manifest" then
        VersionIsClear(data, position + header + U16At(data, position + header + 8),
                       U16At(data, position + header + 10),
                       U16At(data, position + header + 12), strings, ids, written)
      else RootIsClear(data, position + size, strings, ids, written)
    else RootIsClear(data, position + size, strings, ids, written)
  }

  /** Placeholders are real text, and none looks like the symbolic form of a reference. */
  predicate PlainPlaceholders(replacements: Replacements) {
    forall s :: s in replacements ==> s != "" && s[0] != '@'
  }

  // ------------------------------------------------------- replacing strings only

  lemma StringAtReplaced(replacements: Replacements, strings: seq<string>, index: nat)
    requires PlainPlaceholders(replacements)
    ensures StringAt(ReplaceAll(replacements, strings), index) == Replace(replacements, StringAt(strings, index))
    ensures Kept(strings, replacements, index) ==>
              StringAt(ReplaceAll(replacements, strings), index) == StringAt(strings, index)
  {
  }

  lemma ValueReplaced(replacements: Replacements, strings: seq<string>, dataType: nat, value: nat, raw: nat)
    requires PlainPlaceholders(replacements)
    ensures var a := DecodeValue(strings, dataType, value, raw);
            var b := DecodeValue(ReplaceAll(replacements, strings), dataType, value, raw);
            b == if a.None? then None else Some(ReplaceValue(replacements, a.value))
  {
    hide ReplaceAll, StringAt, Hex;
    StringAtReplaced(replacements, strings, if value != NO_INDEX then value else raw);
    StringAtReplaced(replacements, strings, raw);
  }

  lemma HasKeyReplaced(replacements: Replacements, attributes: Attributes, key: string)
    ensures HasKey(ReplaceAttributes(replacements, attributes), key) == HasKey(attributes, key)
  {
    var r := ReplaceAttributes(replacements, attributes);
    assert forall i :: 0 <= i < |attributes| ==> r[i].0 == attributes[i].0;
  }

  lemma SetDefaultReplaced(replacements: Replacements, attributes: Attributes, key: string, v: Value)
    ensures SetDefault(ReplaceAttributes(replacements, attributes), key, ReplaceValue(replacements, v)) ==
            ReplaceAttributes(replacements, SetDefault(attributes, key, v))
  {
    HasKeyReplaced(replacements, attributes, key);
  }

  lemma AddReplaced(replacements: Replacements, attributes: Attributes, key: string, android: bool,
                    value: Option<Value>)
    ensures AddAttribute(ReplaceAttributes(replacements, attributes), key, android,
                         if value.None? then None else Some(ReplaceValue(replacements, value.value))) ==
            ReplaceAttributes(replacements, AddAttribute(attributes, key, android, value))
  {
    hide SetDefault, ReplaceAttributes;
    if key != "" && value.Some? {
      SetDefaultReplaced(replacements, attributes, "android:" + key, value.value);
      SetDefaultReplaced(replacements,
                         if android then SetDefault(attributes, "android:" + key, value.value) else attributes,
                         key, value.value);
    }
  }

  lemma AttributeReplaced(replacements: Replacements, before: Attributes, data: bytes, base: nat, strings: seq<string>,
                          ids: seq<nat>)
    requires PlainPlaceholders(replacements) && base + 20 <= |data| &&
             AttributeNamesKept(data, base, strings, replacements)
    ensures ReadAttribute(ReplaceAttributes(replacements, before), data, base, ReplaceAll(replacements, strings),
                          ids) ==
            Ok(ReplaceAttributes(replacements, ReadAttribute(before, data, base, strings, ids).value))
    ensures AttributeKey(data, base, ReplaceAll(replacements, strings), ids) == AttributeKey(data, base, strings, ids)
    ensures InAndroidNamespace(data, base, ReplaceAll(replacements, strings)) == InAndroidNamespace(data, base, strings)
  {
    hide U32At, ReplaceAll, StringAt, DecodeValue, AddAttribute, ReplaceAttributes, WellKnownName, Kept;
    StringAtReplaced(replacements, strings, U32At(data, base));
    StringAtReplaced(replacements, strings, U32At(data, base + 4));
    ValueReplaced(replacements, strings, Byte(data, base + 15), U32At(data, base + 16), U32At(data, base + 8));
    AddReplaced(replacements, before, AttributeKey(data, base, strings, ids), InAndroidNamespace(data, base, strings),
                AttributeValue(data, base, strings));
  }

  lemma {:induction false} AttributesReplaced(replacements: Replacements, data: bytes, at: nat, size: nat, count: nat,
                                              strings: seq<string>, ids: seq<nat>)
    requires PlainPlaceholders(replacements)
    requires forall i :: 0 <= i < count ==>
      AttributeBase(at, size, i) + 20 <= |data| &&
        AttributeNamesKept(data, AttributeBase(at, size, i), strings, replacements)
    ensures ReadAttributes(data, at, size, count, strings, ids).Ok?
    ensures ReadAttributes(data, at, size, count, ReplaceAll(replacements, strings), ids) ==
            Ok(ReplaceAttributes(replacements, ReadAttributes(data, at, size, count, strings, ids).value))
    decreases count
  {
    hide AttributeBase, ReplaceAll, AttributeNamesKept, AttributeKey, InAndroidNamespace, AttributeValue, AddAttribute;
    if count > 0 {
      AttributesReplaced(replacements, data, at, size, count - 1, strings, ids);
      AttributeReplaced(replacements, ReadAttributes(data, at, size, count - 1, strings, ids).value, data,
                        AttributeBase(at, size, count - 1), strings, ids);
    }
  }

  lemma StartReplaced(replacements: Replacements, data: bytes, offset: nat, limit: nat, strings: seq<string>,
                      ids: seq<nat>)
    requires PlainPlaceholders(replacements) && StartFits(data, offset, limit) &&
             NamesKept(data, offset, limit, strings, replacements)
    ensures ReadStart(data, offset, strings, ids).Ok?
    ensures ReadStart(data, offset, ReplaceAll(replacements, strings), ids) ==
            Ok(ReplaceEvent(replacements, ReadStart(data, offset, strings, ids).value))
  {
    hide AttributeBase, ReplaceAll, AttributeNamesKept, ReplaceAttributes, U16At, U32At, StringAt, Kept;
    var at, size, count := offset + U16At(data, offset + 8), U16At(data, offset + 10), U16At(data, offset + 12);
    AttributesReplaced(replacements, data, at, size, count, strings, ids);
    StringAtReplaced(replacements, strings, U32At(data, offset + 4));
  }

  /** The same chunks read with the replaced pool: every value replaced, nothing else. */
  lemma {:induction false} EventsReplaced(replacements: Replacements, data: bytes, position: nat, strings: seq<string>,
                                          ids: seq<nat>)
    requires PlainPlaceholders(replacements) && ChunksOk(data, position, strings, replacements)
    requires ReadEvents(data, position, strings, ids).Ok?
    ensures ReadEvents(data, position, ReplaceAll(replacements, strings), ids) ==
            Ok(ReplaceEvents(replacements, ReadEvents(data, position, strings, ids).value))
    decreases |data| - position
  {
    hide ReplaceAll, U16At, U32At, ReadStart, ReadIds, NamesKept, StartFits, ReplaceEvent;
    if position + 8 <= |data| {
      var kind, header, size := U16At(data, position), U16At(data, position + 2), U32At(data, position + 4);
      if kind == RES_XML_RESOURCE_MAP {
        EventsReplaced(replacements, data, position + size, strings, ReadIds(data, position, header, size).value);
      } else {
        EventsReplaced(replacements, data, position + size, strings, ids);
        if kind == RES_XML_START_ELEMENT {
          StartReplaced(replacements, data, position + header, position + size, strings, ids);
          assert ReadEvents(data, position, strings, ids).value[1..] ==
                   ReadEvents(data, position + size, strings, ids).value;
        } else if kind == RES_XML_END_ELEMENT {
          assert ReadEvents(data, position, strings, ids).value[1..] ==
                   ReadEvents(data, position + size, strings, ids).value;
          EndStays(replacements);
        }
      }
    }
  }

  lemma EndStays(replacements: Replacements)
    ensures ReplaceEvent(replacements, End) == End
  {
  }

  // ------------------------------------------------------- reading a part of a buffer

  /** `part` lies in `whole` at `lo`, and either reaches `end` or runs to the end of `whole`. */
  predicate Covers(whole: bytes, lo: nat, part: bytes, end: nat) {
    Holds(whole, lo, part) && (end <= |part| || lo + |part| == |whole|)
  }

  lemma AttributeInside(before: Attributes, whole: bytes, lo: nat, part: bytes, base: nat, strings: seq<string>,
                        ids: seq<nat>)
    requires Covers(whole, lo, part, base + 20)
    ensures ReadAttribute(before, whole, lo + base, strings, ids) == ReadAttribute(before, part, base, strings, ids)
    ensures base + 20 <= |part| ==>
              AttributeKey(whole, lo + base, strings, ids) == AttributeKey(part, base, strings, ids)
  {
    hide U32At, StringAt, DecodeValue, AddAttribute, WellKnownName;
    if base + 20 <= |part| {
      ReadsInside(whole, lo, part, base);
      ReadsInside(whole, lo, part, base + 4);
      ReadsInside(whole, lo, part, base + 8);
      ReadsInside(whole, lo, part, base + 16);
      assert part[base + 15] == whole[lo..lo + |part|][base + 15] == whole[lo + base + 15];
    }
  }

  lemma {:induction false} AttributesInside(whole: bytes, lo: nat, part: bytes, at: nat, size: nat, count: nat,
                                            strings: seq<string>, ids: seq<nat>)
    requires forall i :: 0 <= i < count ==> Covers(whole, lo, part, AttributeBase(at, size, i) + 20)
    ensures ReadAttributes(whole, lo + at, size, count, strings, ids) ==
              ReadAttributes(part, at, size, count, strings, ids)
    decreases count
  {
    hide ReadAttribute, Covers;
    if count > 0 {
      AttributesInside(whole, lo, part, at, size, count - 1, strings, ids);
      var before := ReadAttributes(part, at, size, count - 1, strings, ids);
      if before.Ok? {
        AttributeInside(before.value, whole, lo, part, AttributeBase(at, size, count - 1), strings, ids);
      }
    }
  }

  lemma BasesBelow(at: nat, size: nat, i: nat, count: nat)
    requires i < count && size >= 20
    ensures AttributeBase(at, size, i) + 20 <= AttributeBase(at, size, count)
  {
    assert i * size + size <= count * size by {
      assert (i + 1) * size <= count * size;
    }
  }

  lemma StartInside(whole: bytes, lo: nat, part: bytes, offset: nat, strings: seq<string>, ids: seq<nat>)
    requires Holds(whole, lo, part)
    requires lo + |part| == |whole| || StartFits(part, offset, |part|)
    ensures ReadStart(whole, lo + offset, strings, ids) == ReadStart(part, offset, strings, ids)
  {
    hide U16At, U32At, StringAt, ReadAttributes, AttributeBase;
    if offset + 14 <= |part| {
      ReadsInside(whole, lo, part, offset + 4);
      ReadsInside(whole, lo, part, offset + 8);
      ReadsInside(whole, lo, part, offset + 10);
      ReadsInside(whole, lo, part, offset + 12);
      var at, size, count := offset + U16At(part, offset + 8), U16At(part, offset + 10), U16At(part, offset + 12);
      forall i | 0 <= i < count ensures Covers(whole, lo, part, AttributeBase(at, size, i) + 20) {
        if lo + |part| != |whole| {
          BasesBelow(at, size, i, count);
        }
      }
      AttributesInside(whole, lo, part, at, size, count, strings, ids);
    }
  }

  lemma IdsInside(whole: bytes, lo: nat, part: bytes, position: nat, header: nat, size: nat)
    requires Covers(whole, lo, part, position + size)
    ensures ReadIds(whole, lo + position, header, size) == ReadIds(part, position, header, size)
  {
    hide U32At;
    if size >= header && position + header + (size - header) / 4 * 4 <= |part| {
      var a, b := ReadIds(whole, lo + position, header, size).value, ReadIds(part, position, header, size).value;
      forall i | 0 <= i < (size - header) / 4 ensures a[i] == b[i] {
        ReadsInside(whole, lo, part, position + header + 4 * i);
        assert lo + (position + header + 4 * i) == lo + position + header + 4 * i;
      }
      assert a == b;
    }
  }

  /** What follows `lo` decides the events read from there. */
  lemma {:induction false} EventsOfSuffix(whole: bytes, lo: nat, part: bytes, position: nat, strings: seq<string>,
                                          ids: seq<nat>)
    requires Holds(whole, lo, part) && lo + |part| == |whole|
    ensures ReadEvents(whole, lo + position, strings, ids) == ReadEvents(part, position, strings, ids)
    decreases |part| - position
  {
    hide U16At, U32At, ReadStart, ReadIds;
    if position + 8 <= |part| {
      ReadsInside(whole, lo, part, position);
      ReadsInside(whole, lo, part, position + 2);
      ReadsInside(whole, lo, part, position + 4);
      var kind, header, size := U16At(part, position), U16At(part, position + 2), U32At(part, position + 4);
      if size > 0 {
        if kind == RES_XML_RESOURCE_MAP {
          IdsInside(whole, lo, part, position, header, size);
          var read := ReadIds(part, position, header, size);
          if read.Ok? {
            EventsOfSuffix(whole, lo, part, position + size, strings, read.value);
          }
        } else {
          StartInside(whole, lo, part, position + header, strings, ids);
          EventsOfSuffix(whole, lo, part, position + size, strings, ids);
        }
      }
    }
  }

  // ------------------------------------------------------- writing the version

  /** Bytes before and after a patch are unchanged. */
  lemma PatchedElsewhere(data: bytes, at: nat, n: nat, lo: nat, hi: nat)
    requires at + 4 <= |data| && lo <= hi <= |data| && (hi <= at || at + 4 <= lo)
    ensures Holds(Patched(data, at, n), lo, data[lo..hi])
  {
    hide U32;
    var patched := Patched(data, at, n);
    assert forall k :: lo <= k < hi ==> patched[k] == data[k];
    assert patched[lo..hi] == data[lo..hi];
  }

  lemma AttributeElsewhere(before: Attributes, data: bytes, at: nat, n: nat, base: nat, strings: seq<string>,
                           ids: seq<nat>)
    requires at + 4 <= |data| && base + 20 <= |data| && (base + 20 <= at || at + 4 <= base)
    ensures ReadAttribute(before, Patched(data, at, n), base, strings, ids) ==
              ReadAttribute(before, data, base, strings, ids)
  {
    hide Patched, ReadAttribute;
    var part := data[base..base + 20];
    PatchedElsewhere(data, at, n, base, base + 20);
    assert Holds(data, base, part);
    AttributeInside(before, data, base, part, 0, strings, ids);
    AttributeInside(before, Patched(data, at, n), base, part, 0, strings, ids);
  }

  /** The written attribute: same name and type, the new number. */
  lemma AttributeWritten(data: bytes, base: nat, n: nat, strings: seq<string>, ids: seq<nat>)
    requires base + 20 <= |data| && n < U32_LIMIT && Byte(data, base + 15) == TYPE_INT_DEC
    ensures var patched := Patched(data, base + 16, n);
            && AttributeKey(patched, base, strings, ids) == AttributeKey(data, base, strings, ids)
            && InAndroidNamespace(patched, base, strings) == InAndroidNamespace(data, base, strings)
            && AttributeValue(patched, base, strings) == Some(Number(n))
            && AttributeValue(data, base, strings) == Some(Number(U32At(data, base + 16)))
  {
    hide U32At, U32, StringAt, WellKnownName;
    var patched, part := Patched(data, base + 16, n), data[base..base + 16];
    PatchedElsewhere(data, base + 16, n, base, base + 16);
    assert Holds(data, base, part);
    ReadsInside(data, base, part, 0);
    ReadsInside(data, base, part, 4);
    ReadsInside(patched, base, part, 0);
    ReadsInside(patched, base, part, 4);
    assert patched[base + 15] == part[15] == data[base + 15];
    U32Reads(data[..base + 16], n, data[base + 20..]);
  }

  lemma SetDefaultVersion(attributes: Attributes, key: string, v: Value, version: nat)
    requires key in VERSION_KEYS ==> v == Number(version)
    ensures SetDefault(SetVersion(attributes, version), key, v) == SetVersion(SetDefault(attributes, key, v), version)
    ensures forall old': Value :: key in VERSION_KEYS ==>
      SetDefault(SetVersion(attributes, version), key, v) == SetVersion(SetDefault(attributes, key, old'), version)
  {
    var r := SetVersion(attributes, version);
    assert forall i :: 0 <= i < |attributes| ==> r[i].0 == attributes[i].0;
    assert HasKey(r, key) == HasKey(attributes, key);
  }

  lemma PrefixedKeys(key: string)
    ensures "android:" + key in VERSION_KEYS <==> key == "versionCode"
  {
    assert ("android:" + key)[8..] == key;
    assert "android:" + key == "android:versionCode" ==> key == "android:versionCode"[8..];
    assert ("android:" + key)[0] == 'a' && "versionCode"[0] == 'v';
  }

  /** An attribute that is not the version commutes with setting it. */
  lemma AddOther(attributes: Attributes, key: string, android: bool, value: Option<Value>, version: nat)
    requires key !in VERSION_KEYS
    ensures AddAttribute(SetVersion(attributes, version), key, android, value) ==
            SetVersion(AddAttribute(attributes, key, android, value), version)
  {
    hide SetDefault, SetVersion;
    PrefixedKeys(key);
    if key != "" && value.Some? {
      SetDefaultVersion(attributes, "android:" + key, value.value, version);
      SetDefaultVersion(if android then SetDefault(attributes, "android:" + key, value.value) else attributes,
                        key, value.value, version);
    }
  }

  /** Adding the new number is setting the version on what the old number gave. */
  lemma AddVersion(attributes: Attributes, android: bool, was: Value, version: nat)
    ensures AddAttribute(SetVersion(attributes, version), "versionCode", android, Some(Number(version))) ==
            SetVersion(AddAttribute(attributes, "versionCode", android, Some(was)), version)
  {
    hide SetDefault, SetVersion;
    PrefixedKeys("versionCode");
    SetDefaultVersion(attributes, "android:versionCode", Number(version), version);
    SetDefaultVersion(if android then SetDefault(attributes, "android:versionCode", was) else attributes,
                      "versionCode", Number(version), version);
    assert "android:" + "versionCode" == "android:versionCode";
  }

  // ------------------------------------------------------- the root element

  lemma {:induction false} FoundAttribute(data: bytes, at: nat, size: nat, i: nat, count: nat, ids: seq<nat>)
    returns (k: nat)
    requires FindAttribute(data, at, size, i, count, ids).Ok?
    ensures i <= k < count && AttributeBase(at, size, k) + 20 <= |data|
    ensures FindAttribute(data, at, size, i, count, ids).value == AttributeBase(at, size, k) + 16
    ensures Byte(data, AttributeBase(at, size, k) + 15) == TYPE_INT_DEC
    decreases count - i
  {
    hide U32At, AttributeBase;
    var base := AttributeBase(at, size, i);
    var name := U32At(data, base + 4);
    if name < |ids| && ids[name] == VERSION_CODE_ATTR {
      k := i;
    } else {
      k := FoundAttribute(data, at, size, i + 1, count, ids);
    }
  }

  lemma BasesApart(at: nat, size: nat, i: nat, k: nat)
    requires i != k && size >= 20
    ensures AttributeBase(at, size, i) + 20 <= AttributeBase(at, size, k) ||
            AttributeBase(at, size, k) + 20 <= AttributeBase(at, size, i)
  {
    if i < k {
      BasesBelow(at, size, i, k);
    } else {
      BasesBelow(at, size, k, i);
    }
  }

  /** One attribute of the root, read from the patched bytes. */
  lemma RootAttribute(before: Attributes, data: bytes, at: nat, size: nat, i: nat, k: nat, version: nat,
                      strings: seq<string>, ids: seq<nat>)
    requires size >= 20 && version < U32_LIMIT
    requires AttributeBase(at, size, i) + 20 <= |data| && AttributeBase(at, size, k) + 20 <= |data|
    requires Byte(data, AttributeBase(at, size, k) + 15) == TYPE_INT_DEC
    requires VersionKeyAt(data, AttributeBase(at, size, i), strings, ids, AttributeBase(at, size, k) + 16)
    ensures ReadAttribute(SetVersion(before, version), Patched(data, AttributeBase(at, size, k) + 16, version),
                          AttributeBase(at, size, i), strings, ids) ==
            Ok(SetVersion(ReadAttribute(before, data, AttributeBase(at, size, i), strings, ids).value, version))
  {
    hide U32At, U32, AttributeBase, Patched, SetVersion, AddAttribute, AttributeKey, InAndroidNamespace, AttributeValue;
    var base := AttributeBase(at, size, i);
    if i == k {
      AttributeWritten(data, base, version, strings, ids);
      AddVersion(before, InAndroidNamespace(data, base, strings), Number(U32At(data, base + 16)), version);
    } else {
      BasesApart(at, size, i, k);
      AttributeElsewhere(SetVersion(before, version), data, AttributeBase(at, size, k) + 16, version, base, strings,
                         ids);
      AddOther(before, AttributeKey(data, base, strings, ids), InAndroidNamespace(data, base, strings),
               AttributeValue(data, base, strings), version);
    }
  }

  lemma {:induction false} RootAttributes(data: bytes, at: nat, size: nat, count: nat, total: nat, k: nat, version: nat,
                                          strings: seq<string>, ids: seq<nat>)
    requires size >= 20 && version < U32_LIMIT && count <= total && k < total
    requires AttributeBase(at, size, k) + 20 <= |data| && Byte(data, AttributeBase(at, size, k) + 15) == TYPE_INT_DEC
    requires VersionIsClear(data, at, size, total, strings, ids, AttributeBase(at, size, k) + 16)
    ensures ReadAttributes(data, at, size, count, strings, ids).Ok?
    ensures ReadAttributes(Patched(data, AttributeBase(at, size, k) + 16, version), at, size, count, strings, ids) ==
            Ok(SetVersion(ReadAttributes(data, at, size, count, strings, ids).value, version))
    decreases count
  {
    hide AttributeBase, Patched, SetVersion, ReadAttribute, VersionKeyAt;
    if count > 0 {
      RootAttributes(data, at, size, count - 1, total, k, version, strings, ids);
      var before := ReadAttributes(data, at, size, count - 1, strings, ids).value;
      RootAttribute(before, data, at, size, count - 1, k, version, strings, ids);
      ReadAttributeSucceeds(before, data, AttributeBase(at, size, count - 1), strings, ids);
    } else {
      NoVersion(version);
    }
  }

  lemma ReadAttributeSucceeds(before: Attributes, data: bytes, base: nat, strings: seq<string>, ids: seq<nat>)
    requires base + 20 <= |data|
    ensures ReadAttribute(before, data, base, strings, ids).Ok?
  {
  }

  lemma NoVersion(version: nat)
    ensures SetVersion([], version) == []
  {
  }

  /** Names do not depend on which of the two pools is read, so clearness carries over. */
  lemma ClearInBothPools(replacements: Replacements, data: bytes, offset: nat, limit: nat, strings: seq<string>,
                         ids: seq<nat>, written: nat)
    requires PlainPlaceholders(replacements) && StartFits(data, offset, limit) &&
             NamesKept(data, offset, limit, strings, replacements)
    ensures var at, size, count := offset + U16At(data, offset + 8), U16At(data, offset + 10), U16At(data, offset + 12);
            VersionIsClear(data, at, size, count, strings, ids, written) ==>
              VersionIsClear(data, at, size, count, ReplaceAll(replacements, strings), ids, written)
  {
    hide AttributeBase, ReplaceAll, U16At, AttributeNamesKept, AttributeKey, Kept;
    var at, size, count := offset + U16At(data, offset + 8), U16At(data, offset + 10), U16At(data, offset + 12);
    forall i | 0 <= i < count
      ensures AttributeKey(data, AttributeBase(at, size, i), ReplaceAll(replacements, strings), ids) ==
              AttributeKey(data, AttributeBase(at, size, i), strings, ids)
    {
      AttributeReplaced(replacements, [], data, AttributeBase(at, size, i), strings, ids);
    }
  }

  /** The root element as the rewritten document gives it. */
  lemma RootStart(replacements: Replacements, data: bytes, offset: nat, limit: nat, strings: seq<string>, ids: seq<nat>,
                  version: nat)
    requires PlainPlaceholders(replacements) && StartFits(data, offset, limit) &&
             NamesKept(data, offset, limit, strings, replacements)
    requires version < U32_LIMIT
    requires var at, size, count := offset + U16At(data, offset + 8), U16At(data, offset + 10),
                                    U16At(data, offset + 12);
             && FindAttribute(data, at, size, 0, count, ids).Ok?
             && VersionIsClear(data, at, size, count, strings, ids, FindAttribute(data, at, size, 0, count, ids).value)
    ensures var written := FindAttribute(data, offset + U16At(data, offset + 8), U16At(data, offset + 10), 0,
                                         U16At(data, offset + 12), ids).value;
            var start := ReadStart(data, offset, strings, ids);
            && offset + 16 <= written && written + 4 <= limit && start.Ok?
            && ReadStart(Patched(data, written, version), offset, ReplaceAll(replacements, strings), ids) ==
               Ok(Start(start.value.name, SetVersion(ReplaceAttributes(replacements, start.value.attributes), version)))
  {
    hide AttributeBase, ReplaceAll, U16At, U32At, NamesKept, VersionIsClear, FindAttribute, Patched, SetVersion,
         ReplaceAttributes, ReadAttributes, StringAt;
    var at, size, count := offset + U16At(data, offset + 8), U16At(data, offset + 10), U16At(data, offset + 12);
    var k := FoundAttribute(data, at, size, 0, count, ids);
    var written := AttributeBase(at, size, k) + 16;
    BasesBelow(at, size, k, count);
    BaseAfter(at, size, k);
    var newStrings := ReplaceAll(replacements, strings);
    StartReplaced(replacements, data, offset, limit, strings, ids);
    ClearInBothPools(replacements, data, offset, limit, strings, ids, written);
    RootAttributes(data, at, size, count, count, k, version, newStrings, ids);
    HeaderUnpatched(data, offset, written, version);
  }

  lemma BaseAfter(at: nat, size: nat, k: nat)
    ensures AttributeBase(at, size, k) >= at
  {
  }

  lemma HeaderUnpatched(data: bytes, offset: nat, at: nat, n: nat)
    requires offset + 16 <= at && at + 4 <= |data|
    ensures U32At(Patched(data, at, n), offset + 4) == U32At(data, offset + 4)
    ensures U16At(Patched(data, at, n), offset + 8) == U16At(data, offset + 8)
    ensures U16At(Patched(data, at, n), offset + 10) == U16At(data, offset + 10)
    ensures U16At(Patched(data, at, n), offset + 12) == U16At(data, offset + 12)
  {
    hide Patched, U16At, U32At;
    PatchedElsewhere(data, at, n, offset, offset + 16);
    var part := data[offset..offset + 16];
    assert Holds(data, offset, part);
    ReadsInside(data, offset, part, 4);
    ReadsInside(data, offset, part, 8);
    ReadsInside(data, offset, part, 10);
    ReadsInside(data, offset, part, 12);
    ReadsInside(Patched(data, at, n), offset, part, 4);
    ReadsInside(Patched(data, at, n), offset, part, 8);
    ReadsInside(Patched(data, at, n), offset, part, 10);
    ReadsInside(Patched(data, at, n), offset, part, 12);
  }

  // ------------------------------------------------------- the chunks

  /** The chunk at `position` reads the same after a patch beyond its end. */
  lemma ChunkUnpatched(data: bytes, position: nat, strings: seq<string>, ids: seq<nat>, replacements: Replacements,
                       at: nat, n: nat, pool: seq<string>)
    requires position + 8 <= |data| && ChunkOk(data, position, strings, replacements)
    requires position + U32At(data, position + 4) <= at && at + 4 <= |data|
    ensures var patched, header, size := Patched(data, at, n), U16At(data, position + 2), U32At(data, position + 4);
            && U16At(patched, position) == U16At(data, position) && U16At(patched, position + 2) == header
            && U32At(patched, position + 4) == size
            && ReadIds(patched, position, header, size) == ReadIds(data, position, header, size)
            && (U16At(data, position) == RES_XML_START_ELEMENT ==>
                  ReadStart(patched, position + header, pool, ids) == ReadStart(data, position + header, pool, ids))
  {
    hide Patched, U16At, U32At, ReadIds, ReadStart, NamesKept;
    var patched, header, size := Patched(data, at, n), U16At(data, position + 2), U32At(data, position + 4);
    PatchedElsewhere(data, at, n, position, position + size);
    var part := data[position..position + size];
    assert Holds(data, position, part);
    ReadsInside(data, position, part, 0);
    ReadsInside(data, position, part, 2);
    ReadsInside(data, position, part, 4);
    ReadsInside(patched, position, part, 0);
    ReadsInside(patched, position, part, 2);
    ReadsInside(patched, position, part, 4);
    IdsInside(data, position, part, 0, header, size);
    IdsInside(patched, position, part, 0, header, size);
    if U16At(data, position) == RES_XML_START_ELEMENT {
      StartFitsInside(data, position, part, header);
      StartInside(data, position, part, header, pool, ids);
      StartInside(patched, position, part, header, pool, ids);
    }
  }

  lemma StartFitsInside(data: bytes, lo: nat, part: bytes, offset: nat)
    requires Holds(data, lo, part) && StartFits(data, lo + offset, lo + |part|)
    ensures StartFits(part, offset, |part|)
  {
    hide U16At;
    ReadsInside(data, lo, part, offset + 8);
    ReadsInside(data, lo, part, offset + 10);
    ReadsInside(data, lo, part, offset + 12);
    BaseShifts(lo, offset + U16At(part, offset + 8), U16At(part, offset + 10), U16At(part, offset + 12));
  }

  lemma BaseShifts(lo: nat, at: nat, size: nat, count: nat)
    ensures AttributeBase(lo + at, size, count) == lo + AttributeBase(at, size, count)
  {
  }

  lemma FoundVersionLater(data: bytes, position: nat, strings: seq<string>, ids: seq<nat>)
    requires FindVersionCode(data, position, strings, ids).Ok?
    ensures FindVersionCode(data, position, strings, ids).value >= position
    decreases |data| - position
  {
    hide U16At, U32At, ReadIds, FindAttribute;
    var kind, header, size := U16At(data, position), U16At(data, position + 2), U32At(data, position + 4);
    if kind == RES_XML_RESOURCE_MAP {
      FoundVersionLater(data, position + size, strings, ReadIds(data, position, header, size).value);
    } else if kind == RES_XML_START_ELEMENT && strings[U32At(data, position + header + 4)] == "manifest" {
      var at, width := position + header + U16At(data, position + header + 8), U16At(data, position + header + 10);
      var k := FoundAttribute(data, at, width, 0, U16At(data, position + header + 12), ids);
      BaseAfter(at, width, k);
    } else {
      FoundVersionLater(data, position + size, strings, ids);
    }
  }

  /** After the root, only the strings differ. */
  lemma EventsAfterPatch(data: bytes, position: nat, strings: seq<string>, ids: seq<nat>, at: nat, n: nat)
    requires at + 4 <= position <= |data|
    ensures ReadEvents(Patched(data, at, n), position, strings, ids) == ReadEvents(data, position, strings, ids)
  {
    hide Patched, ReadEvents;
    PatchedElsewhere(data, at, n, position, |data|);
    var rest := data[position..];
    assert Holds(data, position, rest);
    EventsOfSuffix(data, position, rest, 0, strings, ids);
    EventsOfSuffix(Patched(data, at, n), position, rest, 0, strings, ids);
  }

  /** The chunk holding the root element, and everything after it. */
  lemma EventsFromRoot(replacements: Replacements, data: bytes, position: nat, strings: seq<string>, ids: seq<nat>,
                       version: nat, written: nat)
    requires PlainPlaceholders(replacements) && version < U32_LIMIT && position + 8 <= |data|
    requires ChunkOk(data, position, strings, replacements) &&
             ChunksOk(data, position + U32At(data, position + 4), strings, replacements)
    requires U16At(data, position) == RES_XML_START_ELEMENT && ReadEvents(data, position, strings, ids).Ok?
    requires StringAt(strings, U32At(data, position + U16At(data, position + 2) + 4)) == "manifest"
    requires var offset := position + U16At(data, position + 2);
             var at, size, count := offset + U16At(data, offset + 8), U16At(data, offset + 10),
                 U16At(data, offset + 12);
             && FindAttribute(data, at, size, 0, count, ids) == Ok(written)
             && VersionIsClear(data, at, size, count, strings, ids, written)
    ensures written + 4 <= |data|
    ensures ReadEvents(Patched(data, written, version), position, ReplaceAll(replacements, strings), ids) ==
            Ok(RewriteEvents(replacements, version, ReadEvents(data, position, strings, ids).value))
  {
    hide Patched, U16At, U32At, ReadIds, ReadStart, NamesKept, StartFits, ReplaceAll, SetVersion, ReplaceAttributes,
         FindAttribute, VersionIsClear, ReplaceEvents, ChunksOk, StringAt;
    var header, size := U16At(data, position + 2), U32At(data, position + 4);
    var newStrings, offset := ReplaceAll(replacements, strings), position + header;
    RootStart(replacements, data, offset, position + size, strings, ids, version);
    var start, rest := ReadStart(data, offset, strings, ids).value,
        ReadEvents(data, position + size, strings, ids).value;
    EventsAfterPatch(data, position + size, newStrings, ids, written, version);
    EventsReplaced(replacements, data, position + size, strings, ids);
    HeadUnpatched(data, position, written, version);
    StartName(data, offset, strings, ids);
    RewriteRoot(replacements, version, start, rest);
  }

  lemma RewriteRoot(replacements: Replacements, version: nat, start: Event, rest: seq<Event>)
    requires IsManifest(start)
    ensures RewriteEvents(replacements, version, [start] + rest) ==
            [Start(start.name, SetVersion(ReplaceAttributes(replacements, start.attributes), version))] +
              ReplaceEvents(replacements, rest)
  {
    hide SetVersion, ReplaceAttributes;
    assert ([start] + rest)[1..] == rest;
  }

  lemma StartName(data: bytes, offset: nat, strings: seq<string>, ids: seq<nat>)
    requires ReadStart(data, offset, strings, ids).Ok?
    ensures offset + 14 <= |data| &&
            ReadStart(data, offset, strings, ids).value.name == StringAt(strings, U32At(data, offset + 4))
  {
  }

  lemma HeadUnpatched(data: bytes, position: nat, at: nat, n: nat)
    requires position + 8 <= at && at + 4 <= |data|
    ensures var patched := Patched(data, at, n);
            && U16At(patched, position) == U16At(data, position)
            && U16At(patched, position + 2) == U16At(data, position + 2)
            && U32At(patched, position + 4) == U32At(data, position + 4)
  {
    hide Patched, U16At, U32At;
    PatchedElsewhere(data, at, n, position, position + 8);
    var part := data[position..position + 8];
    assert Holds(data, position, part);
    ReadsInside(data, position, part, 0);
    ReadsInside(data, position, part, 2);
    ReadsInside(data, position, part, 4);
    ReadsInside(Patched(data, at, n), position, part, 0);
    ReadsInside(Patched(data, at, n), position, part, 2);
    ReadsInside(Patched(data, at, n), position, part, 4);
  }

  /** Reading the patched chunks with the new pool gives the rewritten events. */
  lemma {:induction false} EventsRewritten(replacements: Replacements, data: bytes, position: nat, strings: seq<string>,
                                           ids: seq<nat>, version: nat)
    requires PlainPlaceholders(replacements) && version < U32_LIMIT
    requires ChunksOk(data, position, strings, replacements) && ReadEvents(data, position, strings, ids).Ok?
    requires FindVersionCode(data, position, strings, ids).Ok?
    requires RootIsClear(data, position, strings, ids, FindVersionCode(data, position, strings, ids).value)
    ensures FindVersionCode(data, position, strings, ids).value + 4 <= |data|
    ensures ReadEvents(Patched(data, FindVersionCode(data, position, strings, ids).value, version), position,
                       ReplaceAll(replacements, strings), ids) ==
            Ok(RewriteEvents(replacements, version, ReadEvents(data, position, strings, ids).value))
    decreases |data| - position
  {
    hide Patched, U16At, U32At, ReadIds, ReadStart, NamesKept, StartFits, ReplaceAll, SetVersion, ReplaceAttributes,
         FindAttribute, VersionIsClear;
    var kind, header, size := U16At(data, position), U16At(data, position + 2), U32At(data, position + 4);
    FoundVersionFits(data, position, strings, ids);
    if kind == RES_XML_START_ELEMENT && StringAt(strings, U32At(data, position + header + 4)) == "manifest" {
      EventsFromRoot(replacements, data, position, strings, ids, version,
                     FindVersionCode(data, position, strings, ids).value);
    } else {
      var next := if kind == RES_XML_RESOURCE_MAP then ReadIds(data, position, header, size).value else ids;
      var written := FindVersionCode(data, position, strings, ids).value;
      FoundVersionLater(data, position + size, strings, next);
      ChunkUnpatched(data, position, strings, ids, replacements, written, version, ReplaceAll(replacements, strings));
      EventsRewritten(replacements, data, position + size, strings, next, version);
      if kind == RES_XML_START_ELEMENT {
        StartReplaced(replacements, data, position + header, position + size, strings, ids);
        StartName(data, position + header, strings, ids);
        var start, rest := ReadStart(data, position + header, strings, ids).value,
            ReadEvents(data, position + size, strings, ids).value;
        assert ([start] + rest)[1..] == rest;
      } else if kind == RES_XML_END_ELEMENT {
        var rest := ReadEvents(data, position + size, strings, ids).value;
        assert ([End] + rest)[1..] == rest;
      }
    }
  }

  // ------------------------------------------------------- main result

  /** Well-formed chunks always read. */
  lemma {:induction false} EventsRead(data: bytes, position: nat, strings: seq<string>, ids: seq<nat>,
                                      replacements: Replacements)
    requires PlainPlaceholders(replacements) && ChunksOk(data, position, strings, replacements)
    ensures ReadEvents(data, position, strings, ids).Ok?
    decreases |data| - position
  {
    hide U16At, U32At, ReadStart, NamesKept, StartFits;
    if position + 8 <= |data| {
      var kind, header, size := U16At(data, position), U16At(data, position + 2), U32At(data, position + 4);
      if kind == RES_XML_START_ELEMENT {
        StartReplaced(replacements, data, position + header, position + size, strings, ids);
      }
      EventsRead(data, position + size, strings,
                 if kind == RES_XML_RESOURCE_MAP then ReadIds(data, position, header, size).value else ids,
                 replacements);
    }
  }

  lemma {:induction false} ElementsReplaced(replacements: Replacements, events: seq<Event>, depth: int)
    ensures var before, after := Elements(events, depth), Elements(ReplaceEvents(replacements, events), depth);
            |after| == |before| &&
            forall i :: 0 <= i < |before| ==>
              after[i] == Element(before[i].name, ReplaceAttributes(replacements, before[i].attributes),
                                  before[i].depth)
    decreases |events|
  {
    hide ReplaceAttributes;
    if events != [] {
      ElementsReplaced(replacements, events[1..], if events[0].End? then depth - 1 else depth + 1);
    }
  }

  lemma {:induction false} ElementsRewritten(replacements: Replacements, version: nat, events: seq<Event>, depth: int)
    ensures SameMeaning(replacements, version, Elements(events, depth),
                        Elements(RewriteEvents(replacements, version, events), depth))
    decreases |events|
  {
    hide ReplaceAttributes, SetVersion;
    if events != [] {
      var before, after := Elements(events, depth), Elements(RewriteEvents(replacements, version, events), depth);
      if IsManifest(events[0]) {
        ElementsReplaced(replacements, events[1..], depth + 1);
        RewriteRoot(replacements, version, events[0], events[1..]);
        assert [events[0]] + events[1..] == events;
        assert IsRoot(before, 0);
      } else if events[0].End? {
        ElementsRewritten(replacements, version, events[1..], depth - 1);
      } else {
        ElementsRewritten(replacements, version, events[1..], depth + 1);
        var rest := Elements(events[1..], depth + 1);
        assert before[1..] == rest;
        forall i | 1 <= i < |before| ensures IsRoot(before, i) == IsRoot(rest, i - 1) {
          assert forall j :: 1 <= j < i ==> before[j] == rest[j - 1];
          assert forall j :: 0 <= j < i - 1 ==> rest[j] == before[j + 1];
        }
      }
    }
  }

  /**
   A manifest the builder's template promises: outer header of at least 8 bytes, 28-byte pool
   header, chunks that follow each other, replaced strings used as values only, and one
   versionCode on the root.
   */
  ghost predicate WellFormedManifest(data: bytes, replacements: Replacements) {
    && PlainPlaceholders(replacements) && 8 <= |data| && 8 <= U16At(data, 2)
    && var header := U16At(data, 2);
    StrictPool(data, header).Ok? && U16At(data, header + 2) == HEADER_SIZE
    && var pool := StrictPool(data, header).value;
    && header + pool.chunkSize <= |data|
    && Characters(pool.strings) <= 64 * 1024 * 1024
    && Characters(ReplaceAll(replacements, pool.strings)) <= 64 * 1024 * 1024
    && var chunks := data[header + pool.chunkSize..];
    && ChunksOk(chunks, 0, pool.strings, replacements)
    && (FindVersionCode(chunks, 0, pool.strings, []).Ok? ==>
          RootIsClear(chunks, 0, pool.strings, [], FindVersionCode(chunks, 0, pool.strings, []).value))
  }

  lemma OriginalParses(data: bytes, replacements: Replacements)
    requires WellFormedManifest(data, replacements) && U16At(data, 0) == RES_XML
    ensures var pool := StrictPool(data, U16At(data, 2)).value;
            var events := ReadEvents(data[U16At(data, 2) + pool.chunkSize..], 0, pool.strings, []);
            events.Ok? && Parsed(data) == Ok(Elements(events.value, 0))
  {
    hide U16At, U32At, StrictPool, TolerantPool, ReadEvents, ChunksOk, RootIsClear, FindVersionCode, Elements;
    var header := U16At(data, 2);
    ReadersAgree(data, header);
    var pool := StrictPool(data, header).value;
    var begin := header + pool.chunkSize;
    assert Holds(data, begin, data[begin..]);
    EventsOfSuffix(data, begin, data[begin..], 0, pool.strings, []);
    EventsRead(data[begin..], 0, pool.strings, [], replacements);
  }

  /** The rewritten buffer: its header, its pool and its chunks lie where a reader looks. */
  lemma ReassembledParts(data: bytes, strings: seq<string>, utf8: bool, chunks: bytes)
    requires 8 <= |data| && 8 <= U16At(data, 2) <= |data| && Encoded(strings, utf8).Ok?
    requires U16At(data, 2) + |Encoded(strings, utf8).value| + |chunks| < U32_LIMIT
    ensures var newPool, header := Encoded(strings, utf8).value, U16At(data, 2);
            var out := Reassembled(data, newPool, chunks);
            && |out| == header + |newPool| + |chunks| && U32At(out, 4) == |out|
            && U16At(out, 0) == RES_XML && U16At(out, 2) == header
            && TolerantPool(out, header) ==
               (if Characters(strings) <= 64 * 1024 * 1024 then Ok(Pool(strings, utf8, |newPool|))
                else Err(PoolTooLarge))
            && Holds(out, header + |newPool|, chunks)
  {
    hide U16At, U32At, U16, U32, Encoded, TolerantPool;
    var newPool, header := Encoded(strings, utf8).value, U16At(data, 2);
    var size := header + |newPool| + |chunks|;
    var out, front := Reassembled(data, newPool, chunks), U16(RES_XML) + U16(header) + U32(size) + data[8..header];
    assert out == front + newPool + chunks;
    TolerantRoundTrip(front, strings, utf8, chunks);
    var rest := data[8..header] + newPool + chunks;
    assert out == [] + U16(RES_XML) + (U16(header) + U32(size) + rest);
    U16Reads([], RES_XML, U16(header) + U32(size) + rest);
    assert out == U16(RES_XML) + U16(header) + (U32(size) + rest);
    U16Reads(U16(RES_XML), header, U32(size) + rest);
    assert out == (U16(RES_XML) + U16(header)) + U32(size) + rest;
    U32Reads(U16(RES_XML) + U16(header), size, rest);
  }

  /** Parsing a rewritten well-formed manifest gives the original's elements, edited as asked. */
  lemma RewritePreservesMeaning(data: bytes, replacements: Replacements, version: nat)
    requires WellFormedManifest(data, replacements) && Rewritten(data, replacements, version).Ok?
    ensures var out := Rewritten(data, replacements, version).value;
            && Parsed(data).Ok? && Parsed(out).Ok?
            && SameMeaning(replacements, version, Parsed(data).value, Parsed(out).value)
            && 8 <= |out| && U32At(out, 4) == |out|
  {
    hide U16At, U32At, StrictPool, TolerantPool, ReadEvents, ChunksOk, RootIsClear, FindVersionCode, Elements, Encoded,
         ReplaceAll, Patched, Reassembled, SameMeaning, EachExactlyOnce, NamesPackageElsewhere, PlainPlaceholders;
    var header := U16At(data, 2);
    var pool := StrictPool(data, header).value;
    var chunks := data[header + pool.chunkSize..];
    assert chunks == data[header + pool.chunkSize..|data|];
    var written := FindVersionCode(chunks, 0, pool.strings, []).value;
    OriginalParses(data, replacements);
    var events := ReadEvents(chunks, 0, pool.strings, []).value;
    EventsRewritten(replacements, chunks, 0, pool.strings, [], version);
    var newStrings, patched := ReplaceAll(replacements, pool.strings), Patched(chunks, written, version);
    ReassembledParts(data, newStrings, pool.utf8, patched);
    var out := Rewritten(data, replacements, version).value;
    var begin := header + |Encoded(newStrings, pool.utf8).value|;
    EventsOfSuffix(out, begin, patched, 0, newStrings, []);
    ElementsRewritten(replacements, version, events, 0);
  }
}
