/** Reading a printed document gives its elements in order, each with its depth and its attributes' meaning. */
module AxmlDocumentTheorems {
  import opened Wrappers
  import opened Bytes
  import opened Lists
  import opened StringPools
  import opened StringPoolTheorems
  import opened Axml
  import opened ElementTree
  import D = AxmlDocuments

  // ------------------------------------------------------- one attribute

  /** The five fields of a printed attribute. */
  lemma FieldsRead(data: bytes, base: nat, namespace: nat, name: nat, raw: nat, kind: nat, word: nat)
    requires namespace < U32_LIMIT && name < U32_LIMIT && raw < U32_LIMIT && kind < 256 && word < U32_LIMIT
    requires Holds(data, base, U32(namespace) + U32(name) + U32(raw) + [8, 0, 0, kind % 256] + U32(word))
    ensures base + 20 <= |data|
    ensures U32At(data, base) == namespace && U32At(data, base + 4) == name && U32At(data, base + 8) == raw
    ensures Byte(data, base + 15) == kind && U32At(data, base + 16) == word
  {
    hide U32, U32At;
    var part := U32(namespace) + U32(name) + U32(raw) + [8, 0, 0, kind % 256] + U32(word);
    assert part == [] + U32(namespace) + (U32(name) + U32(raw) + [8, 0, 0, kind % 256] + U32(word));
    U32Reads([], namespace, U32(name) + U32(raw) + [8, 0, 0, kind % 256] + U32(word));
    assert part == U32(namespace) + U32(name) + (U32(raw) + [8, 0, 0, kind % 256] + U32(word));
    U32Reads(U32(namespace), name, U32(raw) + [8, 0, 0, kind % 256] + U32(word));
    assert part == (U32(namespace) + U32(name)) + U32(raw) + ([8, 0, 0, kind % 256] + U32(word));
    U32Reads(U32(namespace) + U32(name), raw, [8, 0, 0, kind % 256] + U32(word));
    assert part == (U32(namespace) + U32(name) + U32(raw) + [8, 0, 0, kind % 256]) + U32(word) + [];
    U32Reads(U32(namespace) + U32(name) + U32(raw) + [8, 0, 0, kind % 256], word, []);
    ReadsInside(data, base, part, 0);
    ReadsInside(data, base, part, 4);
    ReadsInside(data, base, part, 8);
    ReadsInside(data, base, part, 16);
    assert data[base..base + 20][15] == part[15] == kind;
  }

  lemma TypedReads(strings: seq<string>, t: D.Typed)
    requires D.PrintableTyped(strings, t) && |strings| < D.NOTHING
    ensures var (kind, word, raw) := D.Words(strings, t);
            && kind < 256 && word < U32_LIMIT && raw < U32_LIMIT
            && DecodeValue(strings, kind, word, raw) == D.Meaning(t)
  {
    hide ReferenceText, D.Symbolic;
    if t.Reference? {
      D.SymbolicIsText(t.id);
    }
  }

  lemma NameReads(d: D.Document, name: D.Name)
    requires |d.strings| < D.NOTHING
    requires match name
             case Pooled(text) => text != "" && text in d.strings
             case Numbered(index) => index < D.NOTHING && (index < |d.strings| ==> d.strings[index] == "")
    ensures var index := if name.Pooled? then D.IndexOf(d.strings, name.text) else name.index;
            var key := StringAt(d.strings, index);
            && index < U32_LIMIT
            && (if key == "" && index < |d.ids| then WellKnownName(d.ids[index]) else key) == D.NameOf(d.ids, name)
  {
  }

  /** A printed attribute reads as its name, its namespace and the meaning of its value. */
  lemma AttributeReads(d: D.Document, a: D.Attribute, data: bytes, base: nat)
    requires D.PrintableAttribute(d, a) && |d.strings| < D.NOTHING
    requires Holds(data, base, D.PrintedAttribute(d.strings, a))
    ensures base + 20 <= |data|
    ensures AttributeKey(data, base, d.strings, d.ids) == D.NameOf(d.ids, a.name)
    ensures InAndroidNamespace(data, base, d.strings) <==> a.namespace == Some(D.ANDROID)
    ensures AttributeValue(data, base, d.strings) == D.Meaning(a.typed)
  {
    hide U32, U32At, DecodeValue, D.Words, WellKnownName, D.Meaning;
    var (kind, word, raw) := D.Words(d.strings, a.typed);
    var namespace := if a.namespace.Some? then D.IndexOf(d.strings, a.namespace.value) else D.NOTHING;
    var name := if a.name.Pooled? then D.IndexOf(d.strings, a.name.text) else a.name.index;
    TypedReads(d.strings, a.typed);
    NameReads(d, a.name);
    FieldsRead(data, base, namespace, name, raw, kind, word);
  }

  // ------------------------------------------------------- all attributes of an element

  lemma SetDefaultIsDistinct(pairs: seq<(string, Value)>, key: string, value: Value)
    ensures SetDefault(DistinctBy(pairs, D.KeyOf), key, value) == DistinctBy(pairs + [(key, value)], D.KeyOf)
  {
    hide DistinctBy;
    var kept := DistinctBy(pairs, D.KeyOf);
    DistinctSnoc(pairs, (key, value), D.KeyOf);
    DistinctSees(pairs, D.KeyOf, key);
    assert HasKey(kept, key) <==> SeenBy(kept, D.KeyOf, key) by {
      assert forall i :: 0 <= i < |kept| ==> D.KeyOf(kept[i]) == kept[i].0;
    }
  }

  lemma OfferedAreAdded(ids: seq<nat>, a: D.Attribute, pairs: seq<(string, Value)>)
    ensures AddAttribute(DistinctBy(pairs, D.KeyOf), D.NameOf(ids, a.name), a.namespace == Some(D.ANDROID),
                         D.Meaning(a.typed))
            == DistinctBy(pairs + D.Offered(ids, a), D.KeyOf)
  {
    hide DistinctBy, SetDefault, D.Meaning, D.NameOf;
    var name, meaning := D.NameOf(ids, a.name), D.Meaning(a.typed);
    if name == "" || meaning.None? {
      assert pairs + [] == pairs;
    } else if a.namespace == Some(D.ANDROID) {
      var prefixed := ("android:" + name, meaning.value);
      SetDefaultIsDistinct(pairs, prefixed.0, meaning.value);
      SetDefaultIsDistinct(pairs + [prefixed], name, meaning.value);
      assert pairs + ([prefixed] + [(name, meaning.value)]) == pairs + [prefixed] + [(name, meaning.value)];
    } else {
      SetDefaultIsDistinct(pairs, name, meaning.value);
      assert [] + [(name, meaning.value)] == [(name, meaning.value)];
    }
  }

  lemma {:induction false} AttributesRead(d: D.Document, attributes: seq<D.Attribute>, data: bytes, at: nat)
    requires |d.strings| < D.NOTHING && forall a :: a in attributes ==> D.PrintableAttribute(d, a)
    requires Holds(data, at, D.PrintedAttributes(d.strings, attributes))
    ensures ReadAttributes(data, at, 20, |attributes|, d.strings, d.ids) == Ok(D.MeantAttributes(d.ids, attributes))
    decreases |attributes|
  {
    hide D.PrintedAttribute, D.PrintableAttribute, AttributeKey, InAndroidNamespace, AttributeValue, AddAttribute,
         DistinctBy;
    if attributes == [] {
      DistinctOfNothing(D.KeyOf);
    } else {
      var n := |attributes| - 1;
      HoldsParts(data, at, D.PrintedAttributes(d.strings, attributes[..n]),
                 D.PrintedAttribute(d.strings, attributes[n]));
      AttributesRead(d, attributes[..n], data, at);
      AttributeReads(d, attributes[n], data, at + 20 * n);
      OfferedAreAdded(d.ids, attributes[n], D.AllOffered(d.ids, attributes[..n]));
    }
  }

  // ------------------------------------------------------- chunks

  /** What the header of an XML node says. */
  lemma NodeHeader(kind: nat, rest: bytes, data: bytes, position: nat)
    requires kind < U16_LIMIT && 16 + |rest| < U32_LIMIT && Holds(data, position, D.NodeChunk(kind, rest))
    ensures position + 16 <= |data| && U16At(data, position) == kind && U16At(data, position + 2) == 16
    ensures U32At(data, position + 4) == 16 + |rest| && Holds(data, position + 16, rest)
  {
    hide U16, U32, U16At, U32At;
    var chunk, head := D.NodeChunk(kind, rest), U16(kind) + U16(16) + U32(16 + |rest|) + U32(1) + U32(D.NOTHING);
    assert chunk == head + rest;
    HoldsParts(data, position, head, rest);
    assert head == [] + U16(kind) + (U16(16) + U32(16 + |rest|) + U32(1) + U32(D.NOTHING));
    U16Reads([], kind, U16(16) + U32(16 + |rest|) + U32(1) + U32(D.NOTHING));
    assert head == U16(kind) + U16(16) + (U32(16 + |rest|) + U32(1) + U32(D.NOTHING));
    U16Reads(U16(kind), 16, U32(16 + |rest|) + U32(1) + U32(D.NOTHING));
    assert head == (U16(kind) + U16(16)) + U32(16 + |rest|) + (U32(1) + U32(D.NOTHING));
    U32Reads(U16(kind) + U16(16), 16 + |rest|, U32(1) + U32(D.NOTHING));
    ReadsInside(data, position, head, 0);
    ReadsInside(data, position, head, 2);
    ReadsInside(data, position, head, 4);
  }

  lemma StartHead(name: nat, count: nat)
    requires name < U32_LIMIT && count < U16_LIMIT
    ensures var head := D.StartHead(name, count);
            && U32At(head, 4) == name && U16At(head, 8) == 20 && U16At(head, 10) == 20 && U16At(head, 12) == count
  {
    hide U16, U32, U16At, U32At, Zeros;
    var head := U32(D.NOTHING) + U32(name) + U16(20) + U16(20) + U16(count) + Zeros(6);
    assert head == U32(D.NOTHING) + U32(name) + (U16(20) + U16(20) + U16(count) + Zeros(6));
    U32Reads(U32(D.NOTHING), name, U16(20) + U16(20) + U16(count) + Zeros(6));
    assert head == (U32(D.NOTHING) + U32(name)) + U16(20) + (U16(20) + U16(count) + Zeros(6));
    U16Reads(U32(D.NOTHING) + U32(name), 20, U16(20) + U16(count) + Zeros(6));
    assert head == (U32(D.NOTHING) + U32(name) + U16(20)) + U16(20) + (U16(count) + Zeros(6));
    U16Reads(U32(D.NOTHING) + U32(name) + U16(20), 20, U16(count) + Zeros(6));
    U16Reads(U32(D.NOTHING) + U32(name) + U16(20) + U16(20), count, Zeros(6));
  }

  lemma StartFields(strings: seq<string>, e: D.Element, data: bytes, offset: nat)
    requires |strings| < D.NOTHING && |e.attributes| < U16_LIMIT && Holds(data, offset, D.PrintedStart(strings, e))
    ensures offset + 20 <= |data| && U32At(data, offset + 4) == D.IndexOf(strings, e.name)
    ensures U16At(data, offset + 8) == 20 && U16At(data, offset + 10) == 20
    ensures U16At(data, offset + 12) == |e.attributes|
    ensures Holds(data, offset + 20, D.PrintedAttributes(strings, e.attributes))
  {
    hide D.StartHead, U16At, U32At, D.PrintedAttributes, D.PrintedStart, Holds;
    StartParts(strings, e, data, offset);
    HeadReads(D.IndexOf(strings, e.name), |e.attributes|, data, offset);
  }

  lemma StartParts(strings: seq<string>, e: D.Element, data: bytes, offset: nat)
    requires Holds(data, offset, D.PrintedStart(strings, e))
    ensures Holds(data, offset, D.StartHead(D.IndexOf(strings, e.name), |e.attributes|))
    ensures Holds(data, offset + 20, D.PrintedAttributes(strings, e.attributes))
  {
    hide D.StartHead, D.PrintedAttributes, D.IndexOf;
    HoldsParts(data, offset, D.StartHead(D.IndexOf(strings, e.name), |e.attributes|),
               D.PrintedAttributes(strings, e.attributes));
  }

  lemma HeadReads(name: nat, count: nat, data: bytes, offset: nat)
    requires name < U32_LIMIT && count < U16_LIMIT && Holds(data, offset, D.StartHead(name, count))
    ensures offset + 20 <= |data| && U32At(data, offset + 4) == name && U16At(data, offset + 8) == 20
    ensures U16At(data, offset + 10) == 20 && U16At(data, offset + 12) == count
  {
    hide D.StartHead, U16At, U32At;
    var head := D.StartHead(name, count);
    StartHead(name, count);
    ReadsInside(data, offset, head, 4);
    ReadsInside(data, offset, head, 8);
    ReadsInside(data, offset, head, 10);
    ReadsInside(data, offset, head, 12);
  }

  /** A start element reads as its name and its attributes' meaning. */
  lemma StartReads(d: D.Document, e: D.Element, data: bytes, offset: nat)
    requires |d.strings| < D.NOTHING && e.name in d.strings && |e.attributes| < U16_LIMIT
    requires forall a :: a in e.attributes ==> D.PrintableAttribute(d, a)
    requires Holds(data, offset, D.PrintedStart(d.strings, e))
    ensures ReadStart(data, offset, d.strings, d.ids) == Ok(Start(e.name, D.MeantAttributes(d.ids, e.attributes)))
  {
    hide U16At, U32At, D.PrintedStart, D.PrintedAttributes, ReadAttributes, D.MeantAttributes, D.PrintableAttribute;
    StartFields(d.strings, e, data, offset);
    AttributesRead(d, e.attributes, data, offset + 20);
  }

  /** These events, before the rest of the document's. */
  function Followed(events: seq<Event>, rest: Result<seq<Event>, AxmlError>): Result<seq<Event>, AxmlError> {
    if rest.Err? then rest else Ok(events + rest.value)
  }

  lemma FollowedTwice(a: seq<Event>, b: seq<Event>, rest: Result<seq<Event>, AxmlError>)
    ensures Followed(a, Followed(b, rest)) == Followed(a + b, rest)
    ensures Followed([], rest) == rest
  {
    if rest.Ok? {
      assert a + (b + rest.value) == a + b + rest.value;
      assert [] + rest.value == rest.value;
    }
  }

  /** One chunk of the walk. */
  lemma ChunkReads(kind: nat, rest: bytes, data: bytes, position: nat, strings: seq<string>, ids: seq<nat>)
    requires kind < U16_LIMIT && kind != RES_XML_RESOURCE_MAP && 16 + |rest| < U32_LIMIT
    requires Holds(data, position, D.NodeChunk(kind, rest))
    requires kind == RES_XML_START_ELEMENT ==> ReadStart(data, position + 16, strings, ids).Ok?
    ensures ReadEvents(data, position, strings, ids) ==
            Followed(if kind == RES_XML_START_ELEMENT then [ReadStart(data, position + 16, strings, ids).value]
                     else if kind == RES_XML_END_ELEMENT then [End] else [],
                     ReadEvents(data, position + 16 + |rest|, strings, ids))
  {
    hide U16At, U32At, ReadStart;
    NodeHeader(kind, rest, data, position);
    FollowedTwice([], [], ReadEvents(data, position + 16 + |rest|, strings, ids));
  }

  /** The printed forest reads as the events of the trees it means, wherever it lies. */
  lemma {:induction false} ForestReads(d: D.Document, forest: seq<D.Element>, data: bytes, position: nat)
    requires |d.strings| < D.NOTHING && D.PrintableForest(d, forest)
    requires Holds(data, position, D.PrintedForest(d.strings, forest))
    ensures ReadEvents(data, position, d.strings, d.ids) ==
            Followed(Events(D.Meant(d.ids, forest)),
                     ReadEvents(data, position + |D.PrintedForest(d.strings, forest)|, d.strings, d.ids))
    decreases forest
  {
    hide ReadEvents, D.NodeChunk, D.PrintedStart, ReadStart, D.MeantAttributes, D.PrintableAttribute, U32, Followed,
         Holds;
    if forest == [] {
      FollowedTwice([], [], ReadEvents(data, position, d.strings, d.ids));
    } else {
      var e, others := forest[0], D.PrintedForest(d.strings, forest[1..]);
      var start, inner := D.PrintedStart(d.strings, e), D.PrintedForest(d.strings, e.children);
      var name := U32(D.NOTHING) + U32(D.IndexOf(d.strings, e.name));
      var opening, closing := D.NodeChunk(0x0102, start), D.NodeChunk(0x0103, name);
      assert D.PrintedForest(d.strings, forest) == opening + inner + closing + others;
      FourParts(data, position, opening, inner, closing, others);
      MeantUnfolds(d.ids, forest);
      hide Events, D.Meant, D.PrintedForest;
      var inside, after := position + |opening|, position + |opening| + |inner| + |closing|;
      OpeningReads(d, e, data, position);
      ForestReads(d, e.children, data, inside);
      ChunkReads(0x0103, name, data, inside + |inner|, d.strings, d.ids);
      ForestReads(d, forest[1..], data, after);
      Regroup(Start(e.name, D.MeantAttributes(d.ids, e.attributes)), Events(D.Meant(d.ids, e.children)),
              Events(D.Meant(d.ids, forest[1..])), ReadEvents(data, after + |others|, d.strings, d.ids));
    }
  }

  lemma FourParts(data: bytes, at: nat, a: bytes, b: bytes, c: bytes, d: bytes)
    requires Holds(data, at, a + b + c + d)
    ensures Holds(data, at, a) && Holds(data, at + |a|, b) && Holds(data, at + |a| + |b|, c)
    ensures Holds(data, at + |a| + |b| + |c|, d)
  {
    HoldsParts(data, at, a + b + c, d);
    HoldsParts(data, at, a + b, c);
    HoldsParts(data, at, a, b);
  }

  lemma OpeningReads(d: D.Document, e: D.Element, data: bytes, position: nat)
    requires |d.strings| < D.NOTHING && e.name in d.strings && |e.attributes| < U16_LIMIT
    requires forall a :: a in e.attributes ==> D.PrintableAttribute(d, a)
    requires Holds(data, position, D.NodeChunk(0x0102, D.PrintedStart(d.strings, e)))
    ensures ReadEvents(data, position, d.strings, d.ids) ==
            Followed([Start(e.name, D.MeantAttributes(d.ids, e.attributes))],
                     ReadEvents(data, position + |D.NodeChunk(0x0102, D.PrintedStart(d.strings, e))|, d.strings, d.ids))
  {
    hide ReadEvents, D.NodeChunk, D.PrintedStart, ReadStart, D.MeantAttributes, D.PrintableAttribute, Followed, Holds;
    var start := D.PrintedStart(d.strings, e);
    StartIsHeld(0x0102, start, data, position);
    StartReads(d, e, data, position + 16);
    ChunkReads(0x0102, start, data, position, d.strings, d.ids);
  }

  lemma StartIsHeld(kind: nat, rest: bytes, data: bytes, position: nat)
    requires Holds(data, position, D.NodeChunk(kind, rest))
    ensures Holds(data, position + 16, rest)
  {
    hide U16, U32;
    var head := U16(kind) + U16(16) + U32(16 + |rest|) + U32(1) + U32(D.NOTHING);
    HoldsParts(data, position, head, rest);
  }

  lemma Regroup(start: Event, inner: seq<Event>, others: seq<Event>, rest: Result<seq<Event>, AxmlError>)
    ensures Followed([start], Followed(inner, Followed([End], Followed(others, rest)))) ==
            Followed([start] + inner + [End] + others, rest)
  {
    FollowedTwice([End], others, rest);
    FollowedTwice(inner, [End] + others, rest);
    FollowedTwice([start], inner + ([End] + others), rest);
    assert [start] + (inner + ([End] + others)) == [start] + inner + [End] + others;
  }

  lemma MeantUnfolds(ids: seq<nat>, forest: seq<D.Element>)
    requires forest != []
    ensures Events(D.Meant(ids, forest)) ==
            [Start(forest[0].name, D.MeantAttributes(ids, forest[0].attributes))]
            + Events(D.Meant(ids, forest[0].children)) + [End] + Events(D.Meant(ids, forest[1..]))
  {
    hide D.MeantAttributes;
    var trees, tree := D.Meant(ids, forest), Node(forest[0].name, D.MeantAttributes(ids, forest[0].attributes),
                                                  D.Meant(ids, forest[0].children));
    assert trees == [tree] + D.Meant(ids, forest[1..]);
    assert trees[0] == tree && trees[1..] == D.Meant(ids, forest[1..]);
  }

  // ------------------------------------------------------- the whole document

  lemma {:induction false} IdsLie(ids: seq<nat>, data: bytes, at: nat)
    requires (forall k :: 0 <= k < |ids| ==> ids[k] < U32_LIMIT) && Holds(data, at, D.PrintedIds(ids))
    ensures at + 4 * |ids| <= |data| && forall i :: 0 <= i < |ids| ==> U32At(data, at + 4 * i) == ids[i]
    decreases |ids|
  {
    hide U32, U32At;
    if ids != [] {
      var n := |ids| - 1;
      HoldsParts(data, at, D.PrintedIds(ids[..n]), U32(ids[n]));
      IdsLie(ids[..n], data, at);
      U32Reads([], ids[n], []);
      assert [] + U32(ids[n]) + [] == U32(ids[n]);
      ReadsInside(data, at + 4 * n, U32(ids[n]), 0);
    }
  }

  lemma MapHeadReads(count: nat, data: bytes, position: nat)
    requires 8 + 4 * count < U32_LIMIT && Holds(data, position, D.MapHead(count))
    ensures position + 8 <= |data| && U16At(data, position) == 0x0180 && U16At(data, position + 2) == 8
    ensures U32At(data, position + 4) == 8 + 4 * count
  {
    hide U16, U32, U16At, U32At;
    var head, size := D.MapHead(count), 8 + 4 * count;
    assert head == [] + U16(0x0180) + (U16(8) + U32(size));
    U16Reads([], 0x0180, U16(8) + U32(size));
    U16Reads(U16(0x0180), 8, U32(size));
    assert head == (U16(0x0180) + U16(8)) + U32(size) + [];
    U32Reads(U16(0x0180) + U16(8), size, []);
    ReadsInside(data, position, head, 0);
    ReadsInside(data, position, head, 2);
    ReadsInside(data, position, head, 4);
  }

  lemma MapSize(n: nat, data: bytes, position: nat)
    requires position + 8 + 4 * n <= |data|
    ensures ReadIds(data, position, 8, 8 + 4 * n).Ok? && |ReadIds(data, position, 8, 8 + 4 * n).value| == n
  {
    hide U32At;
  }

  lemma IdsAre(ids: seq<nat>, data: bytes, position: nat)
    requires position + 8 + 4 * |ids| <= |data|
    requires forall i :: 0 <= i < |ids| ==> U32At(data, position + 8 + 4 * i) == ids[i]
    ensures ReadIds(data, position, 8, 8 + 4 * |ids|) == Ok(ids)
  {
    hide U32At;
    MapSize(|ids|, data, position);
    var read := ReadIds(data, position, 8, 8 + 4 * |ids|).value;
    assert forall i :: 0 <= i < |ids| ==> read[i] == U32At(data, position + 8 + 4 * i);
    assert read == ids;
  }

  /** The ids the resource map gives. */
  lemma IdsRead(ids: seq<nat>, data: bytes, position: nat)
    requires (forall i :: 0 <= i < |ids| ==> ids[i] < U32_LIMIT) && Holds(data, position + 8, D.PrintedIds(ids))
    ensures ReadIds(data, position, 8, 8 + 4 * |ids|) == Ok(ids)
  {
    hide U32At, D.PrintedIds, ReadIds, Holds;
    IdsLie(ids, data, position + 8);
    IdsAre(ids, data, position);
  }

  /** All chunks of a document, wherever they end a file. */
  lemma ChunksRead(d: D.Document, data: bytes, position: nat)
    requires D.PrintableDocument(d) && position + |D.PrintedChunks(d)| == |data|
    requires Holds(data, position, D.PrintedChunks(d))
    ensures ReadEvents(data, position, d.strings, []) == Ok(Events(D.Meant(d.ids, d.forest)))
  {
    hide U16At, U32At, U32, D.NodeChunk, D.PrintedForest, D.PrintedIds, D.MapHead, ReadIds, Events, D.Meant,
         D.PrintableForest, ReadEvents, Encoded, Characters, D.IndexOf;
    var namespace := U32(D.NOTHING) + U32(D.IndexOf(d.strings, D.ANDROID));
    var ids, head, forest := D.PrintedIds(d.ids), D.MapHead(|d.ids|), D.PrintedForest(d.strings, d.forest);
    var opening, closing := D.NodeChunk(0x0100, namespace), D.NodeChunk(0x0101, namespace);
    HoldsParts(data, position, head + ids + opening + forest, closing);
    HoldsParts(data, position, head + ids + opening, forest);
    HoldsParts(data, position, head + ids, opening);
    HoldsParts(data, position, head, ids);
    MapReads(d.ids, data, position, d.strings);
    var first := position + 8 + |ids|;
    ChunkReads(0x0100, namespace, data, first, d.strings, d.ids);
    ForestReads(d, d.forest, data, first + |opening|);
    ChunkReads(0x0101, namespace, data, first + |opening| + |forest|, d.strings, d.ids);
    NothingMore(data, d.strings, d.ids);
    var events := Events(D.Meant(d.ids, d.forest));
    FollowedTwice([], [], Ok([]));
    FollowedTwice([], [], ReadEvents(data, first + |opening|, d.strings, d.ids));
    assert events + [] == events;
  }

  lemma MapReads(ids: seq<nat>, data: bytes, position: nat, strings: seq<string>)
    requires 8 + 4 * |ids| < U32_LIMIT && forall i :: 0 <= i < |ids| ==> ids[i] < U32_LIMIT
    requires Holds(data, position, D.MapHead(|ids|)) && Holds(data, position + 8, D.PrintedIds(ids))
    ensures ReadEvents(data, position, strings, []) == ReadEvents(data, position + 8 + 4 * |ids|, strings, ids)
  {
    hide Holds, D.MapHead, D.PrintedIds, ReadEvents, ReadIds, U16At, U32At;
    MapHeadReads(|ids|, data, position);
    IdsRead(ids, data, position);
    MapStep(data, position, 8 + 4 * |ids|, strings, ids);
  }

  lemma MapStep(data: bytes, position: nat, size: nat, strings: seq<string>, ids: seq<nat>)
    requires position + 8 <= |data| && U16At(data, position) == 0x0180 && size > 0
    requires U16At(data, position + 2) == 8 && U32At(data, position + 4) == size
    requires ReadIds(data, position, 8, size) == Ok(ids)
    ensures ReadEvents(data, position, strings, []) == ReadEvents(data, position + size, strings, ids)
  {
    hide U16At, U32At, ReadIds, ReadStart;
  }

  lemma NothingMore(data: bytes, strings: seq<string>, ids: seq<nat>)
    ensures ReadEvents(data, |data|, strings, ids) == Ok([])
  {
  }

  /** The outer header and the pool of a printed document. */
  lemma DocumentHead(d: D.Document)
    requires D.PrintableDocument(d)
    ensures var data, pool := D.Printed(d), Encoded(d.strings, d.utf8).value;
            && |data| >= 8 && U16At(data, 0) == RES_XML && U16At(data, 2) == 8
            && DocumentPool(data) == Ok(Pool(d.strings, d.utf8, |pool|))
            && |data| == 8 + |pool| + |D.PrintedChunks(d)| && Holds(data, 8 + |pool|, D.PrintedChunks(d))
  {
    hide U16At, U32At, U16, U32, D.PrintedChunks, Encoded, TolerantPool, Characters, D.PrintableForest;
    var data, pool, chunks := D.Printed(d), Encoded(d.strings, d.utf8).value, D.PrintedChunks(d);
    var size := 8 + |pool| + |chunks|;
    var head := U16(0x0003) + U16(8) + U32(size);
    assert data == head + pool + chunks;
    TolerantRoundTrip(head, d.strings, d.utf8, chunks);
    assert data == [] + U16(0x0003) + (U16(8) + U32(size) + pool + chunks);
    U16Reads([], 0x0003, U16(8) + U32(size) + pool + chunks);
    assert data == U16(0x0003) + U16(8) + (U32(size) + pool + chunks);
    U16Reads(U16(0x0003), 8, U32(size) + pool + chunks);
  }

  /**
   For every document that can be printed: reading it gives its elements in document order with
   their true depths, each under its name, and of each attribute exactly the keys and the value it
   means, the first value of a key counting.
   */
  lemma PrintedDocumentIsRead(d: D.Document)
    requires D.PrintableDocument(d)
    ensures Parsed(D.Printed(d)) == Ok(Preorder(D.Meant(d.ids, d.forest), 0))
  {
    hide U16At, U32At, D.Printed, D.PrintedChunks, DocumentPool, ReadEvents, Encoded, Elements, Events, Preorder,
         D.Meant;
    var data, pool := D.Printed(d), Encoded(d.strings, d.utf8).value;
    DocumentHead(d);
    ChunksRead(d, data, 8 + |pool|);
    var trees := D.Meant(d.ids, d.forest);
    ElementsArePreorder(trees, [], 0);
    assert Events(trees) + [] == Events(trees);
    NoElements();
    assert Preorder(trees, 0) + [] == Preorder(trees, 0);
  }

  lemma NoElements()
    ensures Elements([], 0) == []
  {
  }
}
