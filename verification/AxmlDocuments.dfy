/** Documents printed as binary XML, and what reading them must give: names, typed values and depths. */
module AxmlDocuments {
  import opened Wrappers
  import opened Bytes
  import opened Lists
  import opened StringPools
  import opened Axml
  import opened ElementTree

  // ------------------------------------------------------- documents

  /** A typed value. A string may stand in the value's own word or only in the raw one. */
  datatype Typed =
    | OwnText(text: string)
    | RawText(text: string)
    | Decimal(n: nat)
    | Hexadecimal(n: nat)
    | Boolean(b: bool, word: nat)
    | Reference(id: nat)
    | Other(kind: nat, word: nat, raw: Option<string>)

  /** An attribute is named from the pool, or by the resource id at some index. */
  datatype Name = Pooled(text: string) | Numbered(index: nat)

  datatype Attribute = Attribute(namespace: Option<string>, name: Name, typed: Typed)

  datatype Element = Tag(name: string, attributes: seq<Attribute>, children: seq<Element>)

  /** The pool's strings, in its encoding, and the resource ids of the first attribute names. */
  datatype Document = Document(strings: seq<string>, utf8: bool, ids: seq<nat>, forest: seq<Element>)

  // ------------------------------------------------------- printing

  /** Where a string first stands in the pool; past its end when it does not. */
  function IndexOf(strings: seq<string>, s: string): (i: nat)
    ensures i <= |strings|
    ensures s in strings ==> i < |strings| && strings[i] == s
  {
    if strings == [] || strings[0] == s then 0 else 1 + IndexOf(strings[1..], s)
  }

  const NOTHING: nat := 0xFFFF_FFFF
  const ANDROID := "http://schemas.android.com/apk/res/android"

  /** The `Res_value` and the raw string of a typed value: kind, word and raw index. */
  function Words(strings: seq<string>, t: Typed): (nat, nat, nat) {
    match t
    case OwnText(s) => (0x03, IndexOf(strings, s), NOTHING)
    case RawText(s) => (0x03, NOTHING, IndexOf(strings, s))
    case Decimal(n) => (0x10, n, NOTHING)
    case Hexadecimal(n) => (0x11, n, NOTHING)
    case Boolean(b, word) => (0x12, if b then word else 0, NOTHING)
    case Reference(id) => (0x01, id, NOTHING)
    case Other(kind, word, raw) => (kind, word, if raw.Some? then IndexOf(strings, raw.value) else NOTHING)
  }

  function PrintedAttribute(strings: seq<string>, a: Attribute): (b: bytes)
    ensures |b| == 20
  {
    var (kind, word, raw) := Words(strings, a.typed);
    U32(if a.namespace.Some? then IndexOf(strings, a.namespace.value) else NOTHING) +
    U32(if a.name.Pooled? then IndexOf(strings, a.name.text) else a.name.index) +
    U32(raw) + [8, 0, 0, kind % 256] + U32(word)
  }

  function PrintedAttributes(strings: seq<string>, attributes: seq<Attribute>): (b: bytes)
    ensures |b| == 20 * |attributes|
  {
    if attributes == [] then []
    else
      var last := |attributes| - 1;
      PrintedAttributes(strings, attributes[..last]) + PrintedAttribute(strings, attributes[last])
  }

  /** Of a start chunk after its 16-byte header: no namespace, the name, and where and how many the attributes are. */
  function StartHead(name: nat, count: nat): (b: bytes)
    ensures |b| == 20
  {
    U32(NOTHING) + U32(name) + U16(20) + U16(20) + U16(count) + Zeros(6)
  }

  function PrintedStart(strings: seq<string>, e: Element): (b: bytes)
    ensures |b| == 20 + 20 * |e.attributes|
  {
    StartHead(IndexOf(strings, e.name), |e.attributes|) + PrintedAttributes(strings, e.attributes)
  }

  /** A chunk of an XML node: its kind, a header of 16 bytes with line number and comment, and the rest. */
  function NodeChunk(kind: nat, rest: bytes): (b: bytes)
    ensures |b| == 16 + |rest|
  {
    U16(kind) + U16(16) + U32(16 + |rest|) + U32(1) + U32(NOTHING) + rest
  }

  function PrintedForest(strings: seq<string>, forest: seq<Element>): bytes {
    if forest == [] then []
    else
      var e := forest[0];
      NodeChunk(0x0102, PrintedStart(strings, e)) + PrintedForest(strings, e.children) +
      NodeChunk(0x0103, U32(NOTHING) + U32(IndexOf(strings, e.name))) + PrintedForest(strings, forest[1..])
  }

  function PrintedIds(ids: seq<nat>): (b: bytes)
    ensures |b| == 4 * |ids|
  {
    if ids == [] then [] else PrintedIds(ids[..|ids| - 1]) + U32(ids[|ids| - 1])
  }

  /** The header of a resource map. */
  function MapHead(count: nat): (b: bytes)
    ensures |b| == 8
  {
    U16(0x0180) + U16(8) + U32(8 + 4 * count)
  }

  /** The resource map, a namespace's start, the forest, and the namespace's end. */
  function PrintedChunks(d: Document): bytes {
    var namespace := U32(NOTHING) + U32(IndexOf(d.strings, ANDROID));
    MapHead(|d.ids|) + PrintedIds(d.ids) + NodeChunk(0x0100, namespace) +
    PrintedForest(d.strings, d.forest) + NodeChunk(0x0101, namespace)
  }

  function Printed(d: Document): bytes
    requires Encoded(d.strings, d.utf8).Ok?
  {
    var pool, chunks := Encoded(d.strings, d.utf8).value, PrintedChunks(d);
    U16(0x0003) + U16(8) + U32(8 + |pool| + |chunks|) + pool + chunks
  }

  // ------------------------------------------------------- meaning

  /** Android's numbers of the attributes that are known by number. */
  const KNOWN: map<nat, string> := map[
    0x0101020C := "minSdkVersion",
    0x01010270 := "targetSdkVersion",
    0x0101021B := "versionCode",
    0x0101021C := "versionName",
    0x01010001 := "label",
    0x01010003 := "name",
    0x01010572 := "compileSdkVersion"]

  /** An attribute's name; a number that is not known leaves it without one. */
  function NameOf(ids: seq<nat>, name: Name): string {
    match name
    case Pooled(text) => text
    case Numbered(index) => if index < |ids| && ids[index] in KNOWN then KNOWN[ids[index]] else ""
  }

  function Digit(id: nat, unit: nat): char
    requires unit > 0
  {
    "0123456789abcdef"[id / unit % 16]
  }

  /** A reference, as text: `@0x` and eight hexadecimal digits. */
  function Symbolic(id: nat): string {
    ['@', '0', 'x', Digit(id, 0x1000_0000), Digit(id, 0x100_0000), Digit(id, 0x10_0000), Digit(id, 0x1_0000),
     Digit(id, 0x1000), Digit(id, 0x100), Digit(id, 0x10), Digit(id, 1)]
  }

  /** What a typed value means; a value of another kind means its raw string, or nothing. */
  function Meaning(t: Typed): Option<Value> {
    match t
    case OwnText(s) => Some(Text(s))
    case RawText(s) => Some(Text(s))
    case Decimal(n) => Some(Number(n))
    case Hexadecimal(n) => Some(Number(n))
    case Boolean(b, _) => Some(Number(if b then 1 else 0))
    case Reference(id) => Some(Text(Symbolic(id)))
    case Other(_, _, raw) => if raw.Some? then Some(Text(raw.value)) else None
  }

  /** The keys an attribute offers its value under: with the prefix, in the Android namespace, and without. */
  function Offered(ids: seq<nat>, a: Attribute): seq<(string, Value)> {
    var name, meaning := NameOf(ids, a.name), Meaning(a.typed);
    if name == "" || meaning.None? then []
    else (if a.namespace == Some(ANDROID) then [("android:" + name, meaning.value)] else []) + [(name, meaning.value)]
  }

  function AllOffered(ids: seq<nat>, attributes: seq<Attribute>): seq<(string, Value)> {
    if attributes == [] then []
    else AllOffered(ids, attributes[..|attributes| - 1]) + Offered(ids, attributes[|attributes| - 1])
  }

  function KeyOf(pair: (string, Value)): string {
    pair.0
  }

  /** Of the values offered under one key, the first counts. */
  function MeantAttributes(ids: seq<nat>, attributes: seq<Attribute>): Attributes {
    DistinctBy(AllOffered(ids, attributes), KeyOf)
  }

  /** The trees of the elements' names and attributes. */
  function Meant(ids: seq<nat>, forest: seq<Element>): seq<Tree> {
    if forest == [] then []
    else
      var e := forest[0];
      [Node(e.name, MeantAttributes(ids, e.attributes), Meant(ids, e.children))] + Meant(ids, forest[1..])
  }

  // ------------------------------------------------------- what can be printed

  predicate PrintableTyped(strings: seq<string>, t: Typed) {
    match t
    case OwnText(s) => s in strings
    case RawText(s) => s in strings
    case Decimal(n) => n < U32_LIMIT
    case Hexadecimal(n) => n < U32_LIMIT
    case Boolean(b, word) => 0 < word < U32_LIMIT
    case Reference(id) => id < U32_LIMIT
    case Other(kind, word, raw) =>
      kind < 256 && kind !in {0x01, 0x03, 0x10, 0x11, 0x12} && word < U32_LIMIT && (raw.Some? ==> raw.value in strings)
  }

  /** Used strings are in the pool, and an attribute named by number has no text at its index. */
  predicate PrintableAttribute(d: Document, a: Attribute) {
    && PrintableTyped(d.strings, a.typed)
    && (a.namespace.Some? ==> a.namespace.value in d.strings)
    && match a.name
       case Pooled(text) => text != "" && text in d.strings
       case Numbered(index) => index < NOTHING && (index < |d.strings| ==> d.strings[index] == "")
  }

  predicate PrintableForest(d: Document, forest: seq<Element>)
    decreases forest
  {
    forest == [] ||
    (var e := forest[0];
     && e.name in d.strings && |e.attributes| < U16_LIMIT
     && (forall a :: a in e.attributes ==> PrintableAttribute(d, a))
     && PrintableForest(d, e.children) && PrintableForest(d, forest[1..]))
  }

  predicate PrintableDocument(d: Document) {
    && Encoded(d.strings, d.utf8).Ok? && Characters(d.strings) <= 64 * 1024 * 1024 && |d.strings| < NOTHING
    && 4 * |d.ids| + 8 < U32_LIMIT && (forall i :: 0 <= i < |d.ids| ==> d.ids[i] < U32_LIMIT)
    && PrintableForest(d, d.forest)
  }

  // ------------------------------------------------------- one attribute

  lemma SymbolicIsText(id: nat)
    ensures ReferenceText(id) == Symbolic(id)
  {
    hide Hex;
    LastFour(id, 8);
    LastFour(id / 0x1_0000, 4);
    HexOfNothing(id / 0x1_0000 / 0x1_0000);
    HigherDigits(id);
    var low, high := Hex(id, 8), Hex(id / 0x1_0000, 4);
    assert "@0x" + low == Symbolic(id);
  }

  lemma HexOfNothing(n: nat)
    ensures Hex(n, 0) == ""
  {
  }

  lemma LastFour(n: nat, digits: nat)
    requires digits >= 4
    ensures Hex(n, digits) ==
            Hex(n / 0x1_0000, digits - 4) + [Digit(n, 0x1000), Digit(n, 0x100), Digit(n, 0x10), Digit(n, 1)]
  {
    var a, b, c := n / 16, n / 16 / 16, n / 16 / 16 / 16;
    assert Hex(n, digits) == Hex(a, digits - 1) + [Digit(n, 1)];
    assert Hex(a, digits - 1) == Hex(b, digits - 2) + [Digit(a, 1)];
    assert Hex(b, digits - 2) == Hex(c, digits - 3) + [Digit(b, 1)];
    assert Hex(c, digits - 3) == Hex(c / 16, digits - 4) + [Digit(c, 1)];
    hide Hex;
    assert a == n / 0x10 && b == n / 0x100 && c == n / 0x1000 && c / 16 == n / 0x1_0000;
  }

  lemma HigherDigits(n: nat)
    ensures var m := n / 0x1_0000;
            && Digit(m, 1) == Digit(n, 0x1_0000) && Digit(m, 0x10) == Digit(n, 0x10_0000)
            && Digit(m, 0x100) == Digit(n, 0x100_0000) && Digit(m, 0x1000) == Digit(n, 0x1000_0000)
  {
    var m := n / 0x1_0000;
    assert m / 0x10 == n / 0x10_0000 && m / 0x100 == n / 0x100_0000 && m / 0x1000 == n / 0x1000_0000;
  }
}
