/** Resource tables printed from packages, types, configurations and values, and what reading them must give. */
module TableDocuments {
  import opened Wrappers
  import opened Bytes
  import opened StringPools
  import Arsc

  // ------------------------------------------------------- tables

  /** A `Res_value`: its kind, and its word. */
  datatype Datum = Datum(kind: nat, word: nat)

  /** A resource in one configuration: a plain value, or an array of values. */
  datatype Item = Plain(isPublic: bool, datum: Datum) | Array(isPublic: bool, members: seq<Datum>)

  /** Any language, a code of letters, or a packed three-letter code. */
  datatype Language = AnyLanguage | Code(a: nat, b: nat) | Packed(a: nat, b: nat)

  /** A configuration, as many bytes of it as its length says. */
  datatype Config = Config(length: nat, language: Language, density: nat)

  /** How a type chunk's index is written: an offset for each entry, a short one, or pairs for those present. */
  datatype Form = Dense | Short | Sparse

  /** The entries of one type in one configuration, or a chunk of another kind. */
  datatype Block =
    | Entries(typeId: nat, config: Config, form: Form, slots: seq<Option<Item>>)
    | Other(kind: nat, body: bytes)

  datatype Chunk = Package(id: nat, blocks: seq<Block>) | Unknown(kind: nat, body: bytes)

  datatype Table = Table(strings: seq<string>, utf8: bool, chunks: seq<Chunk>)

  // ------------------------------------------------------- printing

  function PrintedDatum(v: Datum): (b: bytes)
    ensures |b| == 8
  {
    [8, 0, 0, v.kind % 256] + U32(v.word)
  }

  /** Array members: a name and a value each. */
  function PrintedMembers(members: seq<Datum>): (b: bytes)
    ensures |b| == 12 * |members|
  {
    if members == [] then []
    else PrintedMembers(members[..|members| - 1]) +
           (U32(0x0200_0000 + |members|) + PrintedDatum(members[|members| - 1]))
  }

  /** The header of an entry: its size, and flags that say whether it is an array and whether it is public. */
  function EntryHead(size: nat, isArray: bool, isPublic: bool): (b: bytes)
    ensures |b| == 8
  {
    U16(size) + U16((if isArray then 1 else 0) + if isPublic then 2 else 0) + U32(0)
  }

  function PrintedItem(item: Item): (b: bytes)
    ensures |b| % 4 == 0 && |b| >= 16
  {
    hide U32, EntryHead, PrintedDatum, PrintedMembers;
    match item
    case Plain(isPublic, datum) => EntryHead(8, false, isPublic) + PrintedDatum(datum)
    case Array(isPublic, members) => EntryHead(16, true, isPublic) + (U32(0) + U32(|members|)) + PrintedMembers(members)
  }

  /** All entries present, one after the other. */
  function PrintedItems(slots: seq<Option<Item>>): (b: bytes)
    ensures |b| % 4 == 0
  {
    hide PrintedItem;
    if slots == [] then []
    else
      var before, last := PrintedItems(slots[..|slots| - 1]), slots[|slots| - 1];
      if last.None? then before
      else
        AlignedSum(before, PrintedItem(last.value));
        before + PrintedItem(last.value)
  }

  lemma AlignedSum(a: bytes, b: bytes)
    requires |a| % 4 == 0 && |b| % 4 == 0
    ensures |a + b| % 4 == 0
  {
  }

  /** The index: where each entry lies among them. */
  function PrintedIndex(form: Form, slots: seq<Option<Item>>): bytes {
    if slots == [] then []
    else
      var k := |slots| - 1;
      var at, absent := |PrintedItems(slots[..k])|, slots[k].None?;
      PrintedIndex(form, slots[..k]) +
      match form
      case Dense => U32(if absent then 0xFFFF_FFFF else at)
      case Short => U16(if absent then 0xFFFF else at / 4)
      case Sparse => if absent then [] else U16(k) + U16(at / 4)
  }

  /** How many index entries there are. */
  function IndexCount(form: Form, slots: seq<Option<Item>>): nat {
    if slots == [] then 0
    else
      var before, last := IndexCount(form, slots[..|slots| - 1]), slots[|slots| - 1];
      if form == Sparse && last.None? then before else before + 1
  }

  function LanguageBytes(language: Language): (b: bytes)
    ensures |b| == 2
  {
    match language
    case AnyLanguage => [0, 0]
    case Code(a, b) => [a % 256, b % 256]
    case Packed(a, b) => [a % 256, b % 256]
  }

  /** Size, network, language, country, orientation, touch screen and density, cut to the length. */
  function PrintedConfig(c: Config): (b: bytes)
    requires c.length >= 4
    ensures |b| == c.length
  {
    (U32(c.length) + [1, 2, 3, 4] + LanguageBytes(c.language) + [85, 83, 1, 3] + U16(c.density) + Zeros(c.length))
    [..c.length]
  }

  /** The fixed header of a type chunk, before its configuration. */
  function TypeHead(header: nat, size: nat, typeId: nat, form: Form, count: nat, start: nat): (b: bytes)
    ensures |b| == 20
  {
    U16(0x0201) + U16(header) + U32(size) +
      [typeId % 256, match form case Dense => 0 case Short => 2 case Sparse => 1, 0, 0]
    + U32(count) + U32(start)
  }

  function PrintedEntries(typeId: nat, config: Config, form: Form, slots: seq<Option<Item>>): bytes
    requires config.length >= 4
  {
    var index, items := PrintedIndex(form, slots), PrintedItems(slots);
    var header, padding := 20 + config.length, Zeros(Padding(|index|));
    var start := header + |index| + |padding|;
    TypeHead(header, start + |items|, typeId, form, IndexCount(form, slots), start) + PrintedConfig(config) + index
    + padding + items
  }

  /** A chunk that is skipped. */
  function Skipped(kind: nat, body: bytes): bytes {
    U16(kind) + U16(8) + U32(8 + |body|) + body
  }

  predicate HasConfigs(blocks: seq<Block>) {
    forall b :: b in blocks && b.Entries? ==> b.config.length >= 4
  }

  function PrintedBlock(b: Block): bytes
    requires b.Entries? ==> b.config.length >= 4
  {
    match b
    case Entries(typeId, config, form, slots) => PrintedEntries(typeId, config, form, slots)
    case Other(kind, body) => Skipped(kind, body)
  }

  function PrintedBlocks(blocks: seq<Block>): bytes
    requires HasConfigs(blocks)
  {
    if blocks == [] then [] else PrintedBlock(blocks[0]) + PrintedBlocks(blocks[1..])
  }

  function PackageHead(size: nat, id: nat): (b: bytes)
    ensures |b| == 288
  {
    U16(0x0200) + U16(288) + U32(size) + U32(id) + Zeros(276)
  }

  predicate HasAllConfigs(chunks: seq<Chunk>) {
    forall c :: c in chunks && c.Package? ==> HasConfigs(c.blocks)
  }

  function PrintedChunk(c: Chunk): bytes
    requires c.Package? ==> HasConfigs(c.blocks)
  {
    match c
    case Package(id, blocks) => PackageHead(288 + |PrintedBlocks(blocks)|, id) + PrintedBlocks(blocks)
    case Unknown(kind, body) => Skipped(kind, body)
  }

  function PrintedChunks(chunks: seq<Chunk>): bytes
    requires HasAllConfigs(chunks)
  {
    if chunks == [] then [] else PrintedChunk(chunks[0]) + PrintedChunks(chunks[1..])
  }

  function Printed(t: Table): bytes
    requires Encoded(t.strings, t.utf8).Ok? && HasAllConfigs(t.chunks)
  {
    var pool, chunks := Encoded(t.strings, t.utf8).value, PrintedChunks(t.chunks);
    U16(0x0002) + U16(12) + U32(12 + |pool| + |chunks|) + U32(|t.chunks|) + pool + chunks
  }

  // ------------------------------------------------------- meaning

  function LanguageText(language: Language): string {
    match language
    case AnyLanguage => ""
    case Code(a, b) => if a < 128 then [a as char, if b < 128 then b as char else '\U{FFFD}'] else ""
    case Packed(_, _) => "???"
  }

  /** A value in its configuration: what the configuration is too short to say it does not say. */
  function MeantValue(strings: seq<string>, c: Config, v: Datum): Arsc.ResourceValue {
    Arsc.ResourceValue(
      if c.length < 16 then 0 else c.density,
      if c.length < 12 then "" else LanguageText(c.language),
      v.kind,
      if v.kind != 3 then None else Some(if v.word < |strings| then strings[v.word] else ""),
      v.word)
  }

  function MeantMembers(strings: seq<string>, c: Config, members: seq<Datum>): (r: seq<Arsc.ResourceValue>)
    ensures |r| == |members|
  {
    seq(|members|, i requires 0 <= i < |members| => MeantValue(strings, c, members[i]))
  }

  /** The id of entry `index`: package, type and index in one number. */
  function IdOf(packageId: nat, typeId: nat, index: nat): nat {
    packageId * 0x100_0000 + typeId * 0x1_0000 + index
  }

  /** The plain value a list of slots has for this id, if it has one. */
  function SlotValues(strings: seq<string>, c: Config, first: nat, slots: seq<Option<Item>>, id: nat)
    : seq<Arsc.ResourceValue>
  {
    if first <= id < first + |slots| && slots[id - first].Some? && slots[id - first].value.Plain?
    then [MeantValue(strings, c, slots[id - first].value.datum)] else []
  }

  /** The array a list of slots has for this id, if it has one with members. */
  function SlotArrays(strings: seq<string>, c: Config, first: nat, slots: seq<Option<Item>>, id: nat)
    : seq<seq<Arsc.ResourceValue>>
  {
    if first <= id < first + |slots| && slots[id - first].Some? && slots[id - first].value.Array?
       && slots[id - first].value.members != []
    then [MeantMembers(strings, c, slots[id - first].value.members)] else []
  }

  function BlocksValues(strings: seq<string>, packageId: nat, blocks: seq<Block>, id: nat): seq<Arsc.ResourceValue> {
    if blocks == [] then []
    else
      (match blocks[0]
       case Entries(typeId, config, _, slots) => SlotValues(strings, config, IdOf(packageId, typeId, 0), slots, id)
       case Other(_, _) => []) + BlocksValues(strings, packageId, blocks[1..], id)
  }

  function BlocksArrays(strings: seq<string>, packageId: nat, blocks: seq<Block>, id: nat)
    : seq<seq<Arsc.ResourceValue>>
  {
    if blocks == [] then []
    else
      (match blocks[0]
       case Entries(typeId, config, _, slots) => SlotArrays(strings, config, IdOf(packageId, typeId, 0), slots, id)
       case Other(_, _) => []) + BlocksArrays(strings, packageId, blocks[1..], id)
  }

  /** Every plain value of an id, in the order the table has them. */
  function ValuesOf(strings: seq<string>, chunks: seq<Chunk>, id: nat): seq<Arsc.ResourceValue> {
    if chunks == [] then []
    else
      (if chunks[0].Package? then BlocksValues(strings, chunks[0].id, chunks[0].blocks, id) else [])
      + ValuesOf(strings, chunks[1..], id)
  }

  /** Every array of an id that has members. */
  function ArraysOf(strings: seq<string>, chunks: seq<Chunk>, id: nat): seq<seq<Arsc.ResourceValue>> {
    if chunks == [] then []
    else
      (if chunks[0].Package? then BlocksArrays(strings, chunks[0].id, chunks[0].blocks, id) else [])
      + ArraysOf(strings, chunks[1..], id)
  }

  /** What a reader must hold: each id's values in order, and of its arrays the first. */
  ghost predicate Gives(strings: seq<string>, chunks: seq<Chunk>, t: Arsc.Tables) {
    forall id ::
      && (id in t.entries <==> ValuesOf(strings, chunks, id) != [])
      && (id in t.entries ==> t.entries[id] == ValuesOf(strings, chunks, id))
      && (id in t.arrays <==> ArraysOf(strings, chunks, id) != [])
      && (id in t.arrays ==> t.arrays[id] == ArraysOf(strings, chunks, id)[0])
  }

  // ------------------------------------------------------- what can be printed

  predicate PrintableDatum(v: Datum) {
    v.kind < 256 && v.word < U32_LIMIT
  }

  /** The reader keeps at most 512 members of an array. */
  predicate PrintableItem(item: Item) {
    match item
    case Plain(_, datum) => PrintableDatum(datum)
    case Array(_, members) => |members| <= 512 && forall i :: 0 <= i < |members| ==> PrintableDatum(members[i])
  }

  function MemberCount(slots: seq<Option<Item>>): nat {
    if slots == [] then 0
    else
      var before, last := MemberCount(slots[..|slots| - 1]), slots[|slots| - 1];
      before + if last.Some? && last.value.Array? then |last.value.members| else 0
  }

  predicate PrintableConfig(c: Config) {
    && 4 <= c.length < U16_LIMIT - 20 && c.density < U16_LIMIT
    && match c.language
       case AnyLanguage => true
       case Code(a, b) => 0 < a < 128 && b < 256
       case Packed(a, b) => 128 <= a < 256 && b < 256
  }

  /** Offsets fit the index's form, and the arrays of one chunk stay within 20,000 members. */
  predicate PrintableSlots(form: Form, slots: seq<Option<Item>>) {
    && |slots| <= U16_LIMIT && MemberCount(slots) <= 20_000
    && |PrintedItems(slots)| <= (if form == Dense then 0xFFFF_FFFF else 4 * 0xFFFF)
    && forall i :: 0 <= i < |slots| && slots[i].Some? ==> PrintableItem(slots[i].value)
  }

  predicate PrintableBlock(b: Block) {
    match b
    case Entries(typeId, config, form, slots) =>
      typeId < 256 && PrintableConfig(config) && PrintableSlots(form, slots) && |PrintedBlock(b)| < U32_LIMIT
    case Other(kind, body) => kind < U16_LIMIT && kind != 0x0201 && 8 + |body| < U32_LIMIT
  }

  predicate PrintableChunk(c: Chunk) {
    match c
    case Package(id, blocks) =>
      && id < U32_LIMIT && (forall b :: b in blocks ==> PrintableBlock(b))
      && HasConfigs(blocks) && 288 + |PrintedBlocks(blocks)| < U32_LIMIT
    case Unknown(kind, body) => kind < U16_LIMIT && kind != 0x0200 && 8 + |body| < U32_LIMIT
  }

  predicate PrintableTable(t: Table) {
    && Encoded(t.strings, t.utf8).Ok? && Characters(t.strings) <= 64 * 1024 * 1024
    && forall c :: c in t.chunks ==> PrintableChunk(c)
  }
}
