/** Reading a printed table gives each id exactly its values, in order, and its first array with members. */
module TableDocumentTheorems {
  import opened Wrappers
  import opened Bytes
  import opened StringPools
  import opened StringPoolTheorems
  import opened Arsc
  import T = TableDocuments

  // ------------------------------------------------------- ids

  function Power2(k: nat): (p: nat)
    ensures p > 0
  {
    if k == 0 then 1 else 2 * Power2(k - 1)
  }

  /** A number below 2^k and a multiple of 2^k share no bit. */
  lemma {:induction false} BitOrOfDisjoint(a: nat, b: nat, k: nat)
    requires b < Power2(k)
    ensures BitOr(a * Power2(k), b) == a * Power2(k) + b
    decreases k
  {
    hide BitOr;
    if k > 0 {
      var p := Power2(k - 1);
      Doubled(a, p);
      BitOrOfDisjoint(a, b / 2, k - 1);
      BitOrStep(a * Power2(k), b);
    } else {
      BitOrOfNothing(a);
    }
  }

  lemma BitOrOfNothing(a: nat)
    ensures BitOr(a * 1, 0) == a * 1
  {
  }

  lemma Doubled(a: nat, p: nat)
    ensures a * (2 * p) == 2 * (a * p) && a * (2 * p) % 2 == 0 && a * (2 * p) / 2 == a * p
  {
    assert a * (2 * p) == 2 * (a * p);
  }

  lemma BitOrStep(even: nat, b: nat)
    requires even % 2 == 0
    ensures BitOr(even, b) == 2 * BitOr(even / 2, b / 2) + b % 2
  {
    if b == 0 {
      assert BitOr(even / 2, 0) == even / 2;
    }
  }

  lemma SixteenAndMore()
    ensures Power2(16) == 0x1_0000 && Power2(24) == 0x100_0000
  {
    assert Power2(4) == 16 && Power2(8) == 0x100 && Power2(12) == 0x1000;
    assert Power2(20) == 0x10_0000;
  }

  lemma ResourceIdIsSum(c: TypeChunk, index: nat)
    requires c.typeId < 256 && index < U16_LIMIT
    ensures ResourceId(c, index) == T.IdOf(c.packageId, c.typeId, index)
  {
    hide BitOr;
    SixteenAndMore();
    BitOrOfDisjoint(c.packageId, c.typeId * 0x1_0000, 24);
    var high := c.packageId * 0x100 + c.typeId;
    assert c.packageId * 0x100_0000 + c.typeId * 0x1_0000 == high * 0x1_0000;
    BitOrOfDisjoint(high, index, 16);
  }

  // ------------------------------------------------------- values and entries

  /** What a type chunk says of its configuration. */
  predicate Describes(c: TypeChunk, config: T.Config) {
    && c.density == (if config.length < 16 then 0 else config.density)
    && c.language == (if config.length < 12 then "" else T.LanguageText(config.language))
  }

  lemma DatumReads(v: T.Datum, data: bytes, at: nat, c: TypeChunk, config: T.Config, strings: seq<string>)
    requires T.PrintableDatum(v) && Describes(c, config) && Holds(data, at, T.PrintedDatum(v))
    ensures at + 8 <= |data| && ReadValue(data, at, c, strings) == T.MeantValue(strings, config, v)
  {
    hide U32, U32At, T.LanguageText;
    var part := T.PrintedDatum(v);
    assert part == [8, 0, 0, v.kind % 256] + U32(v.word) + [];
    U32Reads([8, 0, 0, v.kind % 256], v.word, []);
    ReadsInside(data, at, part, 4);
    assert data[at..at + 8][3] == part[3];
  }

  lemma {:induction false} MemberReads(members: seq<T.Datum>, data: bytes, at: nat, c: TypeChunk, config: T.Config,
                                       strings: seq<string>)
    requires (forall i :: 0 <= i < |members| ==> T.PrintableDatum(members[i])) && Describes(c, config)
    requires Holds(data, at, T.PrintedMembers(members))
    ensures at + 12 * |members| <= |data|
    ensures forall i :: 0 <= i < |members| ==>
              ReadValue(data, at + 12 * i + 4, c, strings) == T.MeantValue(strings, config, members[i])
    decreases |members|
  {
    hide U32, U32At, T.PrintedDatum, ReadValue, T.MeantValue, T.PrintableDatum, Describes;
    if members != [] {
      var n := |members| - 1;
      var name := U32(0x0200_0000 + |members|);
      HoldsParts(data, at, T.PrintedMembers(members[..n]), name + T.PrintedDatum(members[n]));
      HoldsParts(data, at + 12 * n, name, T.PrintedDatum(members[n]));
      MemberReads(members[..n], data, at, c, config, strings);
      DatumReads(members[n], data, at + 12 * n + 4, c, config, strings);
      hide Holds;
      assert forall i :: 0 <= i < n ==> members[..n][i] == members[i];
    }
  }

  lemma HeadReads(size: nat, isArray: bool, isPublic: bool, data: bytes, at: nat)
    requires size < U16_LIMIT && Holds(data, at, T.EntryHead(size, isArray, isPublic))
    ensures at + 8 <= |data| && U16At(data, at) == size && (U16At(data, at + 2) % 2 == 1 <==> isArray)
  {
    hide U16, U32, U16At;
    var flags := (if isArray then 1 else 0) + if isPublic then 2 else 0;
    var head := T.EntryHead(size, isArray, isPublic);
    assert head == [] + U16(size) + (U16(flags) + U32(0));
    U16Reads([], size, U16(flags) + U32(0));
    U16Reads(U16(size), flags, U32(0));
    ReadsInside(data, at, head, 0);
    ReadsInside(data, at, head, 2);
  }

  /** What an entry adds: a plain value to its id's list, or an array unless the id has one. */
  function Added(strings: seq<string>, config: T.Config, id: nat, item: T.Item, s: TypeState): TypeState {
    match item
    case Plain(_, datum) => s.(entries := Append(s.entries, id, T.MeantValue(strings, config, datum)))
    case Array(_, members) =>
      if members == [] then s
      else
        s.(budget := if s.budget < |members| then 0 else s.budget - |members|,
           arrays := if id in s.arrays then s.arrays else s.arrays[id := T.MeantMembers(strings, config, members)])
  }

  lemma PlainReads(item: T.Item, data: bytes, at: nat, c: TypeChunk, config: T.Config, strings: seq<string>,
                   s: TypeState, id: nat)
    requires item.Plain? && T.PrintableItem(item) && Describes(c, config) && Holds(data, at, T.PrintedItem(item))
    ensures ReadEntry(data, c, strings, s, id, at) == Added(strings, config, id, item, s)
  {
    hide U16At, U32At, T.EntryHead, T.PrintedDatum, ReadValue, T.MeantValue, Append, BagMembers, Describes;
    HoldsParts(data, at, T.EntryHead(8, false, item.isPublic), T.PrintedDatum(item.datum));
    HeadReads(8, false, item.isPublic, data, at);
    DatumReads(item.datum, data, at + 8, c, config, strings);
  }

  lemma ArrayReads(item: T.Item, data: bytes, at: nat, c: TypeChunk, config: T.Config, strings: seq<string>,
                   budget: nat)
    requires item.Array? && T.PrintableItem(item) && Describes(c, config) && Holds(data, at, T.PrintedItem(item))
    requires |item.members| <= budget
    ensures at + 16 <= |data| && U16At(data, at) == 16 && U16At(data, at + 2) % 2 == 1
    ensures BagMembers(data, at, 16, c, strings, budget) == T.MeantMembers(strings, config, item.members)
  {
    hide U16At, U32At, U32, T.EntryHead, T.PrintedMembers, ReadValue, T.MeantValue, Describes;
    var head, counts, members := T.EntryHead(16, true, item.isPublic), U32(0) + U32(|item.members|), item.members;
    HoldsParts(data, at, head + counts, T.PrintedMembers(members));
    HoldsParts(data, at, head, counts);
    HeadReads(16, true, item.isPublic, data, at);
    assert counts == U32(0) + U32(|members|) + [];
    U32Reads(U32(0), |members|, []);
    ReadsInside(data, at + 8, counts, 4);
    MemberReads(members, data, at + 16, c, config, strings);
    hide Holds;
    assert BagCount(data, at, 16, budget) == |members|;
    hide BagCount;
    assert BagMembers(data, at, 16, c, strings, budget) == T.MeantMembers(strings, config, members);
  }

  lemma ItemReads(item: T.Item, data: bytes, at: nat, c: TypeChunk, config: T.Config, strings: seq<string>,
                  s: TypeState,
                  id: nat)
    requires T.PrintableItem(item) && Describes(c, config) && Holds(data, at, T.PrintedItem(item))
    requires item.Array? ==> |item.members| <= s.budget
    ensures ReadEntry(data, c, strings, s, id, at) == Added(strings, config, id, item, s)
  {
    hide U16At, U32At, T.PrintedItem, ReadValue, T.MeantValue, Append, BagMembers, Describes, Holds;
    if item.Plain? {
      PlainReads(item, data, at, c, config, strings, s, id);
    } else {
      ArrayReads(item, data, at, c, config, strings, s.budget);
    }
  }

  // ------------------------------------------------------- the slots of one chunk

  function Width(form: T.Form): nat {
    if form == T.Short then 2 else 4
  }

  lemma {:induction false} IndexLength(form: T.Form, slots: seq<Option<T.Item>>)
    ensures |T.PrintedIndex(form, slots)| == Width(form) * T.IndexCount(form, slots)
    decreases |slots|
  {
    hide T.PrintedItems;
    if slots != [] {
      IndexLength(form, slots[..|slots| - 1]);
    }
  }

  /** Two packed 16-bit numbers. */
  lemma PairReads(a: nat, b: nat, data: bytes, at: nat)
    requires a < U16_LIMIT && b < U16_LIMIT && Holds(data, at, U16(a) + U16(b))
    ensures at + 4 <= |data| && U16At(data, at) == a && U16At(data, at + 2) == b
  {
    hide U16, U16At;
    var part := U16(a) + U16(b);
    assert part == [] + U16(a) + U16(b) && part == U16(a) + U16(b) + [];
    U16Reads([], a, U16(b));
    U16Reads(U16(a), b, []);
    ReadsInside(data, at, part, 0);
    ReadsInside(data, at, part, 2);
  }

  lemma OneReads(n: nat, data: bytes, at: nat)
    ensures n < U16_LIMIT && Holds(data, at, U16(n)) ==> at + 2 <= |data| && U16At(data, at) == n
    ensures n < U32_LIMIT && Holds(data, at, U32(n)) ==> at + 4 <= |data| && U32At(data, at) == n
  {
    hide U16, U16At, U32, U32At;
    assert [] + U16(n) + [] == U16(n) && [] + U32(n) + [] == U32(n);
    if n < U16_LIMIT && Holds(data, at, U16(n)) {
      U16Reads([], n, []);
      ReadsInside(data, at, U16(n), 0);
    }
    if n < U32_LIMIT && Holds(data, at, U32(n)) {
      U32Reads([], n, []);
      ReadsInside(data, at, U32(n), 0);
    }
  }

  /** The chunk's index is in this form. */
  predicate HasForm(c: TypeChunk, form: T.Form) {
    c.sparse == (form == T.Sparse) && c.offset16 == (form == T.Short)
  }

  /** What the last index entry of a list of slots says. */
  lemma LastIndexReads(form: T.Form, slots: seq<Option<T.Item>>, data: bytes, c: TypeChunk)
    requires slots != [] && T.PrintableSlots(form, slots) && HasForm(c, form)
    requires Holds(data, c.indexAt, T.PrintedIndex(form, slots))
    ensures var k, last := |slots| - 1, slots[|slots| - 1];
            var located := EntryOffset(data, c, T.IndexCount(form, slots[..k]));
            && (last.Some? ==> located == Some((k, |T.PrintedItems(slots[..k])|)))
            && (last.None? && form != T.Sparse ==> located.None?)
            && Holds(data, c.indexAt, T.PrintedIndex(form, slots[..k]))
  {
    hide *;
    var k := |slots| - 1;
    LastWordLies(form, slots, data, c.indexAt);
    LastFits(form, slots);
    DenseSlots(slots[..k]);
    WordReads(form, k, |T.PrintedItems(slots[..k])|, slots[k].None?, T.IndexCount(form, slots[..k]), data, c);
  }

  lemma LastWordLies(form: T.Form, slots: seq<Option<T.Item>>, data: bytes, at: nat)
    requires slots != [] && Holds(data, at, T.PrintedIndex(form, slots))
    ensures var k := |slots| - 1;
            && Holds(data, at, T.PrintedIndex(form, slots[..k]))
            && Holds(data, at + Width(form) * T.IndexCount(form, slots[..k]),
                     LastWord(form, k, |T.PrintedItems(slots[..k])|, slots[k].None?))
  {
    hide *;
    var k := |slots| - 1;
    IndexUnfolds(form, slots);
    IndexLength(form, slots[..k]);
    var word := LastWord(form, k, |T.PrintedItems(slots[..k])|, slots[k].None?);
    HoldsParts(data, at, T.PrintedIndex(form, slots[..k]), word);
  }

  /** An entry that is present starts where the index can say so. */
  lemma LastFits(form: T.Form, slots: seq<Option<T.Item>>)
    requires slots != [] && T.PrintableSlots(form, slots)
    ensures |slots| - 1 < U16_LIMIT
    ensures slots[|slots| - 1].Some? ==>
              |T.PrintedItems(slots[..|slots| - 1])| < if form == T.Dense then 0xFFFF_FFFF else 4 * 0xFFFF
  {
    FitsBefore(slots);
    hide T.PrintedItems, T.MemberCount, T.PrintableItem;
  }

  lemma WordReads(form: T.Form, k: nat, at: nat, absent: bool, slot: nat, data: bytes, c: TypeChunk)
    requires HasForm(c, form) && k < U16_LIMIT && (form != T.Sparse ==> slot == k)
    requires absent || (at % 4 == 0 && at < if form == T.Dense then 0xFFFF_FFFF else 4 * 0xFFFF)
    requires Holds(data, c.indexAt + Width(form) * slot, LastWord(form, k, at, absent))
    ensures !absent ==> EntryOffset(data, c, slot) == Some((k, at))
    ensures absent && form != T.Sparse ==> EntryOffset(data, c, slot).None?
  {
    hide Holds, EntryOffset, LastWord;
    match form
    case Dense => DenseReads(data, c, k, at, absent);
    case Short => ShortReads(data, c, k, at, absent);
    case Sparse =>
      if !absent {
        SparseReads(data, c, slot, k, at);
      }
  }

  lemma IndexUnfolds(form: T.Form, slots: seq<Option<T.Item>>)
    requires slots != []
    ensures var k := |slots| - 1;
            T.PrintedIndex(form, slots) ==
            T.PrintedIndex(form, slots[..k]) + LastWord(form, k, |T.PrintedItems(slots[..k])|, slots[k].None?)
  {
    hide U16, U32, T.PrintedItems;
  }

  /** The index entry of slot `k`. */
  function LastWord(form: T.Form, k: nat, at: nat, absent: bool): bytes {
    match form
    case Dense => U32(if absent then 0xFFFF_FFFF else at)
    case Short => U16(if absent then 0xFFFF else at / 4)
    case Sparse => if absent then [] else U16(k) + U16(at / 4)
  }

  lemma DenseReads(data: bytes, c: TypeChunk, k: nat, at: nat, absent: bool)
    requires HasForm(c, T.Dense) && (absent || at < 0xFFFF_FFFF) &&
             Holds(data, c.indexAt + 4 * k, LastWord(T.Dense, k, at, absent))
    ensures EntryOffset(data, c, k) == if absent then None else Some((k, at))
  {
    hide U32, U32At, U16At;
    OneReads(if absent then 0xFFFF_FFFF else at, data, c.indexAt + 4 * k);
  }

  lemma ShortReads(data: bytes, c: TypeChunk, k: nat, at: nat, absent: bool)
    requires HasForm(c, T.Short) && (absent || (at < 4 * 0xFFFF && at % 4 == 0))
    requires Holds(data, c.indexAt + 2 * k, LastWord(T.Short, k, at, absent))
    ensures EntryOffset(data, c, k) == if absent then None else Some((k, at))
  {
    hide U16, U32At, U16At;
    OneReads(if absent then 0xFFFF else at / 4, data, c.indexAt + 2 * k);
  }

  lemma SparseReads(data: bytes, c: TypeChunk, slot: nat, k: nat, at: nat)
    requires HasForm(c, T.Sparse) && k < U16_LIMIT && at < 4 * 0xFFFF && at % 4 == 0
    requires Holds(data, c.indexAt + 4 * slot, LastWord(T.Sparse, k, at, false))
    ensures EntryOffset(data, c, slot) == Some((k, at))
  {
    hide U16, U32At, U16At;
    PairReads(k, at / 4, data, c.indexAt + 4 * slot);
  }

  /** Outside the sparse form every slot has an index entry. */
  lemma {:induction false} DenseSlots(slots: seq<Option<T.Item>>)
    ensures T.IndexCount(T.Dense, slots) == T.IndexCount(T.Short, slots) == |slots|
    decreases |slots|
  {
    if slots != [] {
      DenseSlots(slots[..|slots| - 1]);
    }
  }

  /** An entry that is present lies at least 16 bytes before the end of the entries. */
  lemma FitsBefore(slots: seq<Option<T.Item>>)
    requires slots != []
    ensures var k := |slots| - 1;
            && |T.PrintedItems(slots)| >= |T.PrintedItems(slots[..k])| + (if slots[k].Some? then 16 else 0)
            && T.MemberCount(slots) >= T.MemberCount(slots[..k])
            && (slots[k].Some? && slots[k].value.Array? ==>
                  T.MemberCount(slots) == T.MemberCount(slots[..k]) + |slots[k].value.members|)
  {
    hide T.PrintedItem;
  }

  lemma PrefixIsPrintable(form: T.Form, slots: seq<Option<T.Item>>)
    requires slots != [] && T.PrintableSlots(form, slots)
    ensures T.PrintableSlots(form, slots[..|slots| - 1])
  {
    hide T.PrintedItems, T.MemberCount, T.PrintableItem;
    FitsBefore(slots);
  }

  /** The state after a list of slots: every entry present is added, its offset noted. */
  function After(strings: seq<string>, config: T.Config, first: nat, slots: seq<Option<T.Item>>,
                 s: TypeState): TypeState {
    if slots == [] then s
    else
      var k := |slots| - 1;
      var before := After(strings, config, first, slots[..k], s);
      if slots[k].None? then before
      else Added(strings, config, first + k, slots[k].value,
                 before.(offsets := before.offsets + [|T.PrintedItems(slots[..k])|]))
  }

  /** Offsets only grow, and the budget pays for every member. */
  lemma {:induction false} AfterFacts(strings: seq<string>, config: T.Config, first: nat, slots: seq<Option<T.Item>>,
                                      s: TypeState)
    requires s.offsets == [] && T.MemberCount(slots) <= s.budget
    ensures var after := After(strings, config, first, slots, s);
            && after.budget == s.budget - T.MemberCount(slots)
            && forall o :: o in after.offsets ==> o < |T.PrintedItems(slots)|
    decreases |slots|
  {
    hide T.MeantValue, T.MeantMembers, Append;
    if slots != [] {
      FitsBefore(slots);
      AfterFacts(strings, config, first, slots[..|slots| - 1], s);
      hide T.PrintedItems;
    }
  }

  /** The slots of a printed chunk are read one by one, each entry under its own id. */
  lemma {:induction false} SlotsRead(form: T.Form, slots: seq<Option<T.Item>>, data: bytes, c: TypeChunk,
                                     config: T.Config, strings: seq<string>, s: TypeState)
    requires T.PrintableSlots(form, slots) && HasForm(c, form) && Describes(c, config) && c.typeId < 256
    requires Holds(data, c.indexAt, T.PrintedIndex(form, slots))
    requires Holds(data, c.offset + c.entriesStart, T.PrintedItems(slots))
    requires s.offsets == [] && T.MemberCount(slots) <= s.budget
    ensures ReadSlots(data, c, strings, s, T.IndexCount(form, slots)) ==
            After(strings, config, T.IdOf(c.packageId, c.typeId, 0), slots, s)
    decreases |slots|
  {
    hide EntryOffset, ReadEntry, T.PrintedIndex, Describes, Added, ResourceId, Holds, T.PrintedItem, T.PrintableItem;
    if slots != [] {
      var k, items := |slots| - 1, T.PrintedItems(slots[..|slots| - 1]);
      var first := T.IdOf(c.packageId, c.typeId, 0);
      var before := After(strings, config, first, slots[..k], s);
      PrefixIsPrintable(form, slots);
      LastIndexReads(form, slots, data, c);
      FitsBefore(slots);
      if slots[k].Some? {
        HoldsParts(data, c.offset + c.entriesStart, items, T.PrintedItem(slots[k].value));
      }
      SlotsRead(form, slots[..k], data, c, config, strings, s);
      AfterFacts(strings, config, first, slots[..k], s);
      hide T.PrintedItems, T.MemberCount;
      if slots[k].Some? {
        ResourceIdIsSum(c, k);
        ItemReads(slots[k].value, data, c.offset + c.entriesStart + |items|, c, config, strings,
                  before.(offsets := before.offsets + [|items|]), first + k);
      }
    }
  }

  // ------------------------------------------------------- what the slots mean

  /** What was there before and is still there, with values added at its end and an array if it had none. */
  ghost predicate Extends(t: Tables, values: seq<ResourceValue>, arrays: seq<seq<ResourceValue>>, t': Tables, id: nat) {
    && (id in t'.entries <==> id in t.entries || values != [])
    && (id in t'.entries ==> t'.entries[id] == (if id in t.entries then t.entries[id] else []) + values)
    && (id in t'.arrays <==> id in t.arrays || arrays != [])
    && (id in t'.arrays ==> t'.arrays[id] == if id in t.arrays then t.arrays[id] else arrays[0])
  }

  lemma ExtendsTwice(t: Tables, v: seq<ResourceValue>, a: seq<seq<ResourceValue>>, t1: Tables, v1: seq<ResourceValue>,
                     a1: seq<seq<ResourceValue>>, t2: Tables, id: nat)
    requires Extends(t, v, a, t1, id) && Extends(t1, v1, a1, t2, id)
    ensures Extends(t, v + v1, a + a1, t2, id)
  {
    if id in t2.entries {
      var base := if id in t.entries then t.entries[id] else [];
      assert base + v + v1 == base + (v + v1);
      assert id !in t1.entries ==> base + v == [];
    }
    assert a != [] ==> (a + a1)[0] == a[0];
    assert a == [] ==> a + a1 == a1;
  }

  lemma ExtendsByNothing(t: Tables, id: nat)
    ensures Extends(t, [], [], t, id)
  {
    assert id in t.entries ==> t.entries[id] + [] == t.entries[id];
  }

  function TablesOf(s: TypeState): Tables {
    Tables(s.entries, s.arrays)
  }

  /** One entry adds what it means to its own id, and nothing to any other. */
  lemma AddedMeans(strings: seq<string>, config: T.Config, at: nat, item: T.Item, s: TypeState, id: nat)
    ensures Extends(TablesOf(s),
                    if item.Plain? && id == at then [T.MeantValue(strings, config, item.datum)] else [],
                    if item.Array? && item.members != [] && id == at
                    then [T.MeantMembers(strings, config, item.members)] else [],
                    TablesOf(Added(strings, config, at, item, s)), id)
  {
    hide T.MeantValue, T.MeantMembers;
    ExtendsByNothing(TablesOf(s), id);
  }

  lemma {:induction false} AfterMeans(strings: seq<string>, config: T.Config, first: nat, slots: seq<Option<T.Item>>,
                                      s: TypeState, id: nat)
    ensures Extends(TablesOf(s), T.SlotValues(strings, config, first, slots, id),
                    T.SlotArrays(strings, config, first, slots, id), TablesOf(After(strings, config, first, slots, s)),
                      id)
    decreases |slots|
  {
    hide T.MeantValue, T.MeantMembers, T.PrintedItems, Added, Extends;
    ExtendsByNothing(TablesOf(s), id);
    if slots != [] {
      var k := |slots| - 1;
      var before := After(strings, config, first, slots[..k], s);
      var v, a := T.SlotValues(strings, config, first, slots[..k], id),
          T.SlotArrays(strings, config, first, slots[..k], id);
      AfterMeans(strings, config, first, slots[..k], s, id);
      assert forall i :: 0 <= i < k ==> slots[..k][i] == slots[i];
      assert v + [] == v && a + [] == a;
      if slots[k].Some? {
        var noted := before.(offsets := before.offsets + [|T.PrintedItems(slots[..k])|]);
        var item := slots[k].value;
        var v1 := if item.Plain? && id == first + k then [T.MeantValue(strings, config, item.datum)] else [];
        var a1 := if item.Array? && item.members != [] && id == first + k
                  then [T.MeantMembers(strings, config, item.members)] else [];
        AddedMeans(strings, config, first + k, item, noted, id);
        ExtendsTwice(TablesOf(s), v, a, TablesOf(noted), v1, a1,
                     TablesOf(Added(strings, config, first + k, item, noted)), id);
        assert id == first + k ==> v == [] && a == [];
        assert v + v1 == T.SlotValues(strings, config, first, slots, id);
        assert a + a1 == T.SlotArrays(strings, config, first, slots, id);
      }
    }
  }

  // ------------------------------------------------------- one type chunk

  /** Everything a configuration can hold, before it is cut to its length. */
  function WholeConfig(c: T.Config): bytes {
    U32(c.length) + [1, 2, 3, 4] + T.LanguageBytes(c.language) + [85, 83, 1, 3] + U16(c.density) + Zeros(c.length)
  }

  lemma WholeConfigReads(c: T.Config)
    requires T.PrintableConfig(c)
    ensures var w := WholeConfig(c);
            && |w| == 16 + c.length && U32At(w, 0) == c.length && U16At(w, 14) == c.density
            && w[8..10] == T.LanguageBytes(c.language)
  {
    hide U16, U32, U16At, U32At, Zeros, T.LanguageBytes;
    var rest := [1, 2, 3, 4] + T.LanguageBytes(c.language) + [85, 83, 1, 3];
    var w := WholeConfig(c);
    assert w == [] + U32(c.length) + (rest + U16(c.density) + Zeros(c.length));
    U32Reads([], c.length, rest + U16(c.density) + Zeros(c.length));
    assert w == (U32(c.length) + rest) + U16(c.density) + Zeros(c.length);
    U16Reads(U32(c.length) + rest, c.density, Zeros(c.length));
  }

  lemma LanguageReads(language: T.Language, a: byte, b: byte)
    requires T.LanguageBytes(language) == [a, b]
    requires match language
             case AnyLanguage => true
             case Code(a, b) => 0 < a < 128 && b < 256
             case Packed(a, b) => 128 <= a < 256 && b < 256
    ensures Language(a, b) == T.LanguageText(language)
  {
    var bytes := T.LanguageBytes(language);
    assert bytes[0] == a && bytes[1] == b;
  }

  /** A configuration says its density and language as far as it goes. */
  lemma ConfigReads(c: T.Config, data: bytes, at: nat)
    requires T.PrintableConfig(c) && Holds(data, at, T.PrintedConfig(c))
    ensures ReadConfig(data, at) == (if c.length < 16 then 0 else c.density,
                                     if c.length < 12 then "" else T.LanguageText(c.language))
  {
    hide U16At, U32At, Language, T.LanguageText, WholeConfig, T.LanguageBytes;
    var w, part := WholeConfig(c), T.PrintedConfig(c);
    WholeConfigReads(c);
    assert part == w[..c.length] by { ConfigIsCut(c); }
    hide T.PrintedConfig;
    PrefixReads(w, c.length);
    ReadsInside(data, at, part, 0);
    if c.length >= 12 {
      ReadsInside(data, at, part, 14);
      assert data[at..at + c.length][8] == w[8] && data[at..at + c.length][9] == w[9];
      assert w[8..10] == [w[8], w[9]];
      LanguageReads(c.language, w[8], w[9]);
    }
  }

  lemma ConfigIsCut(c: T.Config)
    requires c.length >= 4
    ensures T.PrintedConfig(c) == WholeConfig(c)[..c.length]
  {
  }

  lemma PrefixReads(w: bytes, n: nat)
    requires 4 <= n <= |w| - 16
    ensures U32At(w[..n], 0) == U32At(w, 0)
    ensures n >= 16 ==> U16At(w[..n], 14) == U16At(w, 14)
  {
  }

  function FlagsOf(form: T.Form): byte {
    match form
    case Dense => 0
    case Short => 2
    case Sparse => 1
  }

  lemma TypeHeadFields(header: nat, size: nat, typeId: nat, form: T.Form, count: nat, start: nat)
    requires header < U16_LIMIT && size < U32_LIMIT && typeId < 256 && count < U32_LIMIT && start < U32_LIMIT
    ensures var h := T.TypeHead(header, size, typeId, form, count, start);
            && U16At(h, 0) == 0x0201 && U16At(h, 2) == header && U32At(h, 4) == size && h[8] == typeId
            && h[9] == FlagsOf(form) && U32At(h, 12) == count && U32At(h, 16) == start
  {
    hide U16, U32, U16At, U32At;
    var h, middle := T.TypeHead(header, size, typeId, form, count, start), [typeId % 256, FlagsOf(form), 0, 0];
    assert h == U16(0x0201) + U16(header) + U32(size) + middle + U32(count) + U32(start);
    assert h == [] + U16(0x0201) + (U16(header) + U32(size) + middle + U32(count) + U32(start));
    U16Reads([], 0x0201, U16(header) + U32(size) + middle + U32(count) + U32(start));
    assert h == U16(0x0201) + U16(header) + (U32(size) + middle + U32(count) + U32(start));
    U16Reads(U16(0x0201), header, U32(size) + middle + U32(count) + U32(start));
    assert h == (U16(0x0201) + U16(header)) + U32(size) + (middle + U32(count) + U32(start));
    U32Reads(U16(0x0201) + U16(header), size, middle + U32(count) + U32(start));
    assert h == (U16(0x0201) + U16(header) + U32(size) + middle) + U32(count) + U32(start);
    U32Reads(U16(0x0201) + U16(header) + U32(size) + middle, count, U32(start));
    assert h == (U16(0x0201) + U16(header) + U32(size) + middle + U32(count)) + U32(start) + [];
    U32Reads(U16(0x0201) + U16(header) + U32(size) + middle + U32(count), start, []);
  }

  lemma TypeHeadReads(header: nat, size: nat, typeId: nat, form: T.Form, count: nat, start: nat, data: bytes, at: nat)
    requires header < U16_LIMIT && size < U32_LIMIT && typeId < 256 && count < U32_LIMIT && start < U32_LIMIT
    requires Holds(data, at, T.TypeHead(header, size, typeId, form, count, start))
    ensures at + 20 <= |data| && U16At(data, at) == 0x0201 && U16At(data, at + 2) == header
    ensures U32At(data, at + 4) == size && Byte(data, at + 8) == typeId && Byte(data, at + 9) == FlagsOf(form)
    ensures U32At(data, at + 12) == count && U32At(data, at + 16) == start
  {
    hide U16At, U32At, T.TypeHead, FlagsOf;
    var h := T.TypeHead(header, size, typeId, form, count, start);
    TypeHeadFields(header, size, typeId, form, count, start);
    ReadsInside(data, at, h, 0);
    ReadsInside(data, at, h, 2);
    ReadsInside(data, at, h, 4);
    ReadsInside(data, at, h, 12);
    ReadsInside(data, at, h, 16);
    assert data[at..at + 20][8] == h[8] && data[at..at + 20][9] == h[9];
  }

  /** The sizes that a printed type chunk states. */
  datatype Layout = Layout(header: nat, size: nat, start: nat, count: nat)

  function LayoutOf(config: T.Config, form: T.Form, slots: seq<Option<T.Item>>): Layout {
    var index := |T.PrintedIndex(form, slots)|;
    var start := 20 + config.length + index + Padding(index);
    Layout(20 + config.length, start + |T.PrintedItems(slots)|, start, T.IndexCount(form, slots))
  }

  /** Where the parts of a printed type chunk lie. */
  lemma EntriesLie(typeId: nat, config: T.Config, form: T.Form, slots: seq<Option<T.Item>>, data: bytes, at: nat)
    requires config.length >= 4 && Holds(data, at, T.PrintedEntries(typeId, config, form, slots))
    ensures var l := LayoutOf(config, form, slots);
            && |T.PrintedEntries(typeId, config, form, slots)| == l.size && at + l.size <= |data|
            && Holds(data, at, T.TypeHead(l.header, l.size, typeId, form, l.count, l.start))
            && Holds(data, at + 20, T.PrintedConfig(config)) && Holds(data, at + l.header, T.PrintedIndex(form, slots))
            && Holds(data, at + l.start, T.PrintedItems(slots))
  {
    hide T.TypeHead, T.PrintedConfig, T.PrintedIndex, T.PrintedItems, T.IndexCount, Zeros;
    var l, index, items := LayoutOf(config, form, slots), T.PrintedIndex(form, slots), T.PrintedItems(slots);
    var head, c := T.TypeHead(l.header, l.size, typeId, form, l.count, l.start), T.PrintedConfig(config);
    var padding := Zeros(Padding(|index|));
    HoldsParts(data, at, head + c + index + padding, items);
    HoldsParts(data, at, head + c + index, padding);
    HoldsParts(data, at, head + c, index);
    HoldsParts(data, at, head, c);
  }

  lemma {:induction false} CountFits(form: T.Form, slots: seq<Option<T.Item>>)
    ensures T.IndexCount(form, slots) <= |slots|
    decreases |slots|
  {
    if slots != [] {
      CountFits(form, slots[..|slots| - 1]);
    }
  }

  /** The header and the clamped count of a printed type chunk. */
  lemma EntriesHead(typeId: nat, config: T.Config, form: T.Form, slots: seq<Option<T.Item>>, data: bytes, at: nat,
                    packageId: nat)
    requires T.PrintableBlock(T.Entries(typeId, config, form, slots))
    requires Holds(data, at, T.PrintedEntries(typeId, config, form, slots))
    ensures var l := LayoutOf(config, form, slots);
            && at + 20 <= |data| && U16At(data, at) == 0x0201 && U16At(data, at + 2) == l.header
            && U32At(data, at + 4) == l.size && SlotCount(data, at, l.header, l.size) == l.count
            && var c := TypeChunkAt(data, at, l.header, packageId);
            && c.offset == at && c.indexAt == at + l.header && c.entriesStart == l.start && c.packageId == packageId
            && c.typeId == typeId && HasForm(c, form) && Describes(c, config)
  {
    hide U16At, U32At, T.TypeHead, T.PrintedConfig, T.PrintedIndex, T.PrintedItems, T.IndexCount, T.PrintedEntries,
         ReadConfig, T.LanguageText, Holds, T.PrintableItem, T.MemberCount;
    var l := LayoutOf(config, form, slots);
    EntriesLie(typeId, config, form, slots, data, at);
    IndexLength(form, slots);
    CountFits(form, slots);
    TypeHeadReads(l.header, l.size, typeId, form, l.count, l.start, data, at);
    ConfigReads(config, data, at + 20);
    CountIsClamped(Width(form), l.count, l.size - l.header);
  }

  lemma CountIsClamped(width: nat, count: nat, room: nat)
    requires (width == 2 || width == 4) && width * count <= room
    ensures count <= room / width
  {
  }

  /** A printed type chunk adds what its slots mean. */
  lemma EntriesRead(typeId: nat, config: T.Config, form: T.Form, slots: seq<Option<T.Item>>, data: bytes, at: nat,
                    packageId: nat, strings: seq<string>, t: Tables, id: nat)
    requires T.PrintableBlock(T.Entries(typeId, config, form, slots))
    requires Holds(data, at, T.PrintedEntries(typeId, config, form, slots))
    ensures var l, first := LayoutOf(config, form, slots), T.IdOf(packageId, typeId, 0);
            Extends(t, T.SlotValues(strings, config, first, slots, id), T.SlotArrays(strings, config, first, slots, id),
                    ReadTypeChunk(data, at, l.header, l.size, packageId, strings, t), id)
  {
    hide U16At, U32At, T.PrintedConfig, T.PrintedIndex, T.PrintedItems, T.IndexCount, T.PrintedEntries, Holds, Extends,
         T.SlotValues, T.SlotArrays, SlotCount, TypeChunkAt, ReadSlots, After, T.PrintableItem, T.MemberCount,
           T.TypeHead;
    var l, s := LayoutOf(config, form, slots), TypeState(t.entries, t.arrays, [], MAX_BAG_MEMBERS_PER_CHUNK);
    EntriesLie(typeId, config, form, slots, data, at);
    EntriesHead(typeId, config, form, slots, data, at, packageId);
    SlotsRead(form, slots, data, TypeChunkAt(data, at, l.header, packageId), config, strings, s);
    AfterMeans(strings, config, T.IdOf(packageId, typeId, 0), slots, s, id);
    assert TablesOf(s) == t;
  }

  // ------------------------------------------------------- packages and the table

  lemma SkippedReads(kind: nat, body: bytes, data: bytes, at: nat)
    requires kind < U16_LIMIT && 8 + |body| < U32_LIMIT && Holds(data, at, T.Skipped(kind, body))
    ensures at + 8 + |body| <= |data| && U16At(data, at) == kind && U32At(data, at + 4) == 8 + |body|
  {
    hide U16, U32, U16At, U32At;
    var head := U16(kind) + U16(8) + U32(8 + |body|);
    HoldsParts(data, at, head, body);
    assert head == [] + U16(kind) + (U16(8) + U32(8 + |body|));
    U16Reads([], kind, U16(8) + U32(8 + |body|));
    assert head == (U16(kind) + U16(8)) + U32(8 + |body|) + [];
    U32Reads(U16(kind) + U16(8), 8 + |body|, []);
    ReadsInside(data, at, head, 0);
    ReadsInside(data, at, head, 4);
  }

  /** What one block adds to an id. */
  function BlockValues(strings: seq<string>, packageId: nat, b: T.Block, id: nat): seq<ResourceValue> {
    match b
    case Entries(typeId, config, _, slots) => T.SlotValues(strings, config, T.IdOf(packageId, typeId, 0), slots, id)
    case Other(_, _) => []
  }

  function BlockArrays(strings: seq<string>, packageId: nat, b: T.Block, id: nat): seq<seq<ResourceValue>> {
    match b
    case Entries(typeId, config, _, slots) => T.SlotArrays(strings, config, T.IdOf(packageId, typeId, 0), slots, id)
    case Other(_, _) => []
  }

  /** The walk takes one printed block: it moves on by its length, and the tables grow by what it means. */
  lemma BlockReads(b: T.Block, data: bytes, at: nat, end: nat, packageId: nat, strings: seq<string>, t: Tables)
    returns (t': Tables)
    requires T.PrintableBlock(b) && (b.Entries? ==> b.config.length >= 4) && Holds(data, at, T.PrintedBlock(b))
    requires at + |T.PrintedBlock(b)| <= end <= |data|
    ensures ReadPackageFrom(data, at, end, packageId, strings, t) ==
            ReadPackageFrom(data, at + |T.PrintedBlock(b)|, end, packageId, strings, t')
    ensures forall id ::
              Extends(t, BlockValues(strings, packageId, b, id), BlockArrays(strings, packageId, b, id), t', id)
  {
    hide U16At, U32At, T.PrintedEntries, T.Skipped, Holds, Extends, T.SlotValues, T.SlotArrays, ReadTypeChunk, LayoutOf;
    match b
    case Entries(typeId, config, form, slots) =>
      var l := LayoutOf(config, form, slots);
      t' := ReadTypeChunk(data, at, l.header, l.size, packageId, strings, t);
      EntriesLie(typeId, config, form, slots, data, at);
      EntriesHead(typeId, config, form, slots, data, at, packageId);
      LayoutIsLong(config, form, slots);
      forall id
        ensures Extends(t, BlockValues(strings, packageId, b, id), BlockArrays(strings, packageId, b, id), t', id)
      {
        EntriesRead(typeId, config, form, slots, data, at, packageId, strings, t, id);
      }
    case Other(kind, body) =>
      t' := t;
      SkippedReads(kind, body, data, at);
      SkippedLength(kind, body);
      forall id
        ensures Extends(t, BlockValues(strings, packageId, b, id), BlockArrays(strings, packageId, b, id), t', id)
      {
        ExtendsByNothing(t, id);
      }
  }

  lemma LayoutIsLong(config: T.Config, form: T.Form, slots: seq<Option<T.Item>>)
    ensures LayoutOf(config, form, slots).size >= 20
  {
  }

  lemma SkippedLength(kind: nat, body: bytes)
    ensures |T.Skipped(kind, body)| == 8 + |body|
  {
  }

  lemma {:induction false} BlocksRead(blocks: seq<T.Block>, data: bytes, at: nat, packageId: nat, strings: seq<string>,
                                      t: Tables)
    requires T.HasConfigs(blocks) && forall b :: b in blocks ==> T.PrintableBlock(b)
    requires Holds(data, at, T.PrintedBlocks(blocks))
    ensures at + |T.PrintedBlocks(blocks)| <= |data|
    ensures forall id ::
              Extends(t, T.BlocksValues(strings, packageId, blocks, id), T.BlocksArrays(strings, packageId, blocks, id),
                      ReadPackageFrom(data, at, at + |T.PrintedBlocks(blocks)|, packageId, strings, t), id)
    decreases |blocks|
  {
    hide T.PrintedBlock, T.PrintableBlock, Extends, ReadPackageFrom, Holds;
    var end := at + |T.PrintedBlocks(blocks)|;
    Bounded(data, at, T.PrintedBlocks(blocks));
    if blocks == [] {
      NoBlocks(data, at, packageId, strings, t);
      forall id ensures Extends(t, [], [], t, id) {
        ExtendsByNothing(t, id);
      }
    } else {
      var b, rest := blocks[0], blocks[1..];
      HoldsParts(data, at, T.PrintedBlock(b), T.PrintedBlocks(rest));
      var t' := BlockReads(b, data, at, end, packageId, strings, t);
      BlocksRead(rest, data, at + |T.PrintedBlock(b)|, packageId, strings, t');
      var after := ReadPackageFrom(data, at, end, packageId, strings, t);
      assert at + |T.PrintedBlock(b)| + |T.PrintedBlocks(rest)| == end;
      forall id
        ensures Extends(t, T.BlocksValues(strings, packageId, blocks, id),
                        T.BlocksArrays(strings, packageId, blocks, id),
                        after, id)
      {
        ExtendsTwice(t, BlockValues(strings, packageId, b, id), BlockArrays(strings, packageId, b, id), t',
                     T.BlocksValues(strings, packageId, rest, id), T.BlocksArrays(strings, packageId, rest, id), after,
                       id);
      }
    }
  }

  lemma Bounded(data: bytes, at: nat, part: bytes)
    requires Holds(data, at, part)
    ensures at + |part| <= |data|
  {
  }

  lemma NoBlocks(data: bytes, at: nat, packageId: nat, strings: seq<string>, t: Tables)
    requires at <= |data|
    ensures ReadPackageFrom(data, at, at, packageId, strings, t) == t
  {
  }

  lemma PackageHeadReads(size: nat, id: nat, data: bytes, at: nat)
    requires size < U32_LIMIT && id < U32_LIMIT && Holds(data, at, T.PackageHead(size, id))
    ensures at + 288 <= |data| && U16At(data, at) == 0x0200 && U16At(data, at + 2) == 288
    ensures U32At(data, at + 4) == size && U32At(data, at + 8) == id
  {
    hide U16, U32, U16At, U32At, Zeros;
    var h := T.PackageHead(size, id);
    assert h == [] + U16(0x0200) + (U16(288) + U32(size) + U32(id) + Zeros(276));
    U16Reads([], 0x0200, U16(288) + U32(size) + U32(id) + Zeros(276));
    assert h == U16(0x0200) + U16(288) + (U32(size) + U32(id) + Zeros(276));
    U16Reads(U16(0x0200), 288, U32(size) + U32(id) + Zeros(276));
    assert h == (U16(0x0200) + U16(288)) + U32(size) + (U32(id) + Zeros(276));
    U32Reads(U16(0x0200) + U16(288), size, U32(id) + Zeros(276));
    U32Reads(U16(0x0200) + U16(288) + U32(size), id, Zeros(276));
    ReadsInside(data, at, h, 0);
    ReadsInside(data, at, h, 2);
    ReadsInside(data, at, h, 4);
    ReadsInside(data, at, h, 8);
  }

  /** What one chunk of the table adds to an id. */
  function ChunkValues(strings: seq<string>, c: T.Chunk, id: nat): seq<ResourceValue> {
    if c.Package? then T.BlocksValues(strings, c.id, c.blocks, id) else []
  }

  function ChunkArrays(strings: seq<string>, c: T.Chunk, id: nat): seq<seq<ResourceValue>> {
    if c.Package? then T.BlocksArrays(strings, c.id, c.blocks, id) else []
  }

  lemma ChunkReads(c: T.Chunk, data: bytes, at: nat, strings: seq<string>, t: Tables) returns (t': Tables)
    requires T.PrintableChunk(c) && Holds(data, at, T.PrintedChunk(c))
    ensures ReadTableFrom(data, at, strings, t) == ReadTableFrom(data, at + |T.PrintedChunk(c)|, strings, t')
    ensures forall id :: Extends(t, ChunkValues(strings, c, id), ChunkArrays(strings, c, id), t', id)
  {
    hide U16At, U32At, T.PackageHead, T.Skipped, Holds, Extends, T.PrintedBlocks, T.BlocksValues, T.BlocksArrays,
         T.PrintableBlock, ReadPackageFrom;
    Bounded(data, at, T.PrintedChunk(c));
    match c
    case Package(id, blocks) =>
      var inner, size := T.PrintedBlocks(blocks), 288 + |T.PrintedBlocks(blocks)|;
      t' := ReadPackageChunk(data, at, 288, size, strings, t);
      HoldsParts(data, at, T.PackageHead(size, id), inner);
      PackageHeadReads(size, id, data, at);
      BlocksRead(blocks, data, at + 288, id, strings, t);
      assert Min(at + size, |data|) == at + 288 + |inner|;
      assert t' == ReadPackageFrom(data, at + 288, at + 288 + |inner|, id, strings, t);
    case Unknown(kind, body) =>
      t' := t;
      SkippedReads(kind, body, data, at);
      SkippedLength(kind, body);
      forall id ensures Extends(t, [], [], t, id) {
        ExtendsByNothing(t, id);
      }
  }

  lemma {:induction false} ChunksRead(chunks: seq<T.Chunk>, data: bytes, at: nat, strings: seq<string>, t: Tables)
    requires T.HasAllConfigs(chunks) && forall c :: c in chunks ==> T.PrintableChunk(c)
    requires Holds(data, at, T.PrintedChunks(chunks)) && at + |T.PrintedChunks(chunks)| == |data|
    ensures forall id :: Extends(t, T.ValuesOf(strings, chunks, id), T.ArraysOf(strings, chunks, id),
                                 ReadTableFrom(data, at, strings, t), id)
    decreases |chunks|
  {
    hide T.PrintedChunk, T.PrintableChunk, Extends, ReadTableFrom, Holds, T.BlocksValues, T.BlocksArrays;
    if chunks == [] {
      NoChunks(data, strings, t);
      forall id ensures Extends(t, [], [], t, id) {
        ExtendsByNothing(t, id);
      }
    } else {
      var c, rest := chunks[0], chunks[1..];
      HoldsParts(data, at, T.PrintedChunk(c), T.PrintedChunks(rest));
      var t' := ChunkReads(c, data, at, strings, t);
      ChunksRead(rest, data, at + |T.PrintedChunk(c)|, strings, t');
      var after := ReadTableFrom(data, at, strings, t);
      forall id
        ensures Extends(t, T.ValuesOf(strings, chunks, id), T.ArraysOf(strings, chunks, id), after, id)
      {
        ExtendsTwice(t, ChunkValues(strings, c, id), ChunkArrays(strings, c, id), t', T.ValuesOf(strings, rest, id),
                     T.ArraysOf(strings, rest, id), after, id);
      }
    }
  }

  lemma NoChunks(data: bytes, strings: seq<string>, t: Tables)
    ensures ReadTableFrom(data, |data|, strings, t) == t
  {
  }

  lemma AllHaveConfigs(t: T.Table)
    requires T.PrintableTable(t)
    ensures T.HasAllConfigs(t.chunks)
  {
    hide T.PrintableBlock, T.PrintedBlocks, Encoded, Characters;
  }

  /** The outer header, the pool and the chunks of a printed table. */
  lemma TableHead(t: T.Table)
    requires T.PrintableTable(t) && T.HasAllConfigs(t.chunks)
    ensures var data, pool := T.Printed(t), Encoded(t.strings, t.utf8).value;
            && |data| >= 12 && U16At(data, 0) == RES_TABLE && U16At(data, 2) == 12
            && TolerantPool(data, 12) == Ok(Pool(t.strings, t.utf8, |pool|))
            && 12 + |pool| + |T.PrintedChunks(t.chunks)| == |data|
            && Holds(data, 12 + |pool|, T.PrintedChunks(t.chunks))
  {
    hide U16At, U16, U32, T.PrintedChunks, Encoded, TolerantPool, Characters, T.PrintableChunk;
    var data, pool, chunks := T.Printed(t), Encoded(t.strings, t.utf8).value, T.PrintedChunks(t.chunks);
    var size, count := 12 + |pool| + |chunks|, |t.chunks|;
    var head := U16(0x0002) + U16(12) + U32(size) + U32(count);
    assert data == head + pool + chunks;
    TolerantRoundTrip(head, t.strings, t.utf8, chunks);
    assert data == [] + U16(0x0002) + (U16(12) + U32(size) + U32(count) + pool + chunks);
    U16Reads([], 0x0002, U16(12) + U32(size) + U32(count) + pool + chunks);
    assert data == U16(0x0002) + U16(12) + (U32(size) + U32(count) + pool + chunks);
    U16Reads(U16(0x0002), 12, U32(size) + U32(count) + pool + chunks);
  }

  /**
   For every table that can be printed: reading it gives each id exactly the plain values the table
   has for it, with density, language, kind, text and word, in the order of the table, and of the
   arrays that have members the first with all its members; a table without values is refused.
   */
  lemma PrintedTableIsRead(t: T.Table)
    requires T.PrintableTable(t)
    ensures T.HasAllConfigs(t.chunks)
    ensures match ParsedTable(T.Printed(t))
            case Ok(read) => T.Gives(t.strings, t.chunks, read)
            case Err(error) => error == NoEntries && forall id :: T.ValuesOf(t.strings, t.chunks, id) == []
    ensures ParsedTable(T.Printed(t)).Ok? <==> exists id :: T.ValuesOf(t.strings, t.chunks, id) != []
  {
    hide U16At, U32At, T.PrintedChunks, TolerantPool, Encoded, Characters, T.Printed, T.PrintableChunk, ReadTableFrom,
         T.ValuesOf, T.ArraysOf, Holds;
    AllHaveConfigs(t);
    TableHead(t);
    var data, at := T.Printed(t), 12 + |Encoded(t.strings, t.utf8).value|;
    var none := Tables(map[], map[]);
    ChunksRead(t.chunks, data, at, t.strings, none);
    var read := ReadTableFrom(data, at, t.strings, none);
    forall id
      ensures id in read.entries <==> T.ValuesOf(t.strings, t.chunks, id) != []
      ensures id in read.entries ==> read.entries[id] == T.ValuesOf(t.strings, t.chunks, id)
    {
      assert Extends(none, T.ValuesOf(t.strings, t.chunks, id), T.ArraysOf(t.strings, t.chunks, id), read, id);
      assert [] + T.ValuesOf(t.strings, t.chunks, id) == T.ValuesOf(t.strings, t.chunks, id);
    }
    if read.entries != map[] {
      var id :| id in read.entries;
      assert T.ValuesOf(t.strings, t.chunks, id) != [];
    }
  }
}
