/** How much a resource table of a given size can make the reader do, and what it records. */
module ArscTheorems {
  import opened Wrappers
  import opened Bytes
  import opened StringPools
  import opened Sorting
  import opened Arsc

  // ------------------------------------------------------- counting values

  /** All values under all ids. */
  ghost function TotalValues(lists: ValueLists): nat
    decreases |lists|
  {
    if lists == map[] then 0
    else
      var id :| id in lists;
      |lists[id]| + TotalValues(lists - {id})
  }

  lemma {:induction false} TotalWithout(lists: ValueLists, id: nat)
    requires id in lists
    ensures TotalValues(lists) == |lists[id]| + TotalValues(lists - {id})
    decreases |lists|
  {
    var first :| first in lists && TotalValues(lists) == |lists[first]| + TotalValues(lists - {first});
    if first != id {
      TotalWithout(lists - {first}, id);
      TotalWithout(lists - {id}, first);
      assert lists - {first} - {id} == lists - {id} - {first};
    }
  }

  lemma TotalAppend(lists: ValueLists, id: nat, v: ResourceValue)
    ensures TotalValues(Append(lists, id, v)) == TotalValues(lists) + 1
  {
    var longer := Append(lists, id, v);
    TotalWithout(longer, id);
    if id in lists {
      TotalWithout(lists, id);
      assert longer - {id} == lists - {id};
    } else {
      assert longer - {id} == lists;
    }
  }

  lemma TotalInsert(lists: ValueLists, id: nat, members: seq<ResourceValue>)
    requires id !in lists
    ensures TotalValues(lists[id := members]) == TotalValues(lists) + |members|
  {
    TotalWithout(lists[id := members], id);
    assert lists[id := members] - {id} == lists;
  }

  // ------------------------------------------------------- one type chunk

  ghost predicate Distinct(xs: seq<nat>) {
    forall i, j :: 0 <= i < j < |xs| ==> xs[i] != xs[j]
  }

  lemma EntryCost(data: bytes, c: TypeChunk, strings: seq<string>, s: TypeState, id: nat, at: nat)
    ensures var r := ReadEntry(data, c, strings, s, id, at);
            && TotalValues(r.entries) <= TotalValues(s.entries) + 1
            && TotalValues(r.arrays) + r.budget <= TotalValues(s.arrays) + s.budget
            && r.offsets == s.offsets
  {
    hide U16At, U32At, ReadValue, BagMembers, Append;
    if at + 8 <= |data| {
      var entrySize := U16At(data, at);
      if U16At(data, at + 2) % 2 == 1 {
        if s.budget > 0 && id !in s.arrays {
          TotalInsert(s.arrays, id, BagMembers(data, at, entrySize, c, strings, s.budget));
        }
      } else if at + entrySize + 8 <= |data| {
        TotalAppend(s.entries, id, ReadValue(data, at + entrySize, c, strings));
      }
    }
  }

  /** Each slot reads one new offset at most; a chunk's bags share one budget. */
  lemma {:induction false} SlotsCost(data: bytes, c: TypeChunk, strings: seq<string>, s: TypeState, count: nat)
    requires s.offsets == []
    ensures var r := ReadSlots(data, c, strings, s, count);
            && Distinct(r.offsets) && |r.offsets| <= count
            && TotalValues(r.entries) <= TotalValues(s.entries) + |r.offsets|
            && TotalValues(r.arrays) + r.budget <= TotalValues(s.arrays) + s.budget
    decreases count
  {
    hide EntryOffset, ReadEntry, ResourceId;
    if count > 0 {
      SlotsCost(data, c, strings, s, count - 1);
      var before := ReadSlots(data, c, strings, s, count - 1);
      var located := EntryOffset(data, c, count - 1);
      if located.Some? && located.value.1 !in before.offsets {
        var (index, offset) := located.value;
        EntryCost(data, c, strings, before.(offsets := before.offsets + [offset]), ResourceId(c, index),
                  c.offset + c.entriesStart + offset);
      }
    }
  }

  /** A type chunk adds at most half its size in plain values, and 20,000 bag members. */
  lemma TypeChunkCost(data: bytes, offset: nat, header: nat, size: nat, packageId: nat, strings: seq<string>, t: Tables)
    ensures var r := ReadTypeChunk(data, offset, header, size, packageId, strings, t);
            && 2 * TotalValues(r.entries) <= 2 * TotalValues(t.entries) + size
            && TotalValues(r.arrays) <= TotalValues(t.arrays) + 20_000
  {
    hide ReadSlots, TypeChunkAt, SlotCount;
    if offset + 20 <= |data| {
      SlotsCost(data, TypeChunkAt(data, offset, header, packageId), strings,
                TypeState(t.entries, t.arrays, [], MAX_BAG_MEMBERS_PER_CHUNK), SlotCount(data, offset, header, size));
    }
  }

  // ------------------------------------------------------- the whole file

  function Room(position: nat, end: nat): nat {
    if position < end then end - position else 0
  }

  lemma {:induction false} PackageCost(data: bytes, position: nat, end: nat, packageId: nat, strings: seq<string>,
                                       t: Tables)
    requires end <= |data|
    ensures var r := ReadPackageFrom(data, position, end, packageId, strings, t);
            && 2 * TotalValues(r.entries) <= 2 * TotalValues(t.entries) + Room(position, end)
            && TotalValues(r.arrays) <= TotalValues(t.arrays) + 2500 * Room(position, end)
    decreases end - position
  {
    hide U16At, U32At, ReadTypeChunk;
    if position + 8 <= end {
      var kind, header, size := U16At(data, position), U16At(data, position + 2), U32At(data, position + 4);
      if size >= 8 && position + size <= end {
        TypeChunkCost(data, position, header, size, packageId, strings, t);
        PackageCost(data, position + size, end, packageId, strings,
                    if kind == RES_TABLE_TYPE then ReadTypeChunk(data, position, header, size, packageId, strings, t)
                      else t);
      }
    }
  }

  lemma {:induction false} TableCost(data: bytes, position: nat, strings: seq<string>, t: Tables)
    ensures var r := ReadTableFrom(data, position, strings, t);
            && 2 * TotalValues(r.entries) <= 2 * TotalValues(t.entries) + Room(position, |data|)
            && TotalValues(r.arrays) <= TotalValues(t.arrays) + 2500 * Room(position, |data|)
    decreases |data| - position
  {
    hide U16At, U32At, ReadPackageFrom;
    if position + 8 <= |data| {
      var kind, header, size := U16At(data, position), U16At(data, position + 2), U32At(data, position + 4);
      if size >= 8 && position + size <= |data| {
        var next := if kind == RES_TABLE_PACKAGE then ReadPackageChunk(data, position, header, size, strings, t) else t;
        if kind == RES_TABLE_PACKAGE && position + 12 <= |data| {
          PackageCost(data, position + header, Min(position + size, |data|), U32At(data, position + 8), strings, t);
        }
        TableCost(data, position + size, strings, next);
      }
    }
  }

  /** Whatever the bytes: at most half the file length in plain values, 2,500 bag members a byte. */
  lemma ParsedTableIsBounded(data: bytes)
    ensures ParsedTable(data).Ok? ==>
              && 1 <= TotalValues(ParsedTable(data).value.entries)
              && 2 * TotalValues(ParsedTable(data).value.entries) <= |data|
              && TotalValues(ParsedTable(data).value.arrays) <= 2500 * |data|
  {
    hide U16At, TolerantPool, ReadTableFrom;
    if ParsedTable(data).Ok? {
      var pool := TolerantPool(data, U16At(data, 2)).value;
      var begin := U16At(data, 2) + pool.chunkSize;
      assert TotalValues(map[]) == 0;
      TableCost(data, begin, pool.strings, Tables(map[], map[]));
      TableListsAreNonEmpty(data, begin, pool.strings, Tables(map[], map[]));
      var entries := ParsedTable(data).value.entries;
      var id :| id in entries;
      TotalWithout(entries, id);
    }
  }

  ghost predicate NoEmptyList(lists: ValueLists) {
    forall id :: id in lists ==> lists[id] != []
  }

  lemma {:induction false} SlotsListsAreNonEmpty(data: bytes, c: TypeChunk, strings: seq<string>, s: TypeState,
                                                 count: nat)
    requires NoEmptyList(s.entries)
    ensures NoEmptyList(ReadSlots(data, c, strings, s, count).entries)
    decreases count
  {
    hide EntryOffset, ResourceId, U16At, U32At, BagMembers, ReadValue;
    if count > 0 {
      SlotsListsAreNonEmpty(data, c, strings, s, count - 1);
    }
  }

  lemma {:induction false} PackageListsAreNonEmpty(data: bytes, position: nat, end: nat, packageId: nat,
                                                   strings: seq<string>, t: Tables)
    requires end <= |data| && NoEmptyList(t.entries)
    ensures NoEmptyList(ReadPackageFrom(data, position, end, packageId, strings, t).entries)
    decreases end - position
  {
    hide U16At, U32At, ReadSlots, TypeChunkAt, SlotCount, NoEmptyList;
    if position + 8 <= end {
      var kind, header, size := U16At(data, position), U16At(data, position + 2), U32At(data, position + 4);
      if size >= 8 && position + size <= end {
        if position + 20 <= |data| {
          SlotsListsAreNonEmpty(data, TypeChunkAt(data, position, header, packageId), strings,
                                TypeState(t.entries, t.arrays, [], MAX_BAG_MEMBERS_PER_CHUNK),
                                SlotCount(data, position, header, size));
        }
        PackageListsAreNonEmpty(data, position + size, end, packageId, strings,
                                if kind == RES_TABLE_TYPE then
                                  ReadTypeChunk(data, position, header, size, packageId, strings, t) else t);
      }
    }
  }

  lemma {:induction false} TableListsAreNonEmpty(data: bytes, position: nat, strings: seq<string>, t: Tables)
    requires NoEmptyList(t.entries)
    ensures NoEmptyList(ReadTableFrom(data, position, strings, t).entries)
    decreases |data| - position
  {
    hide U16At, U32At, ReadPackageFrom, NoEmptyList;
    if position + 8 <= |data| {
      var kind, header, size := U16At(data, position), U16At(data, position + 2), U32At(data, position + 4);
      if size >= 8 && position + size <= |data| {
        if position + 12 <= |data| {
          PackageListsAreNonEmpty(data, position + header, Min(position + size, |data|), U32At(data, position + 8),
                                  strings, t);
        }
        TableListsAreNonEmpty(data, position + size, strings,
                              if kind == RES_TABLE_PACKAGE then
                                ReadPackageChunk(data, position, header, size, strings, t) else t);
      }
    }
  }

  // ------------------------------------------------------- which slots count

  /** Does an earlier slot point at the same offset? */
  ghost predicate SeenBefore(data: bytes, c: TypeChunk, slot: nat, offset: nat) {
    exists s :: 0 <= s < slot && PointsAt(data, c, s, offset)
  }

  predicate PointsAt(data: bytes, c: TypeChunk, slot: nat, offset: nat) {
    EntryOffset(data, c, slot).Some? && EntryOffset(data, c, slot).value.1 == offset
  }

  /** The plain value slot `slot` stands for, when it is the first to point at its offset. */
  ghost function SlotValue(data: bytes, c: TypeChunk, strings: seq<string>, slot: nat): Option<(nat, ResourceValue)> {
    match EntryOffset(data, c, slot)
    case None => None
    case Some((index, offset)) =>
      var at := c.offset + c.entriesStart + offset;
      if SeenBefore(data, c, slot, offset) || at + 8 > |data| || U16At(data, at + 2) % 2 == 1 ||
         at + U16At(data, at) + 8 > |data| then None
      else Some((ResourceId(c, index), ReadValue(data, at + U16At(data, at), c, strings)))
  }

  /** The values the first `count` slots stand for under one id, in slot order. */
  ghost function SlotValues(data: bytes, c: TypeChunk, strings: seq<string>, id: nat, count: nat): seq<ResourceValue> {
    if count == 0 then []
    else
      var v := SlotValue(data, c, strings, count - 1);
      SlotValues(data, c, strings, id, count - 1) + if v.Some? && v.value.0 == id then [v.value.1] else []
  }

  function ListAt(lists: ValueLists, id: nat): seq<ResourceValue> {
    if id in lists then lists[id] else []
  }

  lemma {:induction false} OffsetsAreTheSeen(data: bytes, c: TypeChunk, strings: seq<string>, s: TypeState, count: nat)
    requires s.offsets == []
    ensures forall o :: o in ReadSlots(data, c, strings, s, count).offsets <==> SeenBefore(data, c, count, o)
    decreases count
  {
    hide EntryOffset, ResourceId, U16At, U32At, BagMembers, ReadValue;
    if count > 0 {
      OffsetsAreTheSeen(data, c, strings, s, count - 1);
      var before, after := ReadSlots(data, c, strings, s, count - 1), ReadSlots(data, c, strings, s, count);
      forall o ensures o in after.offsets <==> SeenBefore(data, c, count, o) {
        assert SeenBefore(data, c, count, o) <==> SeenBefore(data, c, count - 1, o) || PointsAt(data, c, count - 1, o);
      }
    }
  }

  lemma OneSlotAppends(data: bytes, c: TypeChunk, strings: seq<string>, s: TypeState, slot: nat, id: nat)
    requires forall o :: o in s.offsets <==> SeenBefore(data, c, slot, o)
    ensures var v := SlotValue(data, c, strings, slot);
            ListAt(ReadSlot(data, c, strings, s, slot).entries, id) ==
            ListAt(s.entries, id) + if v.Some? && v.value.0 == id then [v.value.1] else []
  {
    hide EntryOffset, ResourceId, U16At, U32At, BagMembers, ReadValue, SeenBefore;
  }

  /** A chunk appends, to each id's list, exactly the values of the first slots at each offset. */
  lemma {:induction false} SlotsAppend(data: bytes, c: TypeChunk, strings: seq<string>, s: TypeState, count: nat,
                                       id: nat)
    requires s.offsets == []
    ensures ListAt(ReadSlots(data, c, strings, s, count).entries, id) ==
            ListAt(s.entries, id) + SlotValues(data, c, strings, id, count)
    decreases count
  {
    hide ReadSlot, SlotValue, ListAt, SeenBefore;
    if count == 0 {
      assert ListAt(s.entries, id) + [] == ListAt(s.entries, id);
    } else {
      SlotsAppend(data, c, strings, s, count - 1, id);
      OffsetsAreTheSeen(data, c, strings, s, count - 1);
      OneSlotAppends(data, c, strings, ReadSlots(data, c, strings, s, count - 1), count - 1, id);
    }
  }

  // ------------------------------------------------------- asking the table

  /** 0 and 0xFFFE stand for no density in particular. */
  predicate HasRealDensity(v: ResourceValue) {
    v.density != 0 && v.density != 0xFFFE
  }

  /** The default locale before any other, then real densities before the rest, then the higher density. */
  ghost predicate NotWorse(a: ResourceValue, b: ResourceValue) {
    || (a.language == "" && b.language != "")
    || ((a.language == "" <==> b.language == "") && HasRealDensity(a) && !HasRealDensity(b))
    || ((a.language == "" <==> b.language == "") && (HasRealDensity(a) <==> HasRealDensity(b)) &&
        a.density >= b.density)
  }

  ghost predicate EquallyGood(a: ResourceValue, b: ResourceValue) {
    NotWorse(a, b) && NotWorse(b, a)
  }

  lemma ThreeCompare(p: seq<int>, q: seq<int>)
    requires |p| == 3 && |q| == 3
    ensures LexLe(p, q) <==> p[0] < q[0] || (p[0] == q[0] && (p[1] < q[1] || (p[1] == q[1] && p[2] <= q[2])))
  {
    var p1, q1, p2, q2 := p[1..], q[1..], p[2..], q[2..];
    assert p1[1..] == p2 && q1[1..] == q2 && p2[1..] == [] && q2[1..] == [];
    assert LexLe(p2, q2) <==> p[2] <= q[2];
    assert LexLe(p1, q1) <==> p[1] < q[1] || (p[1] == q[1] && LexLe(p2, q2));
    assert LexLe(p, q) <==> p[0] < q[0] || (p[0] == q[0] && LexLe(p1, q1));
  }

  lemma SortKeyMeans(a: ResourceValue, b: ResourceValue)
    ensures LexLe(a.SortKey(), b.SortKey()) <==> NotWorse(a, b)
  {
    hide LexLe;
    ThreeCompare(a.SortKey(), b.SortKey());
  }

  /** The values come best first, exactly those the table has, and equally good ones as the table has them. */
  lemma ValuesAreBestFirst(t: Tables, id: nat)
    ensures multiset(Values(t, id)) == multiset(ListAt(t.entries, id))
    ensures forall i, j :: 0 <= i < j < |Values(t, id)| ==> NotWorse(Values(t, id)[i], Values(t, id)[j])
    ensures forall v: ResourceValue :: SameRank(Values(t, id), v) == SameRank(ListAt(t.entries, id), v)
  {
    hide LexLe, NotWorse, Sort, Filter;
    var key, listed := (v: ResourceValue) => v.SortKey(), ListAt(t.entries, id);
    SortOrders(listed, key);
    var values := Values(t, id);
    forall i, j | 0 <= i < j < |values| ensures NotWorse(values[i], values[j]) {
      SortKeyMeans(values[i], values[j]);
      assert LexLe(key(values[i]), key(values[j]));
    }
    forall v: ResourceValue ensures SameRank(values, v) == SameRank(listed, v) {
      RankIsStable(listed, v);
    }
  }

  /** The values that are as good as `v`, in their order. */
  ghost function SameRank(values: seq<ResourceValue>, v: ResourceValue): seq<ResourceValue> {
    if values == [] then []
    else (if EquallyGood(values[0], v) then [values[0]] else []) + SameRank(values[1..], v)
  }

  lemma {:induction false} SameRankFilters(values: seq<ResourceValue>, v: ResourceValue)
    ensures SameRank(values, v) == Filter(values, (w: ResourceValue) => w.SortKey() == v.SortKey())
    decreases |values|
  {
    hide LexLe, NotWorse;
    if values != [] {
      SameRankFilters(values[1..], v);
      SortKeyMeans(values[0], v);
      SortKeyMeans(v, values[0]);
      if EquallyGood(values[0], v) {
        LexAntisymmetric(values[0].SortKey(), v.SortKey());
      } else if values[0].SortKey() == v.SortKey() {
        LexTotal(v.SortKey(), v.SortKey());
      }
    }
  }

  lemma RankIsStable(listed: seq<ResourceValue>, v: ResourceValue)
    ensures SameRank(Sort(listed, (w: ResourceValue) => w.SortKey()), v) == SameRank(listed, v)
  {
    hide Sort, Filter;
    var key, p := (w: ResourceValue) => w.SortKey(), (w: ResourceValue) => w.SortKey() == v.SortKey();
    SameRankFilters(listed, v);
    SameRankFilters(Sort(listed, key), v);
    SortFilters(listed, key, p);
    SortOfEqual(Filter(listed, p), v);
  }

  lemma {:induction false} SortOfEqual(values: seq<ResourceValue>, v: ResourceValue)
    requires forall w :: w in values ==> w.SortKey() == v.SortKey()
    ensures Sort(values, (w: ResourceValue) => w.SortKey()) == values
    decreases |values|
  {
    hide LexLe;
    if values != [] {
      SortOfEqual(values[1..], v);
      LexTotal(v.SortKey(), v.SortKey());
      assert values == [values[0]] + values[1..];
      assert values[1..] != [] ==> values[1..][0] in values;
    }
  }

  /** Some chain of at most `ids` resource ids, each naming the next, ends at the string. */
  ghost predicate Resolves(t: Tables, id: nat, s: string, ids: nat)
    decreases ids
  {
    ids > 0 && exists v :: v in Values(t, id) && Leads(t, v, s, ids)
  }

  ghost predicate Leads(t: Tables, v: ResourceValue, s: string, ids: nat)
    requires ids > 0
    decreases ids, 0
  {
    (v.dataType == TYPE_STRING && v.text == Some(s)) || (v.IsReference() && Resolves(t, v.value, s, ids - 1))
  }

  lemma {:induction false} StringFromIsSound(t: Tables, values: seq<ResourceValue>, depth: nat, ids: nat)
    requires depth <= 4 && ids == 5 - depth
    ensures match StringFrom(t, values, depth)
            case Some(s) => exists v :: v in values && Leads(t, v, s, ids)
            case None => forall v, s :: v in values ==> !Leads(t, v, s, ids)
    decreases ids, 0, |values|
  {
    hide Values;
    if values != [] {
      var v := values[0];
      if v.IsReference() {
        StringIsFoundIfItCanBe(t, v.value, depth + 1, ids - 1);
      }
      StringFromIsSound(t, values[1..], depth, ids);
      assert forall w :: w in values <==> w == v || w in values[1..];
      if StringFrom(t, values, depth).Some? && StringFrom(t, values, depth) != StringFrom(t, values[1..], depth) {
        assert Leads(t, v, StringFrom(t, values, depth).value, ids);
      }
    }
  }

  /** Cyclic or not, `string` finds a string exactly when five ids in a row can reach one. */
  lemma {:induction false} StringIsFoundIfItCanBe(t: Tables, id: nat, depth: nat, ids: nat)
    requires depth <= 5 && ids == 5 - depth
    ensures match StringOf(t, id, depth)
            case Some(s) => Resolves(t, id, s, ids)
            case None => forall s :: !Resolves(t, id, s, ids)
    decreases ids, 1, 0
  {
    hide Values;
    if depth <= 4 {
      StringFromIsSound(t, Values(t, id), depth, ids);
    }
  }

  lemma MemberIsFoundIfItCanBe(t: Tables, v: ResourceValue, ids: nat)
    requires ids == 6
    ensures match MemberOf(t, v)
            case Some(s) => Leads(t, v, s, ids)
            case None => forall s :: !Leads(t, v, s, ids)
  {
    hide StringOf, Resolves;
    StringIsFoundIfItCanBe(t, v.value, 0, 5);
  }

  /**
   Arrays are paired by index, so a member that does not resolve keeps its place: there is one
   result per member, and it is None exactly where neither the member nor a chain of at most
   five ids from it reaches a string.
   */
  lemma ArrayKeepsPositions(t: Tables, id: nat, ids: nat)
    requires ids == 6
    ensures var members, resolved := ListAt(t.arrays, id), ArrayOf(t, id);
            && |resolved| == |members|
            && forall i :: 0 <= i < |members| ==>
                 match resolved[i]
                 case Some(s) => Leads(t, members[i], s, ids)
                 case None => forall s :: !Leads(t, members[i], s, ids)
  {
    hide StringOf, Leads, MemberOf;
    forall v ensures match MemberOf(t, v)
                     case Some(s) => Leads(t, v, s, ids)
                     case None => forall s :: !Leads(t, v, s, ids)
    {
      MemberIsFoundIfItCanBe(t, v, ids);
    }
  }
}
