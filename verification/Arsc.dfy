/**
 The `resources.arsc` reader: nested chunk walks over a buffer nobody vouches for, with the
 clamps and budgets that bound its work.
 */
module Arsc {
  import opened Wrappers
  import opened Bytes
  import opened StringPools
  import opened Sorting

  const RES_TABLE: nat := 0x0002
  const RES_TABLE_PACKAGE: nat := 0x0200
  const RES_TABLE_TYPE: nat := 0x0201
  const MAP_SIZE: nat := 12
  const MAX_BAG_MEMBERS: nat := 512
  const MAX_BAG_MEMBERS_PER_CHUNK: nat := 20_000
  const TYPE_REFERENCE: nat := 0x01
  const TYPE_STRING: nat := 0x03
  const DENSITY_ANY: nat := 0xFFFE
  const DENSITY_NONE: nat := 0
  const MAX_ALIAS_DEPTH: nat := 4

  datatype ArscError = TooShort | NotATable | BadValuePool(cause: PoolError) | NoEntries

  datatype ResourceValue = ResourceValue(density: nat, language: string, dataType: nat, text: Option<string>,
                                         value: nat) {
    predicate IsFile() {
      dataType == TYPE_STRING && text.Some? && text.value != ""
    }

    predicate IsReference() {
      dataType == TYPE_REFERENCE && value != 0
    }

    /** Default locale first, then real densities descending, then the pseudo ones. */
    function SortKey(): Key {
      [if language == "" then 0 else 1,
       if density == DENSITY_ANY || density == DENSITY_NONE then 1 else 0,
       -(density as int)]
    }
  }

  type ValueLists = map<nat, seq<ResourceValue>>

  // ------------------------------------------------------------------ one type chunk

  /** `_read_config`: density and language, as far as the declared size and the buffer reach. */
  function ReadConfig(data: bytes, at: nat): (nat, string) {
    if at + 4 > |data| then (0, "")
    else
      var size := U32At(data, at);
      (if size >= 16 && at + 16 <= |data| then U16At(data, at + 14) else 0,
       if size >= 12 && at + 10 <= |data| then Language(data[at + 8], data[at + 9]) else "")
  }

  function Language(a: byte, b: byte): string {
    if a == 0 && b == 0 then ""
    else if a >= 0x80 then "???"
    else [a as char, if b < 0x80 then b as char else '\U{FFFD}']
  }

  /** The facts of a type chunk that every slot shares. */
  datatype TypeChunk = TypeChunk(
    offset: nat, indexAt: nat, entriesStart: nat, packageId: nat, typeId: nat,
    sparse: bool, offset16: bool, density: nat, language: string)

  /** `_entry_offset`: the entry index and offset slot `slot` holds, in the chunk's own encoding. */
  function EntryOffset(data: bytes, c: TypeChunk, slot: nat): Option<(nat, nat)> {
    if c.sparse then
      if c.indexAt + slot * 4 + 4 > |data| then None
      else Some((U16At(data, c.indexAt + slot * 4), U16At(data, c.indexAt + slot * 4 + 2) * 4))
    else if c.offset16 then
      if c.indexAt + slot * 2 + 2 > |data| then None
      else
        var packed := U16At(data, c.indexAt + slot * 2);
        if packed == 0xFFFF then None else Some((slot, packed * 4))
    else if c.indexAt + slot * 4 + 4 > |data| then None
    else
      var offset := U32At(data, c.indexAt + slot * 4);
      if offset == 0xFFFF_FFFF then None else Some((slot, offset))
  }

  /** Python's `a | b` on integers that are not negative. */
  function BitOr(a: nat, b: nat): nat
    decreases a + b
  {
    if a == 0 then b else if b == 0 then a
    else 2 * BitOr(a / 2, b / 2) + if a % 2 == 1 || b % 2 == 1 then 1 else 0
  }

  function ResourceId(c: TypeChunk, index: nat): nat {
    BitOr(BitOr(c.packageId * 0x100_0000, c.typeId * 0x1_0000), index)
  }

  /** The `Res_value` at `at`. */
  function ReadValue(data: bytes, at: nat, c: TypeChunk, strings: seq<string>): ResourceValue
    requires at + 8 <= |data|
  {
    var dataType, datum := Byte(data, at + 3), U32At(data, at + 4);
    ResourceValue(c.density, c.language, dataType,
                  if dataType == TYPE_STRING then Some(StringAt(strings, datum)) else None, datum)
  }

  function Min(a: nat, b: nat): (m: nat)
    ensures m <= a && m <= b
  {
    if a < b then a else b
  }

  /** How many bag members are read: what is declared, what fits, 512, and what the chunk has left. */
  function BagCount(data: bytes, at: nat, entrySize: nat, budget: nat): (n: nat)
    requires at + 16 <= |data|
    ensures n <= MAX_BAG_MEMBERS && n <= budget
    ensures n > 0 ==> at + entrySize + n * MAP_SIZE <= |data|
  {
    var room := if at + entrySize < |data| then (|data| - (at + entrySize)) / MAP_SIZE else 0;
    Min(Min(U32At(data, at + 12), room), Min(MAX_BAG_MEMBERS, budget))
  }

  /** `_read_bag`: members in declaration order. */
  function BagMembers(data: bytes, at: nat, entrySize: nat, c: TypeChunk, strings: seq<string>,
                      budget: nat): (m: seq<ResourceValue>)
    ensures |m| <= MAX_BAG_MEMBERS && |m| <= budget
  {
    if at + 16 > |data| then []
    else
      seq(BagCount(data, at, entrySize, budget),
          i requires 0 <= i < BagCount(data, at, entrySize, budget) =>
            ReadValue(data, at + entrySize + i * MAP_SIZE + 4, c, strings))
  }

  /** Everything the slots of one chunk change. `offsets` lists the entry offsets read, in order. */
  datatype TypeState = TypeState(entries: ValueLists, arrays: ValueLists, offsets: seq<nat>, budget: nat)

  /** `entries.setdefault(id, []).append(v)` */
  function Append(lists: ValueLists, id: nat, v: ResourceValue): ValueLists {
    lists[id := (if id in lists then lists[id] else []) + [v]]
  }

  /** The entry at `at`, once its offset has been read for the first time. */
  function ReadEntry(data: bytes, c: TypeChunk, strings: seq<string>, s: TypeState, id: nat, at: nat): TypeState {
    if at + 8 > |data| then s
    else
      var entrySize, flags := U16At(data, at), U16At(data, at + 2);
      if flags % 2 == 1 then
        var members := if s.budget > 0 then BagMembers(data, at, entrySize, c, strings, s.budget) else [];
        s.(budget := s.budget - |members|,
           arrays := if members == [] || id in s.arrays then s.arrays else s.arrays[id := members])
      else if at + entrySize + 8 > |data| then s
      else s.(entries := Append(s.entries, id, ReadValue(data, at + entrySize, c, strings)))
  }

  function ReadSlot(data: bytes, c: TypeChunk, strings: seq<string>, s: TypeState, slot: nat): TypeState {
    match EntryOffset(data, c, slot)
    case None => s
    case Some((index, offset)) =>
      if offset in s.offsets then s
      else ReadEntry(data, c, strings, s.(offsets := s.offsets + [offset]), ResourceId(c, index),
                     c.offset + c.entriesStart + offset)
  }

  function ReadSlots(data: bytes, c: TypeChunk, strings: seq<string>, s: TypeState, count: nat): TypeState
    decreases count
  {
    if count == 0 then s else ReadSlot(data, c, strings, ReadSlots(data, c, strings, s, count - 1), count - 1)
  }

  function TypeChunkAt(data: bytes, offset: nat, header: nat, packageId: nat): TypeChunk
    requires offset + 20 <= |data|
  {
    var flags, (density, language) := Byte(data, offset + 9), ReadConfig(data, offset + 20);
    TypeChunk(offset, offset + header, U32At(data, offset + 16), packageId, Byte(data, offset + 8),
              flags % 2 == 1, flags / 2 % 2 == 1, density, language)
  }

  /** The declared slot count, clamped to what the index can hold inside the chunk. */
  function SlotCount(data: bytes, offset: nat, header: nat, size: nat): (n: nat)
    requires offset + 20 <= |data|
    ensures 2 * n <= size
  {
    var end := Min(offset + size, |data|);
    var indexBytes := if offset + header < end then end - (offset + header) else 0;
    Min(U32At(data, offset + 12), indexBytes / if Byte(data, offset + 9) / 2 % 2 == 1 then 2 else 4)
  }

  datatype Tables = Tables(entries: ValueLists, arrays: ValueLists)

  /** `_read_type` */
  function ReadTypeChunk(data: bytes, offset: nat, header: nat, size: nat, packageId: nat, strings: seq<string>,
                         t: Tables): Tables {
    if offset + 20 > |data| then t
    else
      var s := ReadSlots(data, TypeChunkAt(data, offset, header, packageId), strings,
                         TypeState(t.entries, t.arrays, [], MAX_BAG_MEMBERS_PER_CHUNK),
                         SlotCount(data, offset, header, size));
      Tables(s.entries, s.arrays)
  }

  /** The chunk walk inside a package. */
  function ReadPackageFrom(data: bytes, position: nat, end: nat, packageId: nat, strings: seq<string>,
                           t: Tables): Tables
    requires end <= |data|
    decreases end - position
  {
    if position + 8 > end then t
    else
      var kind, header, size := U16At(data, position), U16At(data, position + 2), U32At(data, position + 4);
      if size < 8 || position + size > end then t
      else ReadPackageFrom(data, position + size, end, packageId, strings,
                           if kind == RES_TABLE_TYPE then
                             ReadTypeChunk(data, position, header, size, packageId, strings, t) else t)
  }

  /** `_read_package` */
  function ReadPackageChunk(data: bytes, offset: nat, header: nat, size: nat, strings: seq<string>, t: Tables): Tables {
    if offset + 12 > |data| then t
    else ReadPackageFrom(data, offset + header, Min(offset + size, |data|), U32At(data, offset + 8), strings, t)
  }

  function ReadTableFrom(data: bytes, position: nat, strings: seq<string>, t: Tables): Tables
    decreases |data| - position
  {
    if position + 8 > |data| then t
    else
      var kind, header, size := U16At(data, position), U16At(data, position + 2), U32At(data, position + 4);
      if size < 8 || position + size > |data| then t
      else ReadTableFrom(data, position + size, strings,
                         if kind == RES_TABLE_PACKAGE then ReadPackageChunk(data, position, header, size, strings, t)
                           else t)
  }

  /** `parse` */
  function ParsedTable(data: bytes): Result<Tables, ArscError> {
    if |data| < 12 then Err(TooShort)
    else if U16At(data, 0) != RES_TABLE then Err(NotATable)
    else
      var pool := TolerantPool(data, U16At(data, 2));
      if pool.Err? then Err(BadValuePool(pool.error))
      else
        var t := ReadTableFrom(data, U16At(data, 2) + pool.value.chunkSize, pool.value.strings, Tables(map[], map[]));
        if t.entries == map[] then Err(NoEntries) else Ok(t)
  }

  // ------------------------------------------------------------------ the loops

  /** The dicts `_read_package` and `_read_type` fill. */
  class TableBuilder {
    var entries: ValueLists
    var arrays: ValueLists

    constructor ()
      ensures Contents() == Tables(map[], map[])
    {
      entries, arrays := map[], map[];
    }

    ghost function Contents(): Tables
      reads this
    {
      Tables(entries, arrays)
    }

    method ReadType(data: bytes, offset: nat, header: nat, size: nat, packageId: nat, strings: seq<string>)
      modifies this
      ensures Contents() == ReadTypeChunk(data, offset, header, size, packageId, strings, old(Contents()))
    {
      hide U16At, U32At, EntryOffset, ResourceId, BagMembers, ReadValue, ReadConfig;
      if offset + 20 > |data| {
        return;
      }
      var c, count := TypeChunkAt(data, offset, header, packageId), SlotCount(data, offset, header, size);
      var seen: set<nat>, budget := {}, MAX_BAG_MEMBERS_PER_CHUNK;
      ghost var offsets: seq<nat> := [];
      ghost var before := TypeState(entries, arrays, [], MAX_BAG_MEMBERS_PER_CHUNK);
      for slot := 0 to count
        invariant TypeState(entries, arrays, offsets, budget) == ReadSlots(data, c, strings, before, slot)
        invariant forall o :: o in seen <==> o in offsets
      {
        var located := EntryOffset(data, c, slot);
        if located.None? {
          continue;
        }
        var (index, entryOffset) := located.value;
        if entryOffset in seen {
          continue;
        }
        seen, offsets := seen + {entryOffset}, offsets + [entryOffset];
        budget := ReadOne(data, c, strings, ResourceId(c, index), c.offset + c.entriesStart + entryOffset, budget,
                          offsets);
      }
    }

    /** One entry: a bag within the budget, or a plain value. */
    method ReadOne(data: bytes, c: TypeChunk, strings: seq<string>, id: nat, at: nat, budget: nat,
                   ghost offsets: seq<nat>)
      returns (left: nat)
      modifies this
      ensures TypeState(entries, arrays, offsets, left) ==
              ReadEntry(data, c, strings, old(TypeState(entries, arrays, offsets, budget)), id, at)
    {
      hide U16At, U32At, BagMembers, ReadValue;
      left := budget;
      if at + 8 > |data| {
        return;
      }
      var entrySize, flags := U16At(data, at), U16At(data, at + 2);
      if flags % 2 == 1 {
        if budget > 0 {
          var members := ReadBag(data, at, entrySize, c, strings, budget);
          left := budget - |members|;
          if members != [] && id !in arrays {
            arrays := arrays[id := members];
          }
        }
        return;
      }
      if at + entrySize + 8 <= |data| {
        entries := Append(entries, id, ReadValue(data, at + entrySize, c, strings));
      }
    }

    method ReadPackage(data: bytes, offset: nat, header: nat, size: nat, strings: seq<string>)
      modifies this
      ensures Contents() == ReadPackageChunk(data, offset, header, size, strings, old(Contents()))
    {
      hide U16At, U32At, ReadTypeChunk;
      if offset + 12 > |data| {
        return;
      }
      var packageId, position, end := U32At(data, offset + 8), offset + header, Min(offset + size, |data|);
      ghost var before := Contents();
      while position + 8 <= end
        invariant ReadPackageFrom(data, position, end, packageId, strings, Contents()) ==
                  ReadPackageFrom(data, offset + header, end, packageId, strings, before)
        decreases end - position
      {
        var kind, chunkHeader, chunkSize := U16At(data, position), U16At(data, position + 2), U32At(data, position + 4);
        if chunkSize < 8 || position + chunkSize > end {
          break;
        }
        if kind == RES_TABLE_TYPE {
          ReadType(data, position, chunkHeader, chunkSize, packageId, strings);
        }
        position := position + chunkSize;
      }
    }
  }

  method ReadBag(data: bytes, at: nat, entrySize: nat, c: TypeChunk, strings: seq<string>, budget: nat)
    returns (members: seq<ResourceValue>)
    ensures members == BagMembers(data, at, entrySize, c, strings, budget)
  {
    hide U32At, ReadValue, BagCount;
    members := [];
    if at + 16 > |data| {
      return;
    }
    var count := BagCount(data, at, entrySize, budget);
    for i := 0 to count
      invariant |members| == i
      invariant forall k :: 0 <= k < i ==> members[k] == ReadValue(data, at + entrySize + k * MAP_SIZE + 4, c, strings)
    {
      members := members + [ReadValue(data, at + entrySize + i * MAP_SIZE + 4, c, strings)];
    }
  }

  method Parse(data: bytes) returns (r: Result<Tables, ArscError>)
    ensures r == ParsedTable(data)
  {
    hide U16At, U32At, TolerantPool, ReadPackageChunk;
    if |data| < 12 {
      return Err(TooShort);
    }
    if U16At(data, 0) != RES_TABLE {
      return Err(NotATable);
    }
    var pool := new StringPool();
    var built := pool.Build(data, U16At(data, 2));
    if built.Err? {
      return Err(BadValuePool(built.error));
    }
    assert pool.Contents() == TolerantPool(data, U16At(data, 2)).value;
    var strings, position := pool.strings, U16At(data, 2) + pool.chunkSize;
    ghost var begin := position;
    var builder := new TableBuilder();
    while position + 8 <= |data|
      invariant ReadTableFrom(data, position, strings, builder.Contents()) ==
                ReadTableFrom(data, begin, strings, Tables(map[], map[]))
      decreases |data| - position
    {
      var kind, header, size := U16At(data, position), U16At(data, position + 2), U32At(data, position + 4);
      if size < 8 || position + size > |data| {
        break;
      }
      if kind == RES_TABLE_PACKAGE {
        builder.ReadPackage(data, position, header, size, strings);
      }
      position := position + size;
    }
    if builder.entries == map[] {
      return Err(NoEntries);
    }
    r := Ok(Tables(builder.entries, builder.arrays));
  }

  // ------------------------------------------------------------------ asking the table

  /** `values`: every declared value, best configuration first. */
  function Values(t: Tables, id: nat): seq<ResourceValue> {
    Sort(if id in t.entries then t.entries[id] else [], (v: ResourceValue) => v.SortKey())
  }

  /** `string`, over the values still to try. */
  function StringFrom(t: Tables, values: seq<ResourceValue>, depth: nat): Option<string>
    requires depth <= MAX_ALIAS_DEPTH
    decreases MAX_ALIAS_DEPTH + 1 - depth, 0, |values|
  {
    if values == [] then None
    else
      var v := values[0];
      if v.dataType == TYPE_STRING && v.text.Some? then v.text
      else
        var found := if v.IsReference() then StringOf(t, v.value, depth + 1) else None;
        if found.Some? then found else StringFrom(t, values[1..], depth)
  }

  /** `string`: follow references at most four deep. */
  function StringOf(t: Tables, id: nat, depth: nat): Option<string>
    requires depth <= MAX_ALIAS_DEPTH + 1
    decreases MAX_ALIAS_DEPTH + 1 - depth, 1, 0
  {
    if depth > MAX_ALIAS_DEPTH then None else StringFrom(t, Values(t, id), depth)
  }

  /** `array`: one result per member, None where it does not resolve. */
  function ArrayOf(t: Tables, id: nat): seq<Option<string>> {
    var members := if id in t.arrays then t.arrays[id] else [];
    seq(|members|, i requires 0 <= i < |members| => MemberOf(t, members[i]))
  }

  function MemberOf(t: Tables, v: ResourceValue): Option<string> {
    if v.dataType == TYPE_STRING && v.text.Some? then v.text
    else if v.IsReference() then StringOf(t, v.value, 0)
    else None
  }

  /** `array`'s loop. */
  method ResolveArray(t: Tables, id: nat) returns (resolved: seq<Option<string>>)
    ensures resolved == ArrayOf(t, id)
  {
    var members := if id in t.arrays then t.arrays[id] else [];
    resolved := [];
    for i := 0 to |members|
      invariant |resolved| == i && forall j :: 0 <= j < i ==> resolved[j] == MemberOf(t, members[j])
    {
      if members[i].dataType == TYPE_STRING && members[i].text.Some? {
        resolved := resolved + [members[i].text];
      } else if members[i].IsReference() {
        resolved := resolved + [StringOf(t, members[i].value, 0)];
      } else {
        resolved := resolved + [None];
      }
    }
  }
}
