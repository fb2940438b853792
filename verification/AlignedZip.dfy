/**
 The zip the shortcut builder lays out with every stored entry on a 4-byte boundary, and a
 reader of sections 4.3.7, 4.3.12 and 4.3.16 of PKWARE's APPNOTE.TXT. Deflate and CRC-32
 are function parameters.
 */
module AlignedZip {
  import opened Wrappers
  import opened Bytes
  import opened ApkSigning

  datatype Codec = Codec(deflate: bytes -> bytes, crc32: bytes -> nat)

  datatype Entry = Entry(name: bytes, stored: bool, data: bytes)

  const LOCAL_MAGIC: bytes := [0x50, 0x4B, 0x03, 0x04]
  const CENTRAL_MAGIC: bytes := [0x50, 0x4B, 0x01, 0x02]
  const ALIGNMENT_TAG: nat := 0xD935
  const ZIP64_LIMIT: nat := 0x7FFF_FFFF

  // 1981-01-01 01:01:02 as MS-DOS time and date.
  const FIXED_TIME: nat := 2081
  const FIXED_DATE: nat := 545

  function Payload(codec: Codec, e: Entry): bytes {
    if e.stored then e.data else codec.deflate(e.data)
  }

  function Compression(e: Entry): nat {
    if e.stored then 0 else 8
  }

  function Flags(e: Entry): nat {
    if forall i :: 0 <= i < |e.name| ==> e.name[i] < 128 then 0 else 0x800
  }

  /** The alignment field: as much padding as brings the data to a multiple of four. */
  function Extra(e: Entry, offset: nat): (x: bytes)
    ensures |x| < 16
    ensures e.stored ==> (offset + 30 + |e.name| + |x|) % 4 == 0
  {
    if !e.stored then []
    else
      var pad := Padding(offset + 30 + |e.name| + 6);
      U16(ALIGNMENT_TAG) + U16(2 + pad) + U16(4) + Zeros(pad)
  }

  /** Fields shared by both headers: flags, method, time, date, CRC and the two sizes. */
  function Common(codec: Codec, e: Entry): (c: bytes)
    ensures |c| == 20
  {
    U16(Flags(e)) + U16(Compression(e)) + U16(FIXED_TIME) + U16(FIXED_DATE) +
    U32(codec.crc32(e.data)) + U32(|Payload(codec, e)|) + U32(|e.data|)
  }

  function LocalHeader(codec: Codec, e: Entry, offset: nat): (h: bytes)
    ensures |h| == 30
  {
    LOCAL_MAGIC + U16(20) + Common(codec, e) + U16(|e.name|) + U16(|Extra(e, offset)|)
  }

  function Local(codec: Codec, e: Entry, offset: nat): (l: bytes)
    ensures |l| == 30 + |e.name| + |Extra(e, offset)| + |Payload(codec, e)|
  {
    LocalHeader(codec, e, offset) + e.name + Extra(e, offset) + Payload(codec, e)
  }

  function CentralHeader(codec: Codec, e: Entry, offset: nat): (h: bytes)
    ensures |h| == 46
  {
    CENTRAL_MAGIC + [20, 3, 20, 0] + Common(codec, e) + U16(|e.name|) + U16(|Extra(e, offset)|) +
    Zeros(6) + U32(0x180_0000) + U32(offset)
  }

  function Central(codec: Codec, e: Entry, offset: nat): bytes {
    CentralHeader(codec, e, offset) + e.name + Extra(e, offset)
  }

  function EndRecord(count: nat, size: nat, offset: nat): (r: bytes)
    ensures |r| == EOCD_SIZE
  {
    EOCD_MAGIC + Zeros(4) + U16(count) + U16(count) + U32(size) + U32(offset) + Zeros(2)
  }

  /** Local entries from `offset` on. */
  function Locals(codec: Codec, entries: seq<Entry>, offset: nat): bytes {
    if entries == [] then []
    else Local(codec, entries[0], offset) + Locals(codec, entries[1..], offset + |Local(codec, entries[0], offset)|)
  }

  /** Their central directory headers. */
  function Centrals(codec: Codec, entries: seq<Entry>, offset: nat): bytes {
    if entries == [] then []
    else Central(codec, entries[0], offset) + Centrals(codec, entries[1..], offset + |Local(codec, entries[0], offset)|)
  }

  function Written(codec: Codec, entries: seq<Entry>): bytes {
    Locals(codec, entries, 0) + Centrals(codec, entries, 0) +
    EndRecord(|entries|, |Centrals(codec, entries, 0)|, |Locals(codec, entries, 0)|)
  }

  /** Small enough for the classic records; beyond this `zipfile` writes ZIP64 ones. */
  predicate Classic(codec: Codec, entries: seq<Entry>) {
    && |entries| < U16_LIMIT
    && |Written(codec, entries)| <= ZIP64_LIMIT
    && forall e :: e in entries ==> |e.name| < U16_LIMIT && 21 * |e.data| <= 20 * ZIP64_LIMIT
  }

  lemma LocalsSnoc(codec: Codec, entries: seq<Entry>, last: Entry, offset: nat)
    ensures var at := offset + |Locals(codec, entries, offset)|;
            && Locals(codec, entries + [last], offset) == Locals(codec, entries, offset) + Local(codec, last, at)
            && Centrals(codec, entries + [last], offset) == Centrals(codec, entries, offset) + Central(codec, last, at)
    decreases |entries|
  {
    hide Local, Central, Locals, Centrals;
    LocalsUnfold(codec, entries, offset);
    LocalsUnfold(codec, entries + [last], offset);
    if entries == [] {
      assert [last][1..] == [] && [] + [last] == [last];
      LocalsUnfold(codec, [], offset + |Local(codec, last, offset)|);
    } else {
      assert (entries + [last])[1..] == entries[1..] + [last];
      var first, next := Local(codec, entries[0], offset), offset + |Local(codec, entries[0], offset)|;
      var at := next + |Locals(codec, entries[1..], next)|;
      LocalsSnoc(codec, entries[1..], last, next);
      JoinThree(first, Locals(codec, entries[1..], next), Local(codec, last, at));
      JoinThree(Central(codec, entries[0], offset), Centrals(codec, entries[1..], next), Central(codec, last, at));
    }
  }

  lemma JoinThree(a: bytes, b: bytes, c: bytes)
    ensures a + (b + c) == (a + b) + c
  {
  }

  lemma LocalsUnfold(codec: Codec, entries: seq<Entry>, offset: nat)
    ensures entries == [] ==> Locals(codec, entries, offset) == [] && Centrals(codec, entries, offset) == []
    ensures entries != [] ==>
              var first := Local(codec, entries[0], offset);
              && Locals(codec, entries, offset) == first + Locals(codec, entries[1..], offset + |first|)
              && Centrals(codec, entries, offset) ==
                   Central(codec, entries[0], offset) + Centrals(codec, entries[1..], offset + |first|)
  {
    hide Local, Central;
  }

  method LayOut(codec: Codec, entries: seq<Entry>) returns (out: bytes, directory: bytes)
    ensures out == Locals(codec, entries, 0) && directory == Centrals(codec, entries, 0)
  {
    hide Local, Central;
    out, directory := [], [];
    assert Locals(codec, entries[..0], 0) == [] && Centrals(codec, entries[..0], 0) == [];
    hide Locals, Centrals;
    for k := 0 to |entries|
      invariant out == Locals(codec, entries[..k], 0)
      invariant directory == Centrals(codec, entries[..k], 0)
    {
      assert entries[..k + 1] == entries[..k] + [entries[k]];
      LocalsSnoc(codec, entries[..k], entries[k], 0);
      var at := |out|;
      out := out + Local(codec, entries[k], at);
      directory := directory + Central(codec, entries[k], at);
    }
    assert entries[..|entries|] == entries;
  }

  /** `_write_aligned`; None when the archive would need ZIP64 records. */
  method WriteAligned(codec: Codec, entries: seq<Entry>) returns (zip: Option<bytes>)
    ensures zip == if Classic(codec, entries) then Some(Written(codec, entries)) else None
  {
    hide Locals, Centrals, EndRecord;
    var out, directory := LayOut(codec, entries);
    var file := out + directory + EndRecord(|entries|, |directory|, |out|);
    zip := if Classic(codec, entries) then Some(file) else None;
  }

  // ------------------------------------------------------------------ reading

  /** What a reader brings along: the inverse of deflate, which may fail, and CRC-32. */
  datatype Unpacker = Unpacker(inflate: bytes -> Option<bytes>, crc32: bytes -> nat)

  /** The seven fields that both headers of an entry hold, side by side. */
  datatype Facts = Facts(flags: nat, compression: nat, time: nat, date: nat, crc: nat, packed: nat, size: nat)

  function FactsAt(data: bytes, at: nat): Facts
    requires at + 20 <= |data|
  {
    Facts(U16At(data, at), U16At(data, at + 2), U16At(data, at + 4), U16At(data, at + 6), U32At(data, at + 8),
          U32At(data, at + 12), U32At(data, at + 16))
  }

  datatype Moment = Moment(year: nat, month: nat, day: nat, hour: nat, minute: nat, second: nat)

  /** MS-DOS date and time, two seconds a unit. */
  function MomentOf(time: nat, date: nat): Moment {
    Moment(1980 + date / 512, date / 32 % 16, date % 32, time / 2048, time / 32 % 64, 2 * (time % 32))
  }

  /**
   An unpacked entry: bit 11 says that the name is UTF-8, the upper half of the external attributes
   are Unix permissions, and `at` is where its data lies in the archive.
   */
  datatype Member = Member(name: bytes, utf8: bool, compression: nat, changed: Moment, permissions: nat, data: bytes,
                           at: nat)

  /** An extra field is a list of tags, each with its length and as many bytes. */
  predicate IsExtraField(extra: bytes)
    decreases |extra|
  {
    extra == [] || (|extra| >= 4 && 4 + U16At(extra, 2) <= |extra| && IsExtraField(extra[4 + U16At(extra, 2)..]))
  }

  /** The entry's own data, if its size and checksum are as the header says; encrypted entries are refused. */
  function Unpacked(zip: Unpacker, facts: Facts, payload: bytes): Option<bytes> {
    var data := if facts.compression == 0 then Some(payload) else if facts.compression == 8 then zip.inflate(payload)
      else None;
    if facts.flags % 2 == 1 || data.None? || |data.value| != facts.size || zip.crc32(data.value) != facts.crc then None
    else data
  }

  /** Made on Unix, and for readers of version 2.0 of the format, as both headers say. */
  predicate IsUnderstood(data: bytes, at: nat, local: nat)
    requires at + 46 <= |data| && local + 30 <= |data|
  {
    data[at + 5] == 3 && data[at + 6] == data[local + 4] == 20 && data[at + 7] == data[local + 5] == 0
  }

  /** The entry that the central header at `at` describes; its local header must say the same. */
  function ReadEntry(zip: Unpacker, data: bytes, at: nat): Option<Member> {
    if at + 46 > |data| || data[at..at + 4] != [0x50, 0x4B, 0x01, 0x02] then None
    else
      var facts, nameLength, local := FactsAt(data, at + 8), U16At(data, at + 28), U32At(data, at + 42);
      if EntryEnd(data, at) > |data| || local + 30 > |data| || data[local..local + 4] != [0x50, 0x4B, 0x03, 0x04]
         || !IsUnderstood(data, at, local) || FactsAt(data, local + 6) != facts
         || U16At(data, local + 26) != nameLength then None
      else
        var extra := local + 30 + nameLength;
        var start := extra + U16At(data, local + 28);
        if start + facts.packed > |data| then None
        else
          var name, content := data[at + 46..at + 46 + nameLength],
              Unpacked(zip, facts, data[start..start + facts.packed]);
          if name != data[local + 30..extra] || !IsExtraField(data[extra..start]) || content.None? then None
          else
            Some(Member(name, facts.flags / 0x800 % 2 == 1, facts.compression, MomentOf(facts.time, facts.date),
                        U32At(data, at + 38) / 0x1_0000, content.value, start))
  }

  function EntryEnd(data: bytes, at: nat): nat
    requires at + 46 <= |data|
  {
    at + 46 + U16At(data, at + 28) + U16At(data, at + 30) + U16At(data, at + 32)
  }

  function ReadDirectory(zip: Unpacker, data: bytes, at: nat, count: nat): Option<seq<Member>>
    decreases count
  {
    if count == 0 then Some([])
    else
      var head := ReadEntry(zip, data, at);
      if head.None? then None
      else
        var tail := ReadDirectory(zip, data, EntryEnd(data, at), count - 1);
        if tail.None? then None else Some([head.value] + tail.value)
  }

  /** The record of an archive on one disk. */
  predicate IsWhole(data: bytes, eocd: nat)
    requires eocd + EOCD_SIZE <= |data|
  {
    data[eocd + 4..eocd + 8] == [0, 0, 0, 0] && U16At(data, eocd + 8) == U16At(data, eocd + 10)
  }

  function ReadZip(zip: Unpacker, data: bytes): Option<seq<Member>> {
    var eocd := FindEndRecord(data);
    if eocd.None? then None
    else
      var size, directory := U32At(data, eocd.value + 12), U32At(data, eocd.value + 16);
      if directory + size != eocd.value || !IsWhole(data, eocd.value) then None
      else ReadDirectory(zip, data, directory, U16At(data, eocd.value + 10))
  }

  /** An entry's own name and data, stamped 1981-01-01 01:01:02, readable and writable by its owner. */
  function MemberOf(e: Entry, offset: nat): Member {
    Member(e.name, exists i :: 0 <= i < |e.name| && e.name[i] >= 128, if e.stored then 0 else 8,
           Moment(1981, 1, 1, 1, 1, 2), 6 * 64, e.data, offset + 30 + |e.name| + |Extra(e, offset)|)
  }

  /** What the reader must find. */
  function Expected(codec: Codec, entries: seq<Entry>, offset: nat): seq<Member> {
    if entries == [] then []
    else
      var e := entries[0];
      [MemberOf(e, offset)] + Expected(codec, entries[1..], offset + |Local(codec, e, offset)|)
  }
}
