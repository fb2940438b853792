/** The aligned zip reads back entry by entry, and signing it moves none of the data. */
module AlignedZipTheorems {
  import opened Wrappers
  import opened Bytes
  import opened ApkSigning
  import opened ApkSigningTheorems
  import opened AlignedZip

  /** The reader undoes what the writer's libraries do. */
  ghost predicate Unpacks(zip: Unpacker, codec: Codec) {
    && (forall data :: zip.inflate(codec.deflate(data)) == Some(data))
    && (forall data :: zip.crc32(data) == codec.crc32(data) < U32_LIMIT)
  }

  /** The twenty bytes both headers share say what is in the entry. */
  lemma CommonFacts(codec: Codec, e: Entry)
    requires |Payload(codec, e)| < U32_LIMIT && |e.data| < U32_LIMIT && codec.crc32(e.data) < U32_LIMIT
    ensures FactsAt(Common(codec, e), 0) ==
            Facts(Flags(e), Compression(e), FIXED_TIME, FIXED_DATE, codec.crc32(e.data), |Payload(codec, e)|, |e.data|)
  {
    hide U16At, U32At, U16, U32, Payload;
    var c := Common(codec, e);
    var a, b, t, d := U16(Flags(e)), U16(Compression(e)), U16(FIXED_TIME), U16(FIXED_DATE);
    var crc, packed, size := U32(codec.crc32(e.data)), U32(|Payload(codec, e)|), U32(|e.data|);
    assert c == [] + a + (b + t + d + crc + packed + size);
    U16Reads([], Flags(e), b + t + d + crc + packed + size);
    assert c == a + b + (t + d + crc + packed + size);
    U16Reads(a, Compression(e), t + d + crc + packed + size);
    assert c == (a + b) + t + (d + crc + packed + size);
    U16Reads(a + b, FIXED_TIME, d + crc + packed + size);
    assert c == (a + b + t) + d + (crc + packed + size);
    U16Reads(a + b + t, FIXED_DATE, crc + packed + size);
    SizesRead(a + b + t + d, codec.crc32(e.data), |Payload(codec, e)|, |e.data|);
  }

  lemma SizesRead(before: bytes, crc: nat, packed: nat, size: nat)
    requires crc < U32_LIMIT && packed < U32_LIMIT && size < U32_LIMIT
    ensures var c, at := before + U32(crc) + U32(packed) + U32(size), |before|;
            U32At(c, at) == crc && U32At(c, at + 4) == packed && U32At(c, at + 8) == size
  {
    hide U32At, U32;
    var c := before + U32(crc) + U32(packed) + U32(size);
    assert c == before + U32(crc) + (U32(packed) + U32(size));
    U32Reads(before, crc, U32(packed) + U32(size));
    assert c == (before + U32(crc)) + U32(packed) + U32(size);
    U32Reads(before + U32(crc), packed, U32(size));
    assert c == (before + U32(crc) + U32(packed)) + U32(size) + [];
    U32Reads(before + U32(crc) + U32(packed), size, []);
  }

  lemma FactsInside(data: bytes, lo: nat, part: bytes)
    requires |part| == 20 && Holds(data, lo, part)
    ensures FactsAt(data, lo) == FactsAt(part, 0)
  {
    hide U16At, U32At;
    ReadsInside(data, lo, part, 0);
    ReadsInside(data, lo, part, 2);
    ReadsInside(data, lo, part, 4);
    ReadsInside(data, lo, part, 6);
    ReadsInside(data, lo, part, 8);
    ReadsInside(data, lo, part, 12);
    ReadsInside(data, lo, part, 16);
  }

  lemma LocalFields(codec: Codec, e: Entry, offset: nat)
    requires |e.name| < U16_LIMIT
    ensures var h := LocalHeader(codec, e, offset);
            && h[0..4] == [0x50, 0x4B, 0x03, 0x04] && h[4..6] == [20, 0] && Holds(h, 6, Common(codec, e))
            && U16At(h, 26) == |e.name| && U16At(h, 28) == |Extra(e, offset)|
  {
    hide U16At, U16, Common, Extra;
    var h, front := LocalHeader(codec, e, offset), LOCAL_MAGIC + U16(20) + Common(codec, e);
    var name, extra := U16(|e.name|), U16(|Extra(e, offset)|);
    assert h == front + name + extra && h == (front + name) + extra + [];
    U16Reads(front, |e.name|, extra);
    U16Reads(front + name, |Extra(e, offset)|, []);
    TwentyIs();
  }

  lemma TwentyIs()
    ensures U16(20) == [20, 0]
  {
  }

  lemma CentralFields(codec: Codec, e: Entry, offset: nat)
    requires |e.name| < U16_LIMIT && offset < U32_LIMIT
    ensures var h := CentralHeader(codec, e, offset);
            && h[0..4] == [0x50, 0x4B, 0x01, 0x02] && h[4..8] == [20, 3, 20, 0] && Holds(h, 8, Common(codec, e))
            && U16At(h, 28) == |e.name| && U16At(h, 30) == |Extra(e, offset)| && U16At(h, 32) == 0
            && U32At(h, 42) == offset && U32At(h, 38) == 0x180_0000
  {
    hide U16At, U32At, U16, U32, Common, Extra;
    var h, magic, common := CentralHeader(codec, e, offset), CENTRAL_MAGIC + [20, 3, 20, 0], Common(codec, e);
    var name, extra, tail := U16(|e.name|), U16(|Extra(e, offset)|), Zeros(6) + U32(0x180_0000) + U32(offset);
    assert h == (magic + common) + name + (extra + tail);
    U16Reads(magic + common, |e.name|, extra + tail);
    assert h == (magic + common + name) + extra + tail;
    U16Reads(magic + common + name, |Extra(e, offset)|, tail);
    assert h == (magic + common + name + extra + Zeros(6) + U32(0x180_0000)) + U32(offset) + [];
    U32Reads(magic + common + name + extra + Zeros(6) + U32(0x180_0000), offset, []);
    assert h == (magic + common + name + extra + Zeros(6)) + U32(0x180_0000) + U32(offset);
    U32Reads(magic + common + name + extra + Zeros(6), 0x180_0000, U32(offset));
    NoComment(h);
  }

  lemma NoComment(h: bytes)
    requires |h| == 46 && h[32] == 0 && h[33] == 0
    ensures U16At(h, 32) == 0
  {
  }

  /** The alignment field is one tag of the length it announces. */
  lemma ExtraIsField(e: Entry, offset: nat)
    ensures IsExtraField(Extra(e, offset))
  {
    var extra := Extra(e, offset);
    if e.stored {
      var pad := Padding(offset + 30 + |e.name| + 6);
      assert extra == U16(ALIGNMENT_TAG) + U16(2 + pad) + (U16(4) + Zeros(pad));
      U16Reads(U16(ALIGNMENT_TAG), 2 + pad, U16(4) + Zeros(pad));
      assert |extra| == 6 + pad && extra[6 + pad..] == [];
    }
  }

  lemma EntryUnpacks(zip: Unpacker, codec: Codec, e: Entry)
    requires Unpacks(zip, codec)
    ensures var facts := Facts(Flags(e), Compression(e), FIXED_TIME, FIXED_DATE, codec.crc32(e.data),
                               |Payload(codec, e)|, |e.data|);
            && Unpacked(zip, facts, Payload(codec, e)) == Some(e.data)
            && (Flags(e) / 0x800 % 2 == 1 <==> exists i :: 0 <= i < |e.name| && e.name[i] >= 128)
            && Compression(e) == (if e.stored then 0 else 8)
            && MomentOf(FIXED_TIME, FIXED_DATE) == Moment(1981, 1, 1, 1, 1, 2)
  {
  }

  predicate Writable(codec: Codec, e: Entry) {
    |e.name| < U16_LIMIT && |Payload(codec, e)| < U32_LIMIT && |e.data| < U32_LIMIT
  }

  lemma EntryReads(zip: Unpacker, codec: Codec, e: Entry, data: bytes, offset: nat, at: nat)
    requires Unpacks(zip, codec) && Writable(codec, e) && offset < U32_LIMIT
    requires Holds(data, offset, Local(codec, e, offset)) && Holds(data, at, Central(codec, e, offset))
    ensures at + 46 <= |data| && EntryEnd(data, at) == at + |Central(codec, e, offset)|
    ensures ReadEntry(zip, data, at) == Some(MemberOf(e, offset))
  {
    hide U16At, U32At, Extra, Payload, Compression, Central, Local, FactsAt, Unpacked, IsExtraField, Flags, Unpacks,
         MomentOf, EntryEnd, ReadEntry, IsUnderstood, Holds;
    CentralReads(zip, codec, e, data, offset, at);
    LocalReads(zip, codec, e, data, offset);
    UnderstoodParts(data, at, offset);
    ExtraIsField(e, offset);
    EntryUnpacks(zip, codec, e);
    var extra := offset + 30 + |e.name|;
    var start := extra + |Extra(e, offset)|;
    HeldSlice(data, at + 46, e.name);
    HeldSlice(data, offset + 30, e.name);
    HeldSlice(data, extra, Extra(e, offset));
    HeldSlice(data, start, Payload(codec, e));
    EntryIs(zip, data, at, FactsAt(data, at + 8), e.name, offset, start, e.data);
  }

  lemma HeldSlice(data: bytes, at: nat, part: bytes)
    requires Holds(data, at, part)
    ensures at + |part| <= |data| && data[at..at + |part|] == part
  {
  }

  /** When both headers agree and the data unpacks, that is the entry. */
  lemma EntryIs(zip: Unpacker, data: bytes, at: nat, facts: Facts, name: bytes, local: nat, start: nat, content: bytes)
    requires at + 46 <= |data| && EntryEnd(data, at) <= |data| && data[at..at + 4] == [0x50, 0x4B, 0x01, 0x02]
    requires FactsAt(data, at + 8) == facts && U16At(data, at + 28) == |name| && U32At(data, at + 42) == local
    requires at + 46 + |name| <= |data| && data[at + 46..at + 46 + |name|] == name
    requires local + 30 + |name| <= start <= |data| && data[local..local + 4] == [0x50, 0x4B, 0x03, 0x04]
    requires IsUnderstood(data, at, local)
    requires FactsAt(data, local + 6) == facts && U16At(data, local + 26) == |name|
    requires U16At(data, local + 28) == start - (local + 30 + |name|) && data[local + 30..local + 30 + |name|] == name
    requires IsExtraField(data[local + 30 + |name|..start]) && start + facts.packed <= |data|
    requires Unpacked(zip, facts, data[start..start + facts.packed]) == Some(content)
    ensures ReadEntry(zip, data, at) ==
            Some(Member(name, facts.flags / 0x800 % 2 == 1, facts.compression, MomentOf(facts.time, facts.date),
                        U32At(data, at + 38) / 0x1_0000, content, start))
  {
    hide U16At, U32At, FactsAt, Unpacked, IsExtraField, MomentOf, EntryEnd, IsUnderstood;
  }

  lemma UnderstoodParts(data: bytes, at: nat, local: nat)
    requires at + 46 <= |data| && local + 30 <= |data|
    requires data[at + 4..at + 8] == [20, 3, 20, 0] && data[local + 4..local + 6] == [20, 0]
    ensures IsUnderstood(data, at, local)
  {
    assert data[at + 5] == data[at + 4..at + 8][1] && data[at + 6] == data[at + 4..at + 8][2];
    assert data[at + 7] == data[at + 4..at + 8][3];
    assert data[local + 4] == data[local + 4..local + 6][0] && data[local + 5] == data[local + 4..local + 6][1];
  }

  lemma CentralReads(zip: Unpacker, codec: Codec, e: Entry, data: bytes, offset: nat, at: nat)
    requires Unpacks(zip, codec) && Writable(codec, e) && offset < U32_LIMIT &&
             Holds(data, at, Central(codec, e, offset))
    ensures at + 46 <= |data| && data[at..at + 4] == [0x50, 0x4B, 0x01, 0x02] && data[at + 4..at + 8] == [20, 3, 20, 0]
    ensures EntryEnd(data, at) == at + |Central(codec, e, offset)| <= |data|
    ensures U16At(data, at + 28) == |e.name| && U32At(data, at + 42) == offset && Holds(data, at + 46, e.name)
    ensures U32At(data, at + 38) == 0x180_0000
    ensures FactsAt(data, at + 8) == Facts(Flags(e), Compression(e), FIXED_TIME, FIXED_DATE, codec.crc32(e.data),
                                           |Payload(codec, e)|, |e.data|)
  {
    hide U16At, U32At, Extra, Payload, CentralHeader, FactsAt, Flags, Compression, Unpacks, Common;
    var central, extra := CentralHeader(codec, e, offset), Extra(e, offset);
    HoldsParts(data, at, central + e.name, extra);
    HoldsParts(data, at, central, e.name);
    CentralFields(codec, e, offset);
    FactsOf(zip, codec, e, data, at, central, 8);
    ReadsInside(data, at, central, 28);
    ReadsInside(data, at, central, 30);
    ReadsInside(data, at, central, 32);
    ReadsInside(data, at, central, 38);
    ReadsInside(data, at, central, 42);
    assert data[at..at + 4] == data[at..at + 46][0..4] == central[0..4];
    SliceOfSlice(data, at, at + 46, 4, 8);
  }

  lemma FactsOf(zip: Unpacker, codec: Codec, e: Entry, data: bytes, at: nat, header: bytes, k: nat)
    requires Unpacks(zip, codec) && Writable(codec, e)
    requires Holds(data, at, header) && Holds(header, k, Common(codec, e))
    ensures at + k + 20 <= |data|
    ensures FactsAt(data, at + k) == Facts(Flags(e), Compression(e), FIXED_TIME, FIXED_DATE, codec.crc32(e.data),
                                           |Payload(codec, e)|, |e.data|)
  {
    hide FactsAt, Common, Payload, Flags, Compression;
    CommonFacts(codec, e);
    SliceOfSlice(data, at, at + |header|, k, k + 20);
    assert data[at..at + |header|] == header;
    FactsInside(data, at + k, Common(codec, e));
  }

  lemma LocalReads(zip: Unpacker, codec: Codec, e: Entry, data: bytes, offset: nat)
    requires Unpacks(zip, codec) && Writable(codec, e)
    requires Holds(data, offset, Local(codec, e, offset))
    ensures offset + 30 <= |data| && data[offset..offset + 4] == [0x50, 0x4B, 0x03, 0x04]
    ensures data[offset + 4..offset + 6] == [20, 0]
    ensures U16At(data, offset + 26) == |e.name| && U16At(data, offset + 28) == |Extra(e, offset)|
    ensures FactsAt(data, offset + 6) == Facts(Flags(e), Compression(e), FIXED_TIME, FIXED_DATE, codec.crc32(e.data),
                                               |Payload(codec, e)|, |e.data|)
    ensures Holds(data, offset + 30, e.name) && Holds(data, offset + 30 + |e.name|, Extra(e, offset))
    ensures Holds(data, offset + 30 + |e.name| + |Extra(e, offset)|, Payload(codec, e))
  {
    hide U16At, U32At, Extra, Payload, LocalHeader, FactsAt, Flags, Compression, Unpacks, Common;
    var local, extra, payload := LocalHeader(codec, e, offset), Extra(e, offset), Payload(codec, e);
    assert Local(codec, e, offset) == (local + e.name + extra) + payload;
    HoldsParts(data, offset, local + e.name + extra, payload);
    HoldsParts(data, offset, local + e.name, extra);
    HoldsParts(data, offset, local, e.name);
    LocalFields(codec, e, offset);
    FactsOf(zip, codec, e, data, offset, local, 6);
    ReadsInside(data, offset, local, 26);
    ReadsInside(data, offset, local, 28);
    assert data[offset..offset + 4] == data[offset..offset + 30][0..4] == local[0..4];
    SliceOfSlice(data, offset, offset + 30, 4, 6);
  }

  predicate Readable(codec: Codec, entries: seq<Entry>, offset: nat) {
    && offset + |Locals(codec, entries, offset)| < U32_LIMIT
    && forall e :: e in entries ==> |e.name| < U16_LIMIT && |e.data| < U32_LIMIT
  }

  lemma {:induction false} DirectoryReads(zip: Unpacker, codec: Codec, entries: seq<Entry>, data: bytes, offset: nat,
                                          at: nat)
    requires Unpacks(zip, codec) && Readable(codec, entries, offset)
    requires Holds(data, offset, Locals(codec, entries, offset))
    requires Holds(data, at, Centrals(codec, entries, offset))
    ensures ReadDirectory(zip, data, at, |entries|) == Some(Expected(codec, entries, offset))
    decreases |entries|
  {
    hide Local, Central, ReadEntry, EntryEnd, Extra, Payload, Unpacks;
    if entries != [] {
      var e := entries[0];
      var local, central := Local(codec, e, offset), Central(codec, e, offset);
      var next := offset + |local|;
      HoldsParts(data, offset, local, Locals(codec, entries[1..], next));
      HoldsParts(data, at, central, Centrals(codec, entries[1..], next));
      EntryReads(zip, codec, e, data, offset, at);
      DirectoryReads(zip, codec, entries[1..], data, next, at + |central|);
    }
  }

  /** Every stored entry's data starts on a 4-byte boundary. */
  ghost predicate Aligned(members: seq<Member>) {
    forall m :: m in members && m.compression == 0 ==> m.at % 4 == 0
  }

  /** The expected members are the entries, one by one, with their own names and data. */
  lemma {:induction false} ExpectedIsAligned(codec: Codec, entries: seq<Entry>, offset: nat)
    ensures Aligned(Expected(codec, entries, offset)) && |Expected(codec, entries, offset)| == |entries|
    ensures forall i :: 0 <= i < |entries| ==>
      var m := Expected(codec, entries, offset)[i];
      m.name == entries[i].name && m.data == entries[i].data && (m.compression == 0 <==> entries[i].stored)
    decreases |entries|
  {
    hide Local, Extra;
    if entries != [] {
      ExpectedIsAligned(codec, entries[1..], offset + |Local(codec, entries[0], offset)|);
    }
  }

  lemma EndRecordFields(count: nat, size: nat, offset: nat)
    requires count < U16_LIMIT && size < U32_LIMIT && offset < U32_LIMIT
    ensures var r := EndRecord(count, size, offset);
            && U16At(r, 8) == count && U16At(r, 10) == count && U32At(r, 12) == size && U32At(r, 16) == offset
            && r[..4] == EOCD_MAGIC && (forall k :: 4 <= k < 8 ==> r[k] == 0) && U16At(r, 20) == 0
  {
    hide U16At, U32At, U16, U32;
    var r, front := EndRecord(count, size, offset), EOCD_MAGIC + Zeros(4) + U16(count);
    assert r == front + U16(count) + (U32(size) + U32(offset) + Zeros(2));
    U16Reads(front, count, U32(size) + U32(offset) + Zeros(2));
    assert r == (EOCD_MAGIC + Zeros(4)) + U16(count) + (U16(count) + U32(size) + U32(offset) + Zeros(2));
    U16Reads(EOCD_MAGIC + Zeros(4), count, U16(count) + U32(size) + U32(offset) + Zeros(2));
    assert r == (front + U16(count)) + U32(size) + (U32(offset) + Zeros(2));
    U32Reads(front + U16(count), size, U32(offset) + Zeros(2));
    assert r == (front + U16(count) + U32(size)) + U32(offset) + Zeros(2);
    U32Reads(front + U16(count) + U32(size), offset, Zeros(2));
    assert r[20] == 0 && r[21] == 0;
    LastIsZero(r);
  }

  lemma LastIsZero(r: bytes)
    requires |r| == EOCD_SIZE && r[20] == 0 && r[21] == 0
    ensures U16At(r, 20) == 0
  {
  }

  /** The record is found at the end, and nowhere later inside itself. */
  predicate Unambiguous(codec: Codec, entries: seq<Entry>) {
    RFind(EndRecord(|entries|, |Centrals(codec, entries, 0)|, |Locals(codec, entries, 0)|), EOCD_MAGIC, 0) == 0
  }

  lemma EndRecordStartsWithMagic(count: nat, size: nat, offset: nat)
    ensures RFind(EndRecord(count, size, offset), EOCD_MAGIC, 0) >= 0
  {
    hide RFindBelow, U16, U32;
    assert EndRecord(count, size, offset)[0..4] == EOCD_MAGIC;
    assert MatchesAt(EndRecord(count, size, offset), EOCD_MAGIC, 0);
  }

  /** `sign_v2` takes what `_write_aligned` wrote exactly when that record is unambiguous. */
  lemma WrittenEndsWithItsEndRecord(codec: Codec, entries: seq<Entry>)
    ensures EndsWithItsOnlyEndRecord(Written(codec, entries)) <==> Unambiguous(codec, entries)
    ensures Unambiguous(codec, entries) ==>
              EndRecordOffset(Written(codec, entries)) == |Written(codec, entries)| - EOCD_SIZE
  {
    hide RFindBelow, RFind, EndRecord, Locals, Centrals;
    var locals, centrals := Locals(codec, entries, 0), Centrals(codec, entries, 0);
    var end := EndRecord(|entries|, |centrals|, |locals|);
    var file := Written(codec, entries);
    assert file == (locals + centrals) + end;
    EndRecordStartsWithMagic(|entries|, |centrals|, |locals|);
    RFindInSuffix(locals + centrals, end, EOCD_MAGIC, 0);
    RFindInSuffix(locals + centrals, end, EOCD_MAGIC,
                  if |file| > EOCD_SIZE + 0xFFFF then |file| - (EOCD_SIZE + 0xFFFF) else 0);
  }

  lemma {:induction false} CentralsLength(codec: Codec, entries: seq<Entry>, offset: nat)
    ensures |Centrals(codec, entries, offset)| >= 46 * |entries|
    decreases |entries|
  {
    hide CentralHeader, Extra, Local;
    if entries != [] {
      CentralsLength(codec, entries[1..], offset + |Local(codec, entries[0], offset)|);
    }
  }

  /** Entry count, directory size and offset, as the record packs them one after the other, spell a second magic. */
  predicate RecordSpellsMagic(count: nat, size: nat, offset: nat) {
    || (count == 0x4B50 && size % 0x1_0000 == 0x0605)
    || (count / 0x100 == 0x50 && size % 0x100_0000 == 0x06_054B)
    || size == 0x0605_4B50
    || SpellsMagic(size, offset, 0)
  }

  /** Nothing before the second entry count can spell the magic. */
  lemma EarlyWindows(end: bytes, r: nat)
    requires |end| == EOCD_SIZE && end[8] == end[10] && end[9] == end[11] && forall k :: 4 <= k < 8 ==> end[k] == 0
    requires 0 < r < 10
    ensures !MatchesAt(end, EOCD_MAGIC, r)
  {
    WindowIs(end, r);
    hide MatchesAt;
  }

  /** The windows before those of `SizeWindowsSpell`; the entry count stands twice in the record. */
  lemma CountWindowsSpell(end: bytes)
    requires |end| == EOCD_SIZE
    ensures var count, size := U16At(end, 10), U32At(end, 12);
            && (MatchesAt(end, EOCD_MAGIC, 10) <==> count == 0x4B50 && size % 0x1_0000 == 0x0605)
            && (MatchesAt(end, EOCD_MAGIC, 11) <==> count / 0x100 == 0x50 && size % 0x100_0000 == 0x06_054B)
            && (MatchesAt(end, EOCD_MAGIC, 12) <==> size == 0x0605_4B50)
  {
    FourBytes(end, 12);
    WordIsMagic(end, 12);
    WindowIs(end, 10);
    WindowIs(end, 11);
    WindowIs(end, 12);
    hide U32At, MatchesAt;
  }

  lemma RecordWindows(end: bytes)
    requires |end| == EOCD_SIZE && MatchesAt(end, EOCD_MAGIC, 0)
    requires end[8] == end[10] && end[9] == end[11] && (forall k :: 4 <= k < 8 ==> end[k] == 0) && U16At(end, 20) == 0
    ensures RFind(end, EOCD_MAGIC, 0) == 0 <==> !RecordSpellsMagic(U16At(end, 10), U32At(end, 12), U32At(end, 16))
  {
    hide U32At, U16At, MatchesAt, RFindBelow;
    CountWindowsSpell(end);
    forall r | 0 < r < 10 ensures !MatchesAt(end, EOCD_MAGIC, r) {
      EarlyWindows(end, r);
    }
    SizeWindowsSpell(end);
    OffsetWindowsSpell(end);
    MatchFits(end);
    if r :| 0 < r <= 18 && MatchesAt(end, EOCD_MAGIC, r) {
      assert RFind(end, EOCD_MAGIC, 0) >= r;
    }
  }

  /**
   For every archive the classic records can hold: its end record is unambiguous exactly when these
   numbers spell no magic.
   */
  lemma UnambiguousExactlyWhen(codec: Codec, entries: seq<Entry>)
    requires Classic(codec, entries)
    ensures Unambiguous(codec, entries) <==>
            !RecordSpellsMagic(|entries|, |Centrals(codec, entries, 0)|, |Locals(codec, entries, 0)|)
  {
    hide RFind, EndRecord, U16At, U32At, RecordSpellsMagic, Locals, Centrals;
    var count, size, offset := |entries|, |Centrals(codec, entries, 0)|, |Locals(codec, entries, 0)|;
    var end := EndRecord(count, size, offset);
    EndRecordFields(count, size, offset);
    CountTwice(count, size, offset);
    assert MatchesAt(end, EOCD_MAGIC, 0);
    RecordWindows(end);
  }

  lemma CountTwice(count: nat, size: nat, offset: nat)
    ensures var r := EndRecord(count, size, offset); r[8] == r[10] && r[9] == r[11]
  {
    hide U16, U32, Zeros;
  }

  /**
   Below 16 MiB an archive is ambiguous exactly when it holds 0x4B50 entries and its directory
   size ends in 0x0605; `sign_v2` then refuses it.
   */
  lemma SmallArchivesAreUnambiguous(codec: Codec, entries: seq<Entry>)
    requires Classic(codec, entries) && |Written(codec, entries)| < 0x100_0000
    ensures Unambiguous(codec, entries) <==>
              !(|entries| == 0x4B50 && |Centrals(codec, entries, 0)| % 0x1_0000 == 0x0605)
    ensures forall sha, key ::
              Signed(sha, key, Written(codec, entries)) == Err(UnexpectedEndRecord) <==> !Unambiguous(codec, entries)
  {
    hide EndRecord, Locals, Centrals, EndsWithItsOnlyEndRecord, Unambiguous, Packable, Assembled, Cut;
    CentralsLength(codec, entries, 0);
    UnambiguousExactlyWhen(codec, entries);
    WrittenEndsWithItsEndRecord(codec, entries);
  }

  // ------------------------------------------------------- main results

  lemma WholeInside(data: bytes, at: nat, end: bytes)
    requires |end| >= 12 && at + EOCD_SIZE <= |data| && Holds(data, at, end)
    requires U16At(end, 8) == U16At(end, 10) && forall k :: 4 <= k < 8 ==> end[k] == 0
    ensures IsWhole(data, at)
  {
    hide U16At;
    ReadsInside(data, at, end, 8);
    ReadsInside(data, at, end, 10);
    SliceOfSlice(data, at, at + |end|, 4, 8);
    assert end[4..8] == [end[4], end[5], end[6], end[7]];
  }

  /** Reading back what was written: every entry, its own bytes, stored data aligned. */
  lemma WrittenReadsBack(zip: Unpacker, codec: Codec, entries: seq<Entry>)
    requires Unpacks(zip, codec) && Classic(codec, entries)
    ensures ReadZip(zip, Written(codec, entries)) == Some(Expected(codec, entries, 0))
    ensures Aligned(Expected(codec, entries, 0))
  {
    hide RFindBelow, RFind, EndRecord, Locals, Centrals, FindEndRecord, U16At, U32At, ReadDirectory, Expected, IsWhole;
    var locals, centrals := Locals(codec, entries, 0), Centrals(codec, entries, 0);
    var end := EndRecord(|entries|, |centrals|, |locals|);
    var file := Written(codec, entries);
    WrittenParts(codec, entries);
    EndRecordFields(|entries|, |centrals|, |locals|);
    WholeInside(file, |file| - EOCD_SIZE, end);
    ReadsInside(file, |file| - EOCD_SIZE, end, 10);
    ReadsInside(file, |file| - EOCD_SIZE, end, 12);
    ReadsInside(file, |file| - EOCD_SIZE, end, 16);
    ReadsInside(file, |file| - EOCD_SIZE, end, 20);
    WrittenRecordIsFound(codec, entries);
    DirectoryReads(zip, codec, entries, file, 0, |locals|);
    ExpectedIsAligned(codec, entries, 0);
  }

  /** The written record announces no comment, so a reader finds it whatever else it spells. */
  lemma WrittenRecordIsFound(codec: Codec, entries: seq<Entry>)
    requires Classic(codec, entries)
    ensures FindEndRecord(Written(codec, entries)) == Some(|Written(codec, entries)| - EOCD_SIZE)
    ensures CommentLength(Written(codec, entries)) == 0
  {
    hide EndRecord, Locals, Centrals, Written, U32At, FindEndRecord;
    var end := EndRecord(|entries|, |Centrals(codec, entries, 0)|, |Locals(codec, entries, 0)|);
    var file := Written(codec, entries);
    WrittenParts(codec, entries);
    EndRecordFields(|entries|, |Centrals(codec, entries, 0)|, |Locals(codec, entries, 0)|);
    ReadsInside(file, |file| - EOCD_SIZE, end, 20);
    assert file[|file| - EOCD_SIZE..|file| - EOCD_SIZE + 4] == end[..4];
    LastRecordIsFound(file);
  }

  lemma WrittenParts(codec: Codec, entries: seq<Entry>)
    ensures var locals, centrals := Locals(codec, entries, 0), Centrals(codec, entries, 0);
            var file := Written(codec, entries);
            && Holds(file, 0, locals) && Holds(file, |locals|, centrals)
            && Holds(file, |file| - EOCD_SIZE, EndRecord(|entries|, |centrals|, |locals|))
            && |file| == |locals| + |centrals| + EOCD_SIZE
  {
    hide EndRecord, Locals, Centrals;
  }

  lemma DirectorySizeIsWritten(codec: Codec, entries: seq<Entry>)
    requires Classic(codec, entries)
    ensures |Written(codec, entries)| >= EOCD_SIZE
    ensures DirectorySize(Written(codec, entries)) == |Centrals(codec, entries, 0)|
  {
    hide EndRecord, Locals, Centrals, Written, U32At;
    var end := EndRecord(|entries|, |Centrals(codec, entries, 0)|, |Locals(codec, entries, 0)|);
    var file := Written(codec, entries);
    WrittenParts(codec, entries);
    EndRecordFields(|entries|, |Centrals(codec, entries, 0)|, |Locals(codec, entries, 0)|);
    ReadsInside(file, |file| - EOCD_SIZE, end, 12);
  }

  /** `sign_v2` cuts the written file exactly where the writer joined it. */
  lemma WrittenIsCut(codec: Codec, entries: seq<Entry>)
    requires Classic(codec, entries)
    ensures Cut(Written(codec, entries)) ==
            Sections(Locals(codec, entries, 0), Centrals(codec, entries, 0),
                     EndRecord(|entries|, |Centrals(codec, entries, 0)|, |Locals(codec, entries, 0)|),
                     |Locals(codec, entries, 0)|)
  {
    hide EndRecord, Locals, Centrals, U32At, Written;
    var locals, centrals := Locals(codec, entries, 0), Centrals(codec, entries, 0);
    var file := Written(codec, entries);
    WrittenParts(codec, entries);
    assert |file| < U32_LIMIT && |entries| < U16_LIMIT;
    EndRecordFields(|entries|, |centrals|, |locals|);
    ReadsInside(file, |file| - EOCD_SIZE, EndRecord(|entries|, |centrals|, |locals|), 12);
    ReadsInside(file, |file| - EOCD_SIZE, EndRecord(|entries|, |centrals|, |locals|), 16);
  }

  lemma ClassicIsReadable(codec: Codec, entries: seq<Entry>)
    requires Classic(codec, entries)
    ensures Readable(codec, entries, 0)
  {
    hide EndRecord, Locals, Centrals, Written;
    WrittenParts(codec, entries);
  }

  lemma AssembledHolds(entries: bytes, block: bytes, central: bytes, end: bytes)
    ensures Holds(entries + block + central + end, 0, entries)
    ensures Holds(entries + block + central + end, |entries| + |block|, central)
  {
  }

  /** Behind a signing block the directory reads as before. */
  lemma MovedDirectoryReads(zip: Unpacker, codec: Codec, entries: seq<Entry>, block: bytes, end: bytes)
    requires Unpacks(zip, codec) && Classic(codec, entries)
    ensures var locals, centrals := Locals(codec, entries, 0), Centrals(codec, entries, 0);
            ReadDirectory(zip, locals + block + centrals + end, |locals| + |block|, |entries|) ==
            Some(Expected(codec, entries, 0))
  {
    hide *;
    ClassicIsReadable(codec, entries);
    var locals, centrals := Locals(codec, entries, 0), Centrals(codec, entries, 0);
    AssembledHolds(locals, block, centrals, end);
    DirectoryReads(zip, codec, entries, locals + block + centrals + end, 0, |locals| + |block|);
  }

  /** The end record of a signed file is found, and says where the directory went. */
  lemma SignedRecordReads(codec: Codec, entries: seq<Entry>, value: bytes)
    requires Classic(codec, entries) && EndsWithItsOnlyEndRecord(Written(codec, entries))
    requires |Locals(codec, entries, 0)| + |SigningBlock(value)| < U32_LIMIT
    ensures var locals, centrals := Locals(codec, entries, 0), Centrals(codec, entries, 0);
            var s, block := Cut(Written(codec, entries)), SigningBlock(value);
            var out, directory := Assembled(s, block), |locals| + |block|;
            && out == locals + block + centrals + NewEnd(s, block) && directory + |centrals| == |out| - EOCD_SIZE
            && FindEndRecord(out) == Some(|out| - EOCD_SIZE) && U16At(out, |out| - EOCD_SIZE + 10) == |entries|
            && U32At(out, |out| - EOCD_SIZE + 12) == |centrals| && U32At(out, |out| - EOCD_SIZE + 16) == directory
            && IsWhole(out, |out| - EOCD_SIZE)
  {
    hide RFindBelow, RFind, EndRecord, Locals, Centrals, FindEndRecord, U16At, U32At, U32, Cut, SigningBlock, Written;
    var apk, locals, centrals := Written(codec, entries), Locals(codec, entries, 0), Centrals(codec, entries, 0);
    var s, block := Cut(apk), SigningBlock(value);
    WrittenIsCut(codec, entries);
    WrittenParts(codec, entries);
    AssembledParts(apk, value);
    AssembledEnd(apk, block);
    WrittenRecordIsFound(codec, entries);
    DirectorySizeIsWritten(codec, entries);
    var out := Assembled(s, block);
    LastRecordIsFound(out);
    EndRecordFields(|entries|, |centrals|, |locals|);
    ReadsInside(out, |out| - EOCD_SIZE, NewEnd(s, block)[..16], 10);
    ReadsInside(s.end, 0, NewEnd(s, block)[..16], 8);
    ReadsInside(s.end, 0, NewEnd(s, block)[..16], 10);
    hide IsWhole;
    WholeInside(out, |out| - EOCD_SIZE, NewEnd(s, block)[..16]);
  }

  lemma RecordLeads(zip: Unpacker, data: bytes, eocd: nat, size: nat, directory: nat, count: nat)
    requires eocd + EOCD_SIZE <= |data| && FindEndRecord(data) == Some(eocd) && directory + size == eocd
    requires U16At(data, eocd + 10) == count && U32At(data, eocd + 12) == size && U32At(data, eocd + 16) == directory
    requires IsWhole(data, eocd)
    ensures ReadZip(zip, data) == ReadDirectory(zip, data, directory, count)
  {
    hide U16At, U32At, FindEndRecord, ReadDirectory, IsWhole;
  }

  /** What the signing block of a signed file holds. */
  lemma SignedValue(sha: Hash, key: SigningKey, apk: bytes) returns (value: bytes)
    requires Signed(sha, key, apk).Ok?
    ensures |apk| >= EOCD_SIZE && EndsWithItsOnlyEndRecord(apk)
    ensures Signed(sha, key, apk).value == Assembled(Cut(apk), SigningBlock(value))
    ensures Cut(apk).offset + |SigningBlock(value)| < U32_LIMIT
  {
    hide RFind, U32At, Cut, Assembled, SigningBlock, Signer, SignedData, ContentDigest;
    value := Lp(Lp(Signer(key, SignedData(key, ContentDigest(sha, Cut(apk))))));
  }

  /** Signing adds the block between the entries and the directory and moves no entry's data. */
  lemma SigningMovesNoData(sha: Hash, key: SigningKey, zip: Unpacker, codec: Codec, entries: seq<Entry>)
    requires Unpacks(zip, codec) && Classic(codec, entries) && Signed(sha, key, Written(codec, entries)).Ok?
    ensures ReadZip(zip, Signed(sha, key, Written(codec, entries)).value) == ReadZip(zip, Written(codec, entries))
  {
    hide *;
    var apk, locals, centrals := Written(codec, entries), Locals(codec, entries, 0), Centrals(codec, entries, 0);
    var value := SignedValue(sha, key, apk);
    var s, block := Cut(apk), SigningBlock(value);
    WrittenIsCut(codec, entries);
    SignedRecordReads(codec, entries, value);
    var out := Assembled(s, block);
    RecordLeads(zip, out, |out| - EOCD_SIZE, |centrals|, |locals| + |block|, |entries|);
    MovedDirectoryReads(zip, codec, entries, block, NewEnd(s, block));
    WrittenReadsBack(zip, codec, entries);
  }
}
