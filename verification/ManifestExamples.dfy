/** Two small manifests: one the rewrite edits, and one it never leaves. */
module ManifestExamples {
  import opened Wrappers
  import opened Bytes
  import opened Unicode
  import opened StringPools
  import opened StringPoolTheorems
  import opened Axml
  import opened ManifestRewrite
  import opened ManifestTheorems
  import opened ManifestLoop

  /** An outer header, the strings' pool, and chunks. */
  function Manifest(strings: seq<string>, chunks: bytes): bytes
    requires Encoded(strings, false).Ok?
  {
    U16(RES_XML) + U16(8) + U32(8 + |Encoded(strings, false).value| + |chunks|) + Encoded(strings, false).value + chunks
  }

  lemma {:induction false} Utf16IsShort(s: string)
    ensures |EncodeUtf16(s)| <= 4 * |s|
  {
    if s != "" {
      Utf16IsShort(s[1..]);
    }
  }

  lemma {:induction false} BlobsAreShort(strings: seq<string>)
    requires forall s :: s in strings ==> |s| <= 100
    ensures AllEncodable(strings, false)
    ensures |Blobs(strings, false)| <= 404 * |strings|
  {
    hide EncodeUtf16;
    forall s | s in strings ensures Encodable(s, false) {
      Utf16IsShort(s);
    }
    if strings != [] {
      BlobsAreShort(strings[..|strings| - 1]);
      UnitsAreHalf(strings[|strings| - 1]);
      Utf16IsShort(strings[|strings| - 1]);
    }
  }

  lemma ShortStringsEncode(strings: seq<string>)
    requires |strings| <= 100 && forall s :: s in strings ==> |s| <= 100
    ensures Encoded(strings, false).Ok? && |Encoded(strings, false).value| <= 0x1_0000
  {
    hide Encodable, Offsets, PoolHeader, Blobs;
    BlobsAreShort(strings);
  }

  lemma ManifestReads(strings: seq<string>, chunks: bytes)
    requires Encoded(strings, false).Ok?
    ensures var data, size := Manifest(strings, chunks), |Encoded(strings, false).value|;
            && |data| >= 8 && U16At(data, 0) == RES_XML && U16At(data, 2) == 8
            && StrictPool(data, 8) == Ok(Pool(strings, false, size))
            && U16At(data, 10) == HEADER_SIZE
            && 8 + size <= |data| && data[8 + size..] == chunks && Slice(data, 8 + size, |data|) == chunks
  {
    hide U16At, U32At, U16, U32, StrictPool, Encoded;
    var pool := Encoded(strings, false).value;
    var data, front := Manifest(strings, chunks), U16(RES_XML) + U16(8) + U32(8 + |pool| + |chunks|);
    StrictRoundTrip(front, strings, false, chunks);
    assert data == [] + U16(RES_XML) + (U16(8) + U32(8 + |pool| + |chunks|) + pool + chunks);
    U16Reads([], RES_XML, U16(8) + U32(8 + |pool| + |chunks|) + pool + chunks);
    assert data == U16(RES_XML) + U16(8) + (U32(8 + |pool| + |chunks|) + pool + chunks);
    U16Reads(U16(RES_XML), 8, U32(8 + |pool| + |chunks|) + pool + chunks);
    PoolHeaderSize(front, strings, chunks);
  }

  lemma PoolHeaderSize(front: bytes, strings: seq<string>, after: bytes)
    requires Encoded(strings, false).Ok? && |front| == 8
    ensures U16At(front + Encoded(strings, false).value + after, 10) == HEADER_SIZE
  {
    hide U16At, U16, U32, Blobs, Padded, Offsets;
    var pool := Encoded(strings, false).value;
    var rest := pool[4..];
    assert pool == U16(RES_STRING_POOL) + U16(HEADER_SIZE) + rest;
    assert front + pool + after == (front + U16(RES_STRING_POOL)) + U16(HEADER_SIZE) + (rest + after);
    U16Reads(front + U16(RES_STRING_POOL), HEADER_SIZE, rest + after);
  }

  // ------------------------------------------------------- a manifest that hangs

  /** A chunk of a kind the search skips, with size zero. */
  const ENDLESS: bytes := [0, 1, 16, 0, 0, 0, 0, 0]

  lemma EndlessIsStuck()
    ensures StuckAfter(ENDLESS, 0, [], 0)
  {
    assert U16At(ENDLESS, 0) == 0x100 && U32At(ENDLESS, 4) == 0;
  }

  /** The loop never leaves this manifest, whatever version it is to write. */
  lemma ManifestThatHangs(version: nat)
    ensures Encoded([], false).Ok?
    ensures Rewritten(Manifest([], ENDLESS), map[], version) == Err(Hangs)
    ensures RunsForever(ENDLESS, 0, [])
  {
    hide Encoded, U16At, StrictPool, NamesPackageElsewhere, Rewritten, RunsForever, Manifest, ReplaceAll, StuckAfter;
    ShortStringsEncode([]);
    ManifestReads([], ENDLESS);
    EndlessIsStuck();
    HangsExactlyWhen(ENDLESS, 0, [], []);
    assert ReplaceAll(map[], []) == [];
    assert !NamesPackageElsewhere([]) by {
      EmptyPoolIsPlain();
    }
    RewriteHangsExactlyWhen(Manifest([], ENDLESS), map[], version);
  }

  lemma EmptyPoolIsPlain()
    ensures !NamesPackageElsewhere([])
  {
  }

  // ------------------------------------------------------- a manifest that is rewritten

  const STRINGS: seq<string> := ["versionCode", "manifest", "package", TEMPLATE_PACKAGE]
  const RENAMED: seq<string> := ["versionCode", "manifest", "package", "org.example"]
  const RENAMING: Replacements := map[TEMPLATE_PACKAGE := "org.example"]

  const VERSION_ATTRIBUTE: bytes :=
    [0xFF, 0xFF, 0xFF, 0xFF, 0, 0, 0, 0, 0xFF, 0xFF, 0xFF, 0xFF, 8, 0, 0, 0x10, 1, 0, 0, 0]
  const PACKAGE_ATTRIBUTE: bytes :=
    [0xFF, 0xFF, 0xFF, 0xFF, 2, 0, 0, 0, 3, 0, 0, 0, 8, 0, 0, 3, 3, 0, 0, 0]
  const MAP_CHUNK: bytes := [0x80, 1, 8, 0, 12, 0, 0, 0, 0x1B, 2, 1, 1]
  const START_HEADER: bytes :=
    [2, 1, 16, 0, 76, 0, 0, 0, 1, 0, 0, 0, 0xFF, 0xFF, 0xFF, 0xFF,
     0xFF, 0xFF, 0xFF, 0xFF, 1, 0, 0, 0, 20, 0, 20, 0, 2, 0, 0, 0, 0, 0, 0, 0]
  const END_CHUNK: bytes :=
    [3, 1, 16, 0, 24, 0, 0, 0, 1, 0, 0, 0, 0xFF, 0xFF, 0xFF, 0xFF, 0xFF, 0xFF, 0xFF, 0xFF, 1, 0, 0, 0]

  /** The id of versionCode, the root with versionCode 1 and its package, and the root's end. */
  const CHUNKS: bytes := MAP_CHUNK + START_HEADER + VERSION_ATTRIBUTE + PACKAGE_ATTRIBUTE + END_CHUNK

  lemma MapReads()
    ensures |CHUNKS| == 112
    ensures U16At(CHUNKS, 0) == 0x180 && U16At(CHUNKS, 2) == 8 && U32At(CHUNKS, 4) == 12
    ensures ReadIds(CHUNKS, 0, 8, 12) == Ok([VERSION_CODE_ATTR])
  {
    assert U32At(CHUNKS, 8) == VERSION_CODE_ATTR;
    assert ReadIds(CHUNKS, 0, 8, 12).value == [VERSION_CODE_ATTR];
  }

  lemma ElementReads()
    ensures |CHUNKS| == 112
    ensures U16At(CHUNKS, 12) == 0x102 && U16At(CHUNKS, 14) == 16 && U32At(CHUNKS, 16) == 76
    ensures U32At(CHUNKS, 32) == 1 && U16At(CHUNKS, 36) == 20 && U16At(CHUNKS, 38) == 20 && U16At(CHUNKS, 40) == 2
    ensures U16At(CHUNKS, 88) == 0x103 && U16At(CHUNKS, 90) == 16 && U32At(CHUNKS, 92) == 24
  {
    hide U16At, U32At;
    assert Holds(CHUNKS, 12, START_HEADER) && Holds(CHUNKS, 88, END_CHUNK);
    forall at: nat | at + 4 <= 36
      ensures U16At(CHUNKS, 12 + at) == U16At(START_HEADER, at) && U32At(CHUNKS, 12 + at) == U32At(START_HEADER, at)
    {
      ReadsInside(CHUNKS, 12, START_HEADER, at);
    }
    ReadsInside(CHUNKS, 88, END_CHUNK, 0);
    ReadsInside(CHUNKS, 88, END_CHUNK, 2);
    ReadsInside(CHUNKS, 88, END_CHUNK, 4);
    HeadersRead();
  }

  lemma HeadersRead()
    ensures U16At(START_HEADER, 0) == 0x102 && U16At(START_HEADER, 2) == 16 && U32At(START_HEADER, 4) == 76
    ensures U32At(START_HEADER, 20) == 1 && U16At(START_HEADER, 24) == 20 && U16At(START_HEADER, 26) == 20
    ensures U16At(START_HEADER, 28) == 2
    ensures U16At(END_CHUNK, 0) == 0x103 && U16At(END_CHUNK, 2) == 16 && U32At(END_CHUNK, 4) == 24
  {
  }

  lemma AttributesRead()
    ensures |CHUNKS| == 112
    ensures U32At(CHUNKS, 48) == NO_INDEX && U32At(CHUNKS, 52) == 0 && Byte(CHUNKS, 63) == TYPE_INT_DEC
    ensures U32At(CHUNKS, 68) == NO_INDEX && U32At(CHUNKS, 72) == 2
  {
  }

  lemma ChunksAreOk()
    ensures ChunksOk(CHUNKS, 0, STRINGS, RENAMING)
  {
    MapReads();
    ElementReads();
    AttributesRead();
    hide U16At, U32At;
    assert ChunksOk(CHUNKS, 112, STRINGS, RENAMING);
    assert ChunksOk(CHUNKS, 88, STRINGS, RENAMING);
    assert AttributeNamesKept(CHUNKS, 48, STRINGS, RENAMING);
    assert AttributeNamesKept(CHUNKS, 68, STRINGS, RENAMING);
    assert NamesKept(CHUNKS, 28, 88, STRINGS, RENAMING);
    assert ChunksOk(CHUNKS, 12, STRINGS, RENAMING);
  }

  lemma VersionIsFound()
    ensures FindVersionCode(CHUNKS, 0, STRINGS, []) == Ok(64)
    ensures RootIsClear(CHUNKS, 0, STRINGS, [], 64)
  {
    MapReads();
    ElementReads();
    AttributesRead();
    hide U16At, U32At, ReadIds;
    var ids := [VERSION_CODE_ATTR];
    assert FindAttribute(CHUNKS, 48, 20, 0, 2, ids) == Ok(64);
    assert FindVersionCode(CHUNKS, 12, STRINGS, ids) == Ok(64);
    assert VersionKeyAt(CHUNKS, 48, STRINGS, ids, 64) && VersionKeyAt(CHUNKS, 68, STRINGS, ids, 64);
    assert VersionIsClear(CHUNKS, 48, 20, 2, STRINGS, ids, 64);
    assert RootIsClear(CHUNKS, 12, STRINGS, ids, 64);
  }

  lemma {:induction false} FewCharacters(strings: seq<string>)
    requires forall s :: s in strings ==> |s| <= 100
    ensures Characters(strings) <= 100 * |strings|
  {
    if strings != [] {
      FewCharacters(strings[..|strings| - 1]);
    }
  }

  lemma CountStep(s: string, strings: seq<string>)
    requires strings != []
    ensures Count(strings, s) == Count(strings[1..], s) + if strings[0] == s then 1 else 0
  {
  }

  lemma TemplateOnce()
    ensures Count(STRINGS, TEMPLATE_PACKAGE) == 1
  {
    hide Count;
    var s := TEMPLATE_PACKAGE;
    assert |s| == 35 && |STRINGS[0]| == 11 && |STRINGS[1]| == 8 && |STRINGS[2]| == 7;
    CountStep(s, STRINGS);
    CountStep(s, STRINGS[1..]);
    CountStep(s, STRINGS[2..]);
    CountStep(s, STRINGS[3..]);
    assert STRINGS[1..][1..] == STRINGS[2..] && STRINGS[2..][1..] == STRINGS[3..];
    NoneCounts(STRINGS[3..][1..], s);
  }

  lemma NoneCounts(strings: seq<string>, s: string)
    requires strings == []
    ensures Count(strings, s) == 0
  {
  }

  lemma StringsArePlain()
    ensures EachExactlyOnce(RENAMING, STRINGS) && !NamesPackageElsewhere(STRINGS) && PlainPlaceholders(RENAMING)
    ensures ReplaceAll(RENAMING, STRINGS) == RENAMED
    ensures Characters(STRINGS) <= MAX_POOL_CHARACTERS && Characters(RENAMED) <= MAX_POOL_CHARACTERS
  {
    FewCharacters(STRINGS);
    FewCharacters(RENAMED);
    TemplateOnce();
    assert |STRINGS[0]| == 11 && |STRINGS[1]| == 8 && |STRINGS[2]| == 7 && |TEMPLATE_PACKAGE| == 35;
  }

  /** There is a manifest that `RewritePreservesMeaning` speaks of: it is well formed and every version can be set. */
  lemma ManifestThatIsRewritten(version: nat)
    requires version < U32_LIMIT
    ensures Encoded(STRINGS, false).Ok?
    ensures WellFormedManifest(Manifest(STRINGS, CHUNKS), RENAMING)
    ensures Rewritten(Manifest(STRINGS, CHUNKS), RENAMING, version).Ok?
  {
    hide U16At, U32At, StrictPool, Encoded, Manifest, Slice, EachExactlyOnce, NamesPackageElsewhere, PlainPlaceholders,
         ReplaceAll, Characters, ChunksOk, RootIsClear, FindVersionCode, Reassembled;
    ShortStringsEncode(STRINGS);
    ShortStringsEncode(RENAMED);
    ManifestReads(STRINGS, CHUNKS);
    ChunksAreOk();
    VersionIsFound();
    StringsArePlain();
  }
}
