/**
 What the writer and the reader of the signing block guarantee together, and that a
 verifier following the public scheme accepts every file the builder signs.
 */
module ApkSigningTheorems {
  import opened Wrappers
  import opened Bytes
  import opened ApkSigning

  // ------------------------------------------------------- nested length prefixes

  lemma ItemsOfLp(item: bytes, rest: bytes)
    requires 0 < |item| < U32_LIMIT
    ensures Items(Lp(item) + rest) == [item] + Items(rest)
  {
    hide U32At, U32;
    var payload := Lp(item) + rest;
    assert payload == [] + U32(|item|) + (item + rest);
    U32Reads([], |item|, item + rest);
    assert payload[4..4 + |item|] == item && payload[4 + |item|..] == rest;
  }

  /** An empty item ends the list: what follows it is never seen. */
  lemma ItemsStopAtEmpty(rest: bytes)
    ensures Items(Lp([]) + rest) == []
  {
    hide U32At, U32;
    assert Lp([]) + rest == [] + U32(0) + rest;
    U32Reads([], 0, rest);
  }

  lemma ItemsOfOne(item: bytes)
    requires 0 < |item| < U32_LIMIT
    ensures Items(Lp(item)) == [item]
  {
    hide Lp;
    ItemsOfLp(item, []);
    assert Lp(item) + [] == Lp(item);
  }

  lemma SignedDataItems(key: SigningKey, digest: bytes)
    requires key.certificateDer != [] && |SignedData(key, digest)| < U32_LIMIT
    ensures Items(SignedData(key, digest)) == [Lp(U32(RSA_PKCS1_SHA256) + Lp(digest)), Lp(key.certificateDer)]
  {
    hide U32, Items;
    var digests, certificates := Lp(U32(RSA_PKCS1_SHA256) + Lp(digest)), Lp(key.certificateDer);
    assert SignedData(key, digest) == Lp(digests) + (Lp(certificates) + (Lp([]) + []));
    ItemsOfLp(digests, Lp(certificates) + (Lp([]) + []));
    ItemsOfLp(certificates, Lp([]) + []);
    ItemsStopAtEmpty([]);
  }

  lemma CertificateIsFound(key: SigningKey, digest: bytes)
    requires key.certificateDer != []
    requires |Lp(Signer(key, SignedData(key, digest)))| < U32_LIMIT
    ensures CertificateOf(Lp(Lp(Signer(key, SignedData(key, digest))))) == Some(key.certificateDer)
  {
    hide U32, Items, SignedData;
    var signedData := SignedData(key, digest);
    SignedDataLength(key, digest);
    var signer := Signer(key, signedData);
    var rest := Lp(Lp(U32(RSA_PKCS1_SHA256) + Lp(key.sign(signedData)))) + Lp(key.publicKeyDer);
    assert signer == Lp(signedData) + rest;
    ItemsOfOne(Lp(signer));
    ItemsOfOne(signer);
    ItemsOfLp(signedData, rest);
    SignedDataItems(key, digest);
    ItemsOfOne(key.certificateDer);
    assert Items(signer)[0] == signedData;
  }

  lemma SignedDataLength(key: SigningKey, digest: bytes)
    ensures |SignedData(key, digest)| == 28 + |digest| + |key.certificateDer|
  {
  }

  // ------------------------------------------------------- locating the block

  lemma RFindInSuffix(before: bytes, end: bytes, pattern: bytes, start: nat)
    requires start <= |before| && RFind(end, pattern, 0) >= 0
    ensures RFind(before + end, pattern, start) == |before| + RFind(end, pattern, 0)
  {
    hide RFindBelow;
    var whole := before + end;
    forall i: nat | i <= |end| ensures MatchesAt(whole, pattern, |before| + i) == MatchesAt(end, pattern, i) {
      if i + |pattern| <= |end| {
        assert whole[|before| + i..|before| + i + |pattern|] == end[i..i + |pattern|];
      }
    }
    var r := RFind(end, pattern, 0);
    assert MatchesAt(whole, pattern, |before| + r);
    forall i | i > |before| + r ensures !MatchesAt(whole, pattern, i) {
      if i <= |whole| {
        assert MatchesAt(whole, pattern, |before| + (i - |before|)) == MatchesAt(end, pattern, i - |before|);
      }
    }
  }

  /** The length of the comment that an end record at the very end of the file announces. */
  function CommentLength(apk: bytes): nat
    requires |apk| >= EOCD_SIZE
  {
    U16At(apk, |apk| - 2)
  }

  function DirectorySize(apk: bytes): nat
    requires |apk| >= EOCD_SIZE
  {
    U32At(apk, |apk| - EOCD_SIZE + 12)
  }

  /** The end record `sign_v2` writes: the old one with its directory offset moved. */
  function NewEnd(s: Sections, block: bytes): bytes
    requires |s.end| == EOCD_SIZE
  {
    Patched(s.end, 16, s.offset + |block|)
  }

  /** Does the moved offset make a second end-of-directory magic inside the record? */
  predicate SecondMagic(end: bytes) {
    RFind(end, EOCD_MAGIC, 0) != 0
  }

  lemma NewEndStartsWithMagic(apk: bytes, block: bytes)
    requires EndsWithItsOnlyEndRecord(apk)
    ensures RFind(NewEnd(Cut(apk), block), EOCD_MAGIC, 0) >= 0
    ensures var r := RFind(NewEnd(Cut(apk), block), EOCD_MAGIC, 0); r != 0 ==> r >= 13
  {
    hide RFindBelow, U32, U32At;
    var end := apk[|apk| - EOCD_SIZE..];
    var newEnd := NewEnd(Cut(apk), block);
    assert forall k :: 0 <= k < 16 ==> newEnd[k] == end[k] == apk[|apk| - EOCD_SIZE + k];
    assert MatchesAt(apk, EOCD_MAGIC, |apk| - EOCD_SIZE);
    assert newEnd[0..4] == apk[|apk| - EOCD_SIZE..|apk| - EOCD_SIZE + 4];
    assert MatchesAt(newEnd, EOCD_MAGIC, 0);
    forall r | 0 < r < 13 ensures !MatchesAt(newEnd, EOCD_MAGIC, r) {
      var at := |apk| - EOCD_SIZE + r;
      var new4, old4 := newEnd[r..r + 4], apk[at..at + 4];
      forall j | 0 <= j < 4 ensures new4[j] == old4[j] {
        assert newEnd[r + j] == apk[at + j];
      }
      assert !MatchesAt(apk, EOCD_MAGIC, at);
    }
  }

  /**
   The moved offset, with its neighbours in the record, spells the magic bytes 50 4B 05 06: the
   directory size ends in the first of them, or the comment length begins with the last.
   */
  predicate SpellsMagic(size: nat, offset: nat, comment: nat) {
    || (size / 0x100 == 0x05_4B50 && offset % 0x100 == 0x06)
    || (size / 0x1_0000 == 0x4B50 && offset % 0x1_0000 == 0x0605)
    || (size / 0x100_0000 == 0x50 && offset % 0x100_0000 == 0x06_054B)
    || offset == 0x0605_4B50
    || (offset / 0x100 == 0x05_4B50 && comment % 0x100 == 0x06)
    || (offset / 0x1_0000 == 0x4B50 && comment == 0x0605)
  }

  lemma FourBytes(b: bytes, at: nat)
    requires at + 4 <= |b|
    ensures var n := U32At(b, at);
            && n % 0x100 == b[at] && n / 0x100 == U16At(b, at + 1) + 0x1_0000 * Byte(b, at + 3)
            && n % 0x1_0000 == U16At(b, at) && n / 0x1_0000 == U16At(b, at + 2)
            && n % 0x100_0000 == U16At(b, at) + 0x1_0000 * Byte(b, at + 2) && n / 0x100_0000 == b[at + 3]
  {
    var n, high, middle: nat := U32At(b, at), U16At(b, at + 2), U16At(b, at + 1) + 0x1_0000 * Byte(b, at + 3);
    assert n == U16At(b, at) + 0x1_0000 * high;
    assert n == Byte(b, at) + 0x100 * middle;
    assert n == (U16At(b, at) + 0x1_0000 * Byte(b, at + 2)) + 0x100_0000 * Byte(b, at + 3);
  }

  /** What the windows a second magic can lie in spell: first those that begin in the directory size. */
  lemma SizeWindowsSpell(end: bytes)
    requires |end| == EOCD_SIZE
    ensures var size, offset := U32At(end, 12), U32At(end, 16);
            && (MatchesAt(end, EOCD_MAGIC, 13) <==> size / 0x100 == 0x05_4B50 && offset % 0x100 == 0x06)
            && (MatchesAt(end, EOCD_MAGIC, 14) <==> size / 0x1_0000 == 0x4B50 && offset % 0x1_0000 == 0x0605)
            && (MatchesAt(end, EOCD_MAGIC, 15) <==> size / 0x100_0000 == 0x50 && offset % 0x100_0000 == 0x06_054B)
  {
    FourBytes(end, 12);
    FourBytes(end, 16);
    WindowIs(end, 13);
    WindowIs(end, 14);
    WindowIs(end, 15);
    hide U32At, MatchesAt;
  }

  /** … then those that begin in the directory offset. */
  lemma OffsetWindowsSpell(end: bytes)
    requires |end| == EOCD_SIZE
    ensures var offset, comment := U32At(end, 16), U16At(end, 20);
            && (MatchesAt(end, EOCD_MAGIC, 16) <==> offset == 0x0605_4B50)
            && (MatchesAt(end, EOCD_MAGIC, 17) <==> offset / 0x100 == 0x05_4B50 && comment % 0x100 == 0x06)
            && (MatchesAt(end, EOCD_MAGIC, 18) <==> offset / 0x1_0000 == 0x4B50 && comment == 0x0605)
  {
    FourBytes(end, 16);
    WindowIs(end, 16);
    WindowIs(end, 17);
    WindowIs(end, 18);
    WordIsMagic(end, 16);
    hide U32At, MatchesAt;
  }

  lemma MagicWindows(end: bytes)
    requires |end| == EOCD_SIZE
    ensures (exists r :: 13 <= r <= 18 && MatchesAt(end, EOCD_MAGIC, r)) <==>
            SpellsMagic(U32At(end, 12), U32At(end, 16), U16At(end, 20))
  {
    hide U32At, U16At, MatchesAt;
    SizeWindowsSpell(end);
    OffsetWindowsSpell(end);
  }

  lemma WindowIs(end: bytes, r: nat)
    requires r + 4 <= |end|
    ensures MatchesAt(end, EOCD_MAGIC, r) <==>
              end[r] == 0x50 && end[r + 1] == 0x4B && end[r + 2] == 0x05 && end[r + 3] == 0x06
  {
    var window := end[r..r + 4];
    assert window[0] == end[r] && window[1] == end[r + 1] && window[2] == end[r + 2] && window[3] == end[r + 3];
  }

  lemma WordIsMagic(end: bytes, at: nat)
    requires at + 4 <= |end|
    ensures U32At(end, at) == 0x0605_4B50 <==>
              end[at] == 0x50 && end[at + 1] == 0x4B && end[at + 2] == 0x05 && end[at + 3] == 0x06
  {
  }

  /** A second magic is exactly what the directory's size, the moved offset and the comment length spell. */
  lemma SecondMagicIsSpelled(apk: bytes, block: bytes)
    requires EndsWithItsOnlyEndRecord(apk) && Cut(apk).offset + |block| < U32_LIMIT
    ensures SecondMagic(NewEnd(Cut(apk), block)) <==>
            SpellsMagic(DirectorySize(apk), Cut(apk).offset + |block|, CommentLength(apk))
  {
    hide RFindBelow, RFind, U32, U32At, U16At, Cut, SpellsMagic, MatchesAt;
    var s, at := Cut(apk), |apk| - EOCD_SIZE;
    var end := NewEnd(s, block);
    NewEndStartsWithMagic(apk, block);
    MagicWindows(end);
    assert end == s.end[..16] + U32(s.offset + |block|) + s.end[20..];
    U32Reads(s.end[..16], s.offset + |block|, s.end[20..]);
    assert Holds(end, 0, s.end[..16]) && Holds(end, 20, s.end[20..]);
    assert Holds(apk, at, s.end[..16]) && Holds(apk, at + 20, s.end[20..]);
    ReadsInside(end, 0, s.end[..16], 12);
    ReadsInside(apk, at, s.end[..16], 12);
    ReadsInside(end, 20, s.end[20..], 0);
    ReadsInside(apk, at + 20, s.end[20..], 0);
    MatchFits(end);
  }

  lemma MatchFits(end: bytes)
    ensures forall r :: MatchesAt(end, EOCD_MAGIC, r) ==> 0 <= r <= |end| - 4
  {
  }

  lemma EndRecordOfAssembled(apk: bytes, block: bytes)
    requires EndsWithItsOnlyEndRecord(apk)
    ensures var s := Cut(apk);
            EndRecordOffset(Assembled(s, block)) ==
              |s.entries| + |block| + |s.central| + RFind(NewEnd(s, block), EOCD_MAGIC, 0)
  {
    hide RFindBelow, U32, U32At, Cut;
    var s := Cut(apk);
    NewEndStartsWithMagic(apk, block);
    var before := s.entries + block + s.central;
    var whole := Assembled(s, block);
    assert whole == before + NewEnd(s, block);
    RFindInSuffix(before, NewEnd(s, block), EOCD_MAGIC,
                  if |whole| > EOCD_SIZE + 0xFFFF then |whole| - (EOCD_SIZE + 0xFFFF) else 0);
  }

  function Pair(value: bytes): bytes {
    U64(4 + |value|) + U32(V2_ID) + value
  }

  lemma BlockShape(value: bytes)
    requires |value| < U64_LIMIT - 44
    ensures var block := SigningBlock(value);
            && block[|block| - 16..] == BLOCK_MAGIC
            && U64At(block, |block| - 24) == |block| - 8
            && U64At(block, 0) == |block| - 8
            && block[8..|block| - 24] == Pair(value)
  {
    hide U64At, U64, U32;
    var block, size := SigningBlock(value), U64(36 + |value|);
    assert block == size + Pair(value) + size + BLOCK_MAGIC;
    U64Reads(size + Pair(value), 36 + |value|, BLOCK_MAGIC);
    assert block == [] + size + (Pair(value) + size + BLOCK_MAGIC);
    U64Reads([], 36 + |value|, Pair(value) + size + BLOCK_MAGIC);
    assert |Pair(value)| == 12 + |value| && |block| == 44 + |value|;
  }

  lemma PairsOfPair(value: bytes)
    requires |value| < U64_LIMIT - 4
    ensures Pairs(Pair(value)) == map[V2_ID := value]
  {
    hide U64At, U64, U32, U32At;
    var body := Pair(value);
    assert body == [] + U64(4 + |value|) + (U32(V2_ID) + value);
    U64Reads([], 4 + |value|, U32(V2_ID) + value);
    U32Reads(U64(4 + |value|), V2_ID, value);
    assert body[12..12 + |value|] == value && body[12 + |value|..] == [];
    assert Pairs([]) == map[];
    assert map[V2_ID := value] + map[] == map[V2_ID := value];
  }

  /** Where the four parts of a signed file lie, and what its end record says. */
  lemma AssembledParts(apk: bytes, value: bytes)
    requires EndsWithItsOnlyEndRecord(apk)
    requires Cut(apk).offset <= |apk| && Cut(apk).offset + |SigningBlock(value)| < U32_LIMIT
    ensures var s, block := Cut(apk), SigningBlock(value);
            var out, directory := Assembled(s, block), s.offset + |block|;
            && |out| == directory + |s.central| + EOCD_SIZE
            && out[..s.offset] == s.entries
            && out[s.offset..directory] == block
            && out[directory..|out| - EOCD_SIZE] == s.central
            && out[|out| - EOCD_SIZE..] == NewEnd(s, block)
            && U32At(out, |out| - EOCD_SIZE + 16) == directory
  {
    hide RFindBelow, RFind, U32, U32At, Cut, SigningBlock;
    var s, block := Cut(apk), SigningBlock(value);
    var out, directory := Assembled(s, block), s.offset + |block|;
    assert out == s.entries + block + s.central + NewEnd(s, block);
    assert out == (s.entries + block + s.central + s.end[..16]) + U32(directory) + s.end[20..];
    U32Reads(s.entries + block + s.central + s.end[..16], directory, s.end[20..]);
  }

  lemma BlockBodyOfAssembled(apk: bytes, value: bytes)
    requires EndsWithItsOnlyEndRecord(apk)
    requires Cut(apk).offset <= |apk| && Cut(apk).offset + |SigningBlock(value)| < U32_LIMIT
    ensures var s, block := Cut(apk), SigningBlock(value);
            BlockBody(Assembled(s, block)) ==
              if SecondMagic(NewEnd(s, block)) then Err(ShortRead) else Ok(Some(Pair(value)))
  {
    hide RFindBelow, RFind, U32, U32At, U64At, Cut, SigningBlock, Assembled, EndRecordOffset;
    var s, block := Cut(apk), SigningBlock(value);
    var out, directory := Assembled(s, block), s.offset + |block|;
    assert |block| == 44 + |value|;
    AssembledParts(apk, value);
    EndRecordOfAssembled(apk, block);
    NewEndStartsWithMagic(apk, block);
    if !SecondMagic(NewEnd(s, block)) {
      BlockShape(value);
      SliceOfSlice(out, s.offset, directory, |block| - 16, |block|);
      assert out[s.offset..directory][|block| - 16..|block|] == out[s.offset..directory][|block| - 16..];
      SliceReads(out, s.offset, directory, |block| - 24);
      SliceOfSlice(out, s.offset, directory, 8, |block| - 24);
    }
  }

  /** The end record spells the block's magic up to this position. */
  predicate SpellsBlockMagic(end: bytes, to: nat) {
    16 <= to <= |end| && end[to - 16..to] == BLOCK_MAGIC
  }

  /** After a block and an end record's first bytes, only the rest of the record can spell the block's magic again. */
  lemma MagicPastTheBlock(front: bytes, end: bytes, to: nat)
    requires |front| >= 24 && front[|front| - 16..] == BLOCK_MAGIC
    requires |end| == EOCD_SIZE && end[..4] == EOCD_MAGIC && to >= 1
    ensures Slice(front + end, |front| + to - 16, |front| + to) == BLOCK_MAGIC <==> SpellsBlockMagic(end, to)
    ensures SpellsBlockMagic(end, to) ==> to >= 20
  {
    var window := Slice(front + end, |front| + to - 16, |front| + to);
    if to < 16 {
      assert window[0] == front[|front| - 16..][to] == BLOCK_MAGIC[to];
    } else if to <= |end| {
      assert window == end[to - 16..to];
      assert to < 20 ==> window[0] == end[..4][to - 16] == EOCD_MAGIC[to - 16];
    }
  }

  /** The block size read in front of it is then far too large: the record's own magic is part of it. */
  lemma SizePastTheBlock(front: bytes, end: bytes, to: nat)
    requires |front| >= 24 && |end| == EOCD_SIZE && end[..4] == EOCD_MAGIC && 20 <= to <= 22
    ensures |front| + to - 16 <= |front + end| && U64At(front + end, |front| + to - 24) >= U32_LIMIT
  {
    var data, at := front + end, |front| + to - 20;
    var k := |front| + 3 - at;
    assert data[|front| + 3] == end[..4][3] == 0x06;
    assert 1 <= k <= 3 && data[at + k] == 0x06;
    assert U32At(data, at) >= 1 by { HighWordCounts(data, at, k); }
    hide U32At;
  }

  lemma HighWordCounts(data: bytes, at: nat, k: nat)
    requires at + 4 <= |data| && k < 4 && data[at + k] > 0
    ensures U32At(data, at) >= 1
  {
  }

  /** What the reader finds when the directory offset lay beyond the file: no block, or nonsense. */
  lemma BlockBodyBeyond(apk: bytes, value: bytes)
    requires EndsWithItsOnlyEndRecord(apk)
    requires Cut(apk).offset > |apk| && Cut(apk).offset + |SigningBlock(value)| < U32_LIMIT
    ensures var s, block := Cut(apk), SigningBlock(value);
            BlockBody(Assembled(s, block)) ==
              if SecondMagic(NewEnd(s, block)) then Err(ShortRead)
              else if SpellsBlockMagic(NewEnd(s, block), s.offset - |apk|) then Err(BlockOutOfRange)
              else Ok(None)
  {
    hide RFindBelow, RFind, U32, U32At, U64At, SigningBlock, EndRecordOffset, SpellsBlockMagic, Cut, Assembled, NewEnd;
    var s, block := Cut(apk), SigningBlock(value);
    var out, end, front := Assembled(s, block), NewEnd(s, block), apk + block;
    BeyondParts(apk, value);
    EndRecordOfAssembled(apk, block);
    NewEndStartsWithMagic(apk, block);
    if !SecondMagic(end) {
      var past := s.offset - |apk|;
      MagicPastTheBlock(front, end, past);
      if SpellsBlockMagic(end, past) {
        assert past <= 22 by { MagicEndsInside(end, past); }
        SizePastTheBlock(front, end, past);
      }
    }
  }

  lemma MagicEndsInside(end: bytes, to: nat)
    requires SpellsBlockMagic(end, to)
    ensures to <= |end|
  {
  }

  lemma BeyondParts(apk: bytes, value: bytes)
    requires EndsWithItsOnlyEndRecord(apk)
    requires Cut(apk).offset > |apk| && Cut(apk).offset + |SigningBlock(value)| < U32_LIMIT
    ensures var s, block := Cut(apk), SigningBlock(value);
            var out, end, front := Assembled(s, block), NewEnd(s, block), apk + block;
            && |s.entries| == |apk| && s.central == [] && |end| == EOCD_SIZE && out == front + end
            && |front| >= 44 && front[|front| - 16..] == BLOCK_MAGIC && end[..4] == EOCD_MAGIC
            && U32At(out, |front| + 16) == s.offset + |block|
  {
    hide RFindBelow, RFind, U32, U32At, U64At, SigningBlock;
    var s, block := Cut(apk), SigningBlock(value);
    var out, end, front := Assembled(s, block), NewEnd(s, block), apk + block;
    assert s.entries == apk && s.central == [] && out == front + end;
    hide Cut, Assembled;
    AssembledEnd(apk, block);
    BlockShape(value);
    assert front[|front| - 16..] == block[|block| - 16..];
    assert end[..4] == out[|front|..|front| + 4];
  }

  lemma SliceOfSlice(data: bytes, lo: nat, hi: nat, from: nat, to: nat)
    requires lo <= hi <= |data| && from <= to <= hi - lo
    ensures data[lo..hi][from..to] == data[lo + from..lo + to]
  {
    var whole, a, b := data[lo..hi], data[lo..hi][from..to], data[lo + from..lo + to];
    assert |a| == |b|;
    forall i | 0 <= i < |a| ensures a[i] == b[i] {
      assert a[i] == whole[from + i] == data[lo + from + i];
    }
  }

  lemma SliceReads(data: bytes, lo: nat, hi: nat, at: nat)
    requires lo + at + 8 <= hi <= |data|
    ensures U64At(data, lo + at) == U64At(data[lo..hi], at)
  {
  }

  // ------------------------------------------------------- main results: the reader

  /** What is left when a file has no signing block. */
  function FromV1(sha: Hash, v1: Option<bytes>): Option<Signature> {
    if v1.None? || v1.value == [] then None else Some(Signature(sha(v1.value), V1))
  }

  /**
   Every file `sign_v2` accepts is read back in one of four ways. The reader fails when the
   directory size, the moved offset and the comment length spell a second end-record magic. Else,
   when the directory offset lay in the file, it gives exactly the certificate's digest, as scheme
   v2. When the offset lay beyond the file, it finds no block, or fails where the new end record
   spells the block's magic.
   */
  lemma SignedCertificateIsRead(sha: Hash, key: SigningKey, apk: bytes, v1: Option<bytes>)
    requires key.certificateDer != [] && Signed(sha, key, apk).Ok?
    ensures var s, block := Cut(apk), BlockFor(sha, key, Cut(apk));
            var read := ReadSignature(sha, Signed(sha, key, apk).value, v1);
            if SpellsMagic(DirectorySize(apk), s.offset + |block|, CommentLength(apk)) then read == Err(ShortRead)
            else if s.offset <= |apk| then read == Ok(Some(Signature(sha(key.certificateDer), V2)))
            else if SpellsBlockMagic(NewEnd(s, block), s.offset - |apk|) then read == Err(BlockOutOfRange)
            else read == Ok(FromV1(sha, v1))
  {
    hide RFindBelow, RFind, U32, Cut, SigningBlock, Assembled, BlockBody, Signer, SignedData, ContentDigest, Items,
         Pairs, SpellsMagic, SecondMagic, SpellsBlockMagic;
    var s := Cut(apk);
    SecondMagicIsSpelled(apk, BlockFor(sha, key, s));
    var digest := ContentDigest(sha, s);
    var value := Lp(Lp(Signer(key, SignedData(key, digest))));
    if s.offset <= |apk| {
      BlockBodyOfAssembled(apk, value);
      PairsOfPair(value);
      CertificateIsFound(key, digest);
    } else {
      BlockBodyBeyond(apk, value);
    }
  }

  /** For every zip whose sections fill it, that cannot happen below 0x054B5000 bytes, some 84 MiB. */
  lemma SmallFilesAreUnambiguous(apk: bytes, block: bytes)
    requires EndsWithItsOnlyEndRecord(apk)
    requires Cut(apk).offset + DirectorySize(apk) == |apk| - EOCD_SIZE
    requires |apk| + |block| < 0x054B_5000
    ensures !SpellsMagic(DirectorySize(apk), Cut(apk).offset + |block|, CommentLength(apk))
  {
    hide Cut, CommentLength;
  }

  // ------------------------------------------------------- the public verifier

  /** One length-prefixed field at the front of `data`, empty ones included. */
  function TakeField(data: bytes): Option<(bytes, bytes)> {
    if |data| < 4 || 4 + U32At(data, 0) > |data| then None
    else Some((data[4..4 + U32At(data, 0)], data[4 + U32At(data, 0)..]))
  }

  /** A sequence of fields that fills `data` exactly. */
  function Fields(data: bytes): Option<seq<bytes>>
    decreases |data|
  {
    if data == [] then Some([])
    else
      var head := TakeField(data);
      if head.None? then None
      else
        var tail := Fields(head.value.1);
        if tail.None? then None else Some([head.value.0] + tail.value)
  }

  /** Chunk `k` of a section, as the scheme defines it: 1 MiB, the last one shorter. */
  function ChunkAt(section: bytes, k: nat): bytes
    requires k * 0x10_0000 < |section|
  {
    section[k * 0x10_0000..if (k + 1) * 0x10_0000 < |section| then (k + 1) * 0x10_0000 else |section|]
  }

  function ChunkCount(section: bytes): nat {
    (|section| + 0x10_0000 - 1) / 0x10_0000
  }

  function ChunksOf(section: bytes): seq<bytes> {
    seq(ChunkCount(section), k requires 0 <= k < ChunkCount(section) => ChunkAt(section, k))
  }

  /** An (algorithm, bytes) entry of the digest and signature lists. */
  function AlgorithmEntry(field: bytes): Option<(nat, bytes)> {
    if |field| < 4 then None
    else
      var value := Fields(field[4..]);
      if value.None? || |value.value| != 1 then None else Some((U32At(field, 0), value.value[0]))
  }

  datatype Rsa = Rsa(publicKeyOf: bytes -> bytes, verify: (bytes, bytes, bytes) -> bool)

  /** Does this signer vouch for `digest`? */
  predicate SignerAccepts(rsa: Rsa, digest: bytes, signer: bytes) {
    var parts := Fields(signer);
    parts.Some? && |parts.value| == 3 &&
    var signatures, signedData := Fields(parts.value[1]), Fields(parts.value[0]);
    signatures.Some? && |signatures.value| == 1 && signedData.Some? && |signedData.value| == 3 &&
    var signature := AlgorithmEntry(signatures.value[0]);
    var digests, certificates := Fields(signedData.value[0]), Fields(signedData.value[1]);
    signature.Some? && digests.Some? && |digests.value| == 1 && certificates.Some? && certificates.value != [] &&
    signature.value.0 == 0x0103 && AlgorithmEntry(digests.value[0]) == Some((0x0103, digest)) &&
    rsa.publicKeyOf(certificates.value[0]) == parts.value[2] &&
    rsa.verify(parts.value[2], parts.value[0], signature.value.1)
  }

  /** The sections the scheme protects: the end record counts with the block's start as its offset. */
  function ProtectedSections(data: bytes, eocd: nat, blockStart: nat, directory: nat): seq<bytes>
    requires blockStart <= directory <= eocd && eocd + EOCD_SIZE <= |data|
  {
    [data[..blockStart], data[directory..eocd], data[eocd..eocd + 16] + U32(blockStart) + data[eocd + 20..]]
  }

  /** Each chunk is digested after 0xA5 and its length. */
  function ChunkDigests(sha: Hash, chunks: seq<bytes>): bytes {
    if chunks == [] then []
    else
      var last := |chunks| - 1;
      ChunkDigests(sha, chunks[..last]) + sha([0xA5] + U32(|chunks[last]|) + chunks[last])
  }

  /** The digest of all chunk digests after 0x5A and their number. */
  function ProtectedDigest(sha: Hash, sections: seq<bytes>): bytes
    requires |sections| == 3
  {
    var chunks := ChunksOf(sections[0]) + ChunksOf(sections[1]) + ChunksOf(sections[2]);
    sha([0x5A] + U32(|chunks|) + ChunkDigests(sha, chunks))
  }

  /** "APK Sig Block 42" */
  const SCHEME_MAGIC: bytes := [65, 80, 75, 32, 83, 105, 103, 32, 66, 108, 111, 99, 107, 32, 52, 50]

  /** "Integrity-protected contents" and "Verification" of the public scheme, for one signer. */
  predicate VerifiesAt(sha: Hash, rsa: Rsa, data: bytes, eocd: nat)
    requires eocd + EOCD_SIZE <= |data|
  {
    var directory := U32At(data, eocd + 16);
    32 <= directory && directory + U32At(data, eocd + 12) == eocd && data[directory - 16..directory] == SCHEME_MAGIC &&
    var size := U64At(data, directory - 24);
    var blockStart := directory - size - 8;
    24 <= size && blockStart >= 0 && U64At(data, blockStart) == size &&
    var pairs := Pairs(data[blockStart + 8..directory - 24]);
    0x7109_871A in pairs &&
    var signers := Fields(pairs[0x7109_871A]);
    signers.Some? && |signers.value| == 1 &&
    var signer := Fields(signers.value[0]);
    signer.Some? && |signer.value| == 1 &&
    SignerAccepts(rsa, ProtectedDigest(sha, ProtectedSections(data, eocd, blockStart, directory)), signer.value[0])
  }

  /** The verifier works from the end record whose comment reaches the end of the file. */
  predicate VerifiesV2(sha: Hash, rsa: Rsa, data: bytes) {
    var eocd := FindEndRecord(data);
    eocd.Some? && VerifiesAt(sha, rsa, data, eocd.value)
  }

  lemma PieceIsChunk(section: bytes, k: nat)
    requires k < ChunkCount(section)
    ensures k * CHUNK < |section|
    ensures Slice(section, k * CHUNK, k * CHUNK + CHUNK) == ChunkAt(section, k)
    ensures ChunksOf(section)[k..] == [ChunkAt(section, k)] + ChunksOf(section)[k + 1..]
  {
  }

  /** The builder's loop cuts exactly the scheme's chunks. */
  lemma {:induction false} PiecesAreChunks(section: bytes, k: nat)
    requires k <= ChunkCount(section)
    ensures Pieces(section, k * CHUNK) == ChunksOf(section)[k..]
    decreases ChunkCount(section) - k
  {
    hide ChunkAt, Slice;
    if k < ChunkCount(section) {
      PieceIsChunk(section, k);
      PiecesAreChunks(section, k + 1);
    }
  }

  /** The chunks are at most 1 MiB, only the last is shorter, and together they are the section. */
  lemma {:induction false} ChunksCoverTheSection(section: bytes, k: nat)
    requires k <= ChunkCount(section)
    ensures forall i :: k <= i < ChunkCount(section) - 1 ==> |ChunksOf(section)[i]| == CHUNK
    ensures forall i :: k <= i < ChunkCount(section) ==> 0 < |ChunksOf(section)[i]| <= CHUNK
    ensures Flatten(ChunksOf(section)[k..]) == Slice(section, k * CHUNK, |section|)
    decreases ChunkCount(section) - k
  {
    hide ChunkAt, Slice;
    if k < ChunkCount(section) {
      PieceIsChunk(section, k);
      ChunkContinues(section, k);
      ChunksCoverTheSection(section, k + 1);
      assert ChunksOf(section)[k] == ChunkAt(section, k);
      assert ChunksOf(section)[k..][1..] == ChunksOf(section)[k + 1..];
    } else {
      NothingLeft(section, k);
    }
  }

  lemma ChunkContinues(section: bytes, k: nat)
    requires k < ChunkCount(section) && k * CHUNK < |section|
    ensures 0 < |ChunkAt(section, k)| <= CHUNK
    ensures k < ChunkCount(section) - 1 ==> |ChunkAt(section, k)| == CHUNK
    ensures ChunkAt(section, k) + Slice(section, (k + 1) * CHUNK, |section|) == Slice(section, k * CHUNK, |section|)
  {
  }

  lemma NothingLeft(section: bytes, k: nat)
    requires k == ChunkCount(section)
    ensures Slice(section, k * CHUNK, |section|) == []
    ensures Flatten(ChunksOf(section)[k..]) == []
  {
  }

  lemma PiecesOfThree(a: bytes, b: bytes, c: bytes)
    ensures AllPieces([a, b, c]) == Pieces(a, 0) + Pieces(b, 0) + Pieces(c, 0)
  {
    hide Pieces;
    AllPiecesSnoc([a, b], c);
    AllPiecesSnoc([a], b);
    AllPiecesSnoc([], a);
    assert [] + [a] == [a] && [a] + [b] == [a, b] && [a, b] + [c] == [a, b, c];
  }

  lemma DigestsAgree(sha: Hash, s: Sections)
    ensures ContentDigest(sha, s) == ProtectedDigest(sha, [s.entries, s.central, s.end])
  {
    hide Pieces, AllPieces, ChunksOf, PieceDigests, ChunkDigests;
    PiecesAreChunks(s.entries, 0);
    PiecesAreChunks(s.central, 0);
    PiecesAreChunks(s.end, 0);
    PiecesOfThree(s.entries, s.central, s.end);
    DigestsOfChunks(sha, ChunksOf(s.entries) + ChunksOf(s.central) + ChunksOf(s.end));
  }

  lemma {:induction false} DigestsOfChunks(sha: Hash, chunks: seq<bytes>)
    ensures PieceDigests(sha, chunks) == ChunkDigests(sha, chunks)
    decreases |chunks|
  {
    if chunks != [] {
      var before, last := chunks[..|chunks| - 1], chunks[|chunks| - 1];
      assert chunks == before + [last];
      DigestsOfChunks(sha, before);
      PieceDigestsSnoc(sha, before, last);
    }
  }

  lemma FieldsOfLp(item: bytes, rest: bytes)
    requires |item| < U32_LIMIT
    ensures Fields(Lp(item) + rest) == var tail := Fields(rest); if tail.None? then None else Some([item] + tail.value)
  {
    hide U32At, U32;
    var data := Lp(item) + rest;
    assert data == [] + U32(|item|) + (item + rest);
    U32Reads([], |item|, item + rest);
    assert data[4..4 + |item|] == item && data[4 + |item|..] == rest;
  }

  lemma FieldsOfOne(item: bytes)
    requires |item| < U32_LIMIT
    ensures Fields(Lp(item)) == Some([item])
  {
    hide Lp;
    FieldsOfLp(item, []);
    assert Lp(item) + [] == Lp(item) && Fields([]) == Some([]) && [item] + [] == [item];
  }

  lemma FieldsOfThree(a: bytes, b: bytes, c: bytes)
    requires |a| < U32_LIMIT && |b| < U32_LIMIT && |c| < U32_LIMIT
    ensures Fields(Lp(a) + Lp(b) + Lp(c)) == Some([a, b, c])
  {
    hide Lp;
    hide Fields;
    FieldsOfOne(c);
    FieldsOfLp(b, Lp(c));
    assert [b] + [c] == [b, c] && [a] + [b, c] == [a, b, c];
    FieldsOfLp(a, Lp(b) + Lp(c));
    assert Lp(a) + Lp(b) + Lp(c) == Lp(a) + (Lp(b) + Lp(c));
  }

  lemma AlgorithmEntryReads(value: bytes)
    requires |value| < U32_LIMIT
    ensures AlgorithmEntry(U32(RSA_PKCS1_SHA256) + Lp(value)) == Some((RSA_PKCS1_SHA256, value))
  {
    hide U32At, U32;
    var field := U32(RSA_PKCS1_SHA256) + Lp(value);
    assert field == [] + U32(RSA_PKCS1_SHA256) + Lp(value);
    U32Reads([], RSA_PKCS1_SHA256, Lp(value));
    assert field[4..] == Lp(value);
    FieldsOfOne(value);
  }

  /** The key pair works, and the certificate is about that key. */
  ghost predicate Genuine(rsa: Rsa, key: SigningKey) {
    && rsa.publicKeyOf(key.certificateDer) == key.publicKeyDer
    && forall m: bytes :: rsa.verify(key.publicKeyDer, m, key.sign(m))
  }

  lemma BuiltSignerIsAccepted(rsa: Rsa, key: SigningKey, digest: bytes)
    requires Genuine(rsa, key)
    requires |Lp(Signer(key, SignedData(key, digest)))| < U32_LIMIT
    ensures SignerAccepts(rsa, digest, Signer(key, SignedData(key, digest)))
  {
    hide U32, U32At, AlgorithmEntry, Fields, Lp;
    var signedData := SignedData(key, digest);
    SignedDataLength(key, digest);
    var signatures := Lp(U32(RSA_PKCS1_SHA256) + Lp(key.sign(signedData)));
    var digests, certificates := Lp(U32(RSA_PKCS1_SHA256) + Lp(digest)), Lp(key.certificateDer);
    FieldsOfThree(signedData, signatures, key.publicKeyDer);
    FieldsOfThree(digests, certificates, []);
    FieldsOfOne(U32(RSA_PKCS1_SHA256) + Lp(key.sign(signedData)));
    FieldsOfOne(U32(RSA_PKCS1_SHA256) + Lp(digest));
    FieldsOfOne(key.certificateDer);
    AlgorithmEntryReads(key.sign(signedData));
    AlgorithmEntryReads(digest);
  }

  /** The verifier cuts the signed file back into exactly the sections that were digested. */
  lemma SectionsAreRecovered(apk: bytes, value: bytes)
    requires EndsWithItsOnlyEndRecord(apk)
    requires Cut(apk).offset <= |apk| && Cut(apk).offset + |SigningBlock(value)| < U32_LIMIT
    ensures var s, block := Cut(apk), SigningBlock(value);
            var out, directory := Assembled(s, block), s.offset + |block|;
            ProtectedSections(out, |out| - EOCD_SIZE, s.offset, directory) == [s.entries, s.central, s.end]
  {
    hide RFindBelow, RFind, SigningBlock, Assembled;
    var s, block := Cut(apk), SigningBlock(value);
    var out, directory := Assembled(s, block), s.offset + |block|;
    AssembledParts(apk, value);
    U32Writes(apk, |apk| - EOCD_SIZE + 16);
    assert s.end[16..20] == U32(s.offset);
    var end := NewEnd(s, block);
    assert end[..16] + U32(s.offset) + end[20..] == s.end;
    SliceOfSlice(out, |out| - EOCD_SIZE, |out|, 0, 16);
    SliceOfSlice(out, |out| - EOCD_SIZE, |out|, 20, EOCD_SIZE);
    assert out[|out| - EOCD_SIZE..|out|] == end && end[0..16] == end[..16] && end[20..EOCD_SIZE] == end[20..];
  }

  /** The written end record says what the old one said, but for the moved offset. */
  lemma AssembledEnd(apk: bytes, block: bytes)
    requires EndsWithItsOnlyEndRecord(apk) && Cut(apk).offset + |block| < U32_LIMIT
    ensures var s := Cut(apk);
            var out := Assembled(s, block);
            var eocd := |s.entries| + |block| + |s.central|;
            && |out| == eocd + EOCD_SIZE && out[eocd..eocd + 4] == EOCD_MAGIC
            && U16At(out, eocd + 20) == CommentLength(apk)
            && U32At(out, eocd + 12) == DirectorySize(apk)
            && U32At(out, eocd + 16) == s.offset + |block|
  {
    hide RFindBelow, RFind, U32, U32At, U16At, Cut;
    var s := Cut(apk);
    var out, at := Assembled(s, block), |apk| - EOCD_SIZE;
    var before := s.entries + block + s.central;
    assert out == (before + s.end[..16]) + U32(s.offset + |block|) + s.end[20..];
    U32Reads(before + s.end[..16], s.offset + |block|, s.end[20..]);
    assert MatchesAt(apk, EOCD_MAGIC, at);
    assert s.end[..4] == apk[at..at + 4];
    assert Holds(out, |before|, s.end[..16]) && Holds(out, |before| + 20, s.end[20..]);
    assert out[|before|..|before| + 4] == s.end[..4];
    ReadsInside(out, |before|, s.end[..16], 12);
    ReadsInside(out, |before| + 20, s.end[20..], 0);
    assert Holds(apk, at, s.end[..16]) && Holds(apk, at + 20, s.end[20..]);
    ReadsInside(apk, at, s.end[..16], 12);
    ReadsInside(apk, at + 20, s.end[20..], 0);
  }

  /** A record at the very end of a file is the one found exactly when it announces no comment. */
  lemma LastRecordIsFound(data: bytes)
    requires |data| >= EOCD_SIZE && data[|data| - EOCD_SIZE..|data| - EOCD_SIZE + 4] == EOCD_MAGIC
    ensures FindEndRecord(data) == Some(|data| - EOCD_SIZE) <==> U16At(data, |data| - 2) == 0
  {
    hide U16At;
  }

  lemma SignedBlockIsAccepted(sha: Hash, rsa: Rsa, key: SigningKey, apk: bytes)
    requires Genuine(rsa, key) && Signed(sha, key, apk).Ok?
    requires Cut(apk).offset + DirectorySize(apk) <= |apk|
    ensures var out := Signed(sha, key, apk).value;
            |out| >= EOCD_SIZE && VerifiesAt(sha, rsa, out, |out| - EOCD_SIZE)
  {
    hide RFindBelow, RFind, U32, U32At, U64At, Cut, SigningBlock, Assembled, EndRecordOffset, Signer, SignedData,
         ContentDigest, ProtectedDigest, ProtectedSections, Fields, Pairs, SignerAccepts;
    var s := Cut(apk);
    var signer := Signer(key, SignedData(key, ContentDigest(sha, s)));
    var value := Lp(Lp(signer));
    var block := SigningBlock(value);
    var out, directory := Assembled(s, block), s.offset + |block|;
    CentralLength(apk);
    AssembledParts(apk, value);
    AssembledEnd(apk, block);
    BlockShape(value);
    SliceOfSlice(out, s.offset, directory, |block| - 16, |block|);
    assert out[s.offset..directory][|block| - 16..|block|] == out[s.offset..directory][|block| - 16..];
    SliceReads(out, s.offset, directory, |block| - 24);
    SliceReads(out, s.offset, directory, 0);
    SliceOfSlice(out, s.offset, directory, 8, |block| - 24);
    PairsOfPair(value);
    FieldsOfOne(Lp(signer));
    FieldsOfOne(signer);
    SectionsAreRecovered(apk, value);
    DigestsAgree(sha, s);
    BuiltSignerIsAccepted(rsa, key, ContentDigest(sha, s));
  }

  /** The directory section has the length its size field says exactly when it lies in the file. */
  lemma CentralLength(apk: bytes)
    requires |apk| >= EOCD_SIZE
    ensures var s := Cut(apk);
            |s.entries| + |s.central| <= |apk| &&
            (s.offset + DirectorySize(apk) <= |apk| <==> |s.entries| == s.offset && |s.central| == DirectorySize(apk))
  {
    hide U32At;
  }

  /**
   Every file `sign_v2` accepts verifies from the record it wrote, exactly when the directory it
   cut lies in the file; and that record is the one a verifier finds exactly when it announces
   no comment. A second magic makes no difference.
   */
  lemma SignedFileVerifies(sha: Hash, rsa: Rsa, key: SigningKey, apk: bytes)
    requires Genuine(rsa, key) && Signed(sha, key, apk).Ok?
    ensures var out := Signed(sha, key, apk).value;
            && |out| >= EOCD_SIZE
            && (VerifiesAt(sha, rsa, out, |out| - EOCD_SIZE) <==> Cut(apk).offset + DirectorySize(apk) <= |apk|)
            && (FindEndRecord(out) == Some(|out| - EOCD_SIZE) <==> CommentLength(apk) == 0)
            && (CommentLength(apk) == 0 ==>
                  (VerifiesV2(sha, rsa, out) <==> Cut(apk).offset + DirectorySize(apk) <= |apk|))
  {
    hide RFindBelow, RFind, U32At, U16At, Cut, SigningBlock, Assembled, Signer, SignedData, ContentDigest,
         ProtectedDigest, ProtectedSections, Fields, Pairs, SignerAccepts, FindEndRecord, CommentLength;
    var s := Cut(apk);
    var block := BlockFor(sha, key, s);
    AssembledEnd(apk, block);
    CentralLength(apk);
    var out := Assembled(s, block);
    LastRecordIsFound(out);
    if s.offset + DirectorySize(apk) <= |apk| {
      SignedBlockIsAccepted(sha, rsa, key, apk);
    }
  }

  // ------------------------------------------------------- when signing succeeds

  /** The signing block's length: fixed framing, digest, certificate, signature and public key. */
  lemma BlockLength(sha: Hash, key: SigningKey, s: Sections)
    ensures var digest := ContentDigest(sha, s);
            var signature := key.sign(SignedData(key, digest));
            && |BlockFor(sha, key, s)| == 104 + |digest| + |key.certificateDer| + |signature| + |key.publicKeyDer|
            && |Lp(Signer(key, SignedData(key, digest)))| == |BlockFor(sha, key, s)| - 48
  {
    hide U32, ContentDigest;
    SignedDataLength(key, ContentDigest(sha, s));
    hide SignedData;
  }

  lemma {:induction false} PiecesAreFew(section: bytes, start: nat)
    requires start <= |section|
    ensures |Pieces(section, start)| <= |section| - start
    decreases |section| - start
  {
    hide Slice;
    if start + CHUNK <= |section| {
      PiecesAreFew(section, start + CHUNK);
    }
  }

  /** The bytes the block for a file adds to it. */
  function BlockBytes(sha: Hash, key: SigningKey, apk: bytes): nat
    requires |apk| >= EOCD_SIZE
  {
    |BlockFor(sha, key, Cut(apk))|
  }

  /** A file that ends in its only end record is signed whenever the result stays below 4 GiB. */
  lemma SigningSucceeds(sha: Hash, key: SigningKey, apk: bytes)
    requires EndsWithItsOnlyEndRecord(apk) && Cut(apk).offset <= |apk|
    requires |apk| + BlockBytes(sha, key, apk) + EOCD_SIZE < U32_LIMIT
    ensures Signed(sha, key, apk).Ok?
    ensures |Signed(sha, key, apk).value| <= |apk| + BlockBytes(sha, key, apk) + EOCD_SIZE
  {
    var s := Cut(apk);
    CentralLength(apk);
    hide U32, U32At, Cut, Pieces, ContentDigest, Signer, SignedData, SigningBlock, RFind;
    BlockLength(sha, key, s);
    PiecesOfThree(s.entries, s.central, s.end);
    PiecesAreFew(s.entries, 0);
    PiecesAreFew(s.central, 0);
    PiecesAreFew(s.end, 0);
    AssembledEnd(apk, BlockFor(sha, key, s));
  }
}
