/** Both readers give back exactly the strings the writer was given. */
module StringPoolTheorems {
  import opened Wrappers
  import opened Bytes
  import opened Unicode
  import opened StringPools

  lemma PoolIsAligned(strings: seq<string>, utf8: bool)
    requires AllEncodable(strings, utf8)
    ensures |PoolBytes(strings, utf8)| % 4 == 0
  {
    hide PoolHeader, Offsets, Blobs, Padded;
  }

  // ------------------------------------------------------------------ one string

  lemma Len8Reads(before: bytes, n: nat, after: bytes)
    requires n <= MAX_UNITS
    ensures ReadLen8(before + Len8(n) + after, |before|) == Ok((|before| + |Len8(n)|, n))
  {
    var data := before + Len8(n) + after;
    assert data[|before|] == Len8(n)[0];
    if n >= 0x80 {
      assert data[|before| + 1] == Len8(n)[1];
    }
  }

  lemma UnitsAreHalf(s: string)
    ensures 2 * Units(s) == |EncodeUtf16(s)|
  {
    hide EncodeUtf16;
  }

  /** Five parts in a row, joined at any of the first three seams; where the third lies. */
  lemma Seams(a: bytes, b: bytes, c: bytes, d: bytes, e: bytes)
    ensures a + (b + c + d) + e == a + b + (c + d + e)
    ensures a + b + (c + d + e) == (a + b) + c + (d + e)
    ensures (a + b + (c + d + e))[|a| + |b|..|a| + |b| + |c|] == c
  {
  }

  lemma TwoLengthsRead(before: bytes, units: nat, n: nat, after: bytes)
    requires units <= MAX_UNITS && n <= MAX_UNITS
    ensures var data, second, start := before + Len8(units) + Len8(n) + after, |before| + |Len8(units)|,
                                       |before| + |Len8(units)| + |Len8(n)|;
            ReadLen8(data, |before|) == Ok((second, units)) && ReadLen8(data, second) == Ok((start, n))
  {
    hide Len8, ReadLen8;
    Len8Reads(before, units, Len8(n) + after);
    assert before + Len8(units) + Len8(n) + after == before + Len8(units) + (Len8(n) + after);
    Len8Reads(before + Len8(units), n, after);
  }

  lemma RawOfUtf8Blob(before: bytes, s: string, after: bytes)
    requires Encodable(s, true)
    ensures RawString(before + Blob(s, true) + after, |before|, true) == Ok(Encode(s, true))
  {
    hide Len8, ReadLen8, EncodeUtf8, EncodeUtf16, Units, Blob;
    var raw, rest := EncodeUtf8(s), [0] + after;
    var lengths := before + Len8(Units(s)) + Len8(|raw|);
    TwoLengthsRead(before, Units(s), |raw|, raw + rest);
    BlobInParts(before, s, after);
    assert (lengths + (raw + rest))[|lengths|..|lengths| + |raw|] == raw;
  }

  lemma BlobInParts(before: bytes, s: string, after: bytes)
    requires Encodable(s, true)
    ensures before + Blob(s, true) + after ==
              before + Len8(Units(s)) + Len8(|EncodeUtf8(s)|) + (EncodeUtf8(s) + ([0] + after))
  {
    hide Len8, EncodeUtf8, Units;
    assert Blob(s, true) == Len8(Units(s)) + Len8(|EncodeUtf8(s)|) + (EncodeUtf8(s) + [0]);
    Seams(before, Len8(Units(s)), Len8(|EncodeUtf8(s)|), EncodeUtf8(s) + [0], after);
    assert EncodeUtf8(s) + [0] + after == EncodeUtf8(s) + ([0] + after);
  }

  lemma RawOfUtf16Blob(before: bytes, s: string, after: bytes)
    requires Encodable(s, false)
    ensures RawString(before + Blob(s, false) + after, |before|, false) == Ok(Encode(s, false))
  {
    hide U16At, U16, EncodeUtf16, Units;
    UnitsAreHalf(s);
    var units, raw := U16(Units(s)), EncodeUtf16(s);
    Seams(before, units, raw, [0, 0], after);
    U16Reads(before, Units(s), raw + [0, 0] + after);
  }

  /** A blob's own length fields lead to exactly the encoded string, wherever the blob sits. */
  lemma RawOfBlob(before: bytes, s: string, utf8: bool, after: bytes)
    requires Encodable(s, utf8)
    ensures RawString(before + Blob(s, utf8) + after, |before|, utf8) == Ok(Encode(s, utf8))
  {
    if utf8 {
      RawOfUtf8Blob(before, s, after);
    } else {
      RawOfUtf16Blob(before, s, after);
    }
  }

  lemma HeldStringReads(data: bytes, at: nat, s: string, utf8: bool)
    requires Encodable(s, utf8) && Holds(data, at, Blob(s, utf8))
    ensures RawString(data, at, utf8) == Ok(Encode(s, utf8))
    ensures TolerantString(data, at, utf8) == Ok(s)
    ensures DecodeStrict(Encode(s, utf8), utf8) == Some(s)
  {
    hide Blob, RawString, Encode, DecodeStrict, DecodeReplacing;
    assert data == data[..at] + Blob(s, utf8) + data[at + |Blob(s, utf8)|..];
    RawOfBlob(data[..at], s, utf8, data[at + |Blob(s, utf8)|..]);
    DecodesWhatWasEncoded(s, utf8);
    ReplacingAgrees(Encode(s, utf8), utf8);
  }

  // ------------------------------------------------------------------ the whole pool

  lemma PrefixEncodable(strings: seq<string>, utf8: bool, k: nat)
    requires AllEncodable(strings, utf8) && k <= |strings|
    ensures AllEncodable(strings[..k], utf8)
  {
  }

  lemma BlobsUnfold(strings: seq<string>, utf8: bool)
    requires AllEncodable(strings, utf8) && strings != []
    ensures var before, last := strings[..|strings| - 1], strings[|strings| - 1];
            && AllEncodable(before, utf8) && Encodable(last, utf8)
            && Blobs(strings, utf8) == Blobs(before, utf8) + Blob(last, utf8)
            && Offsets(strings, utf8) == Offsets(before, utf8) + U32(|Blobs(before, utf8)|)
  {
    hide Blob, U32;
  }

  /** Where blob `k` and offset `k` lie. */
  lemma {:induction false} BlobLies(strings: seq<string>, utf8: bool, k: nat)
    requires AllEncodable(strings, utf8) && k < |strings|
    ensures AllEncodable(strings[..k], utf8) && Encodable(strings[k], utf8)
    ensures Holds(Blobs(strings, utf8), |Blobs(strings[..k], utf8)|, Blob(strings[k], utf8))
    ensures Holds(Offsets(strings, utf8), 4 * k, U32(|Blobs(strings[..k], utf8)|))
    decreases |strings|
  {
    hide Blob, Encodable, U32, Blobs, Offsets, AllEncodable;
    PrefixEncodable(strings, utf8, k);
    var n := |strings| - 1;
    var before := strings[..n];
    PrefixEncodable(strings, utf8, n);
    BlobsUnfold(strings, utf8);
    if k < n {
      BlobLies(before, utf8, k);
      assert before[..k] == strings[..k] && before[k] == strings[k];
      HoldsLonger(Blobs(before, utf8), |Blobs(strings[..k], utf8)|, Blob(strings[k], utf8), Blob(strings[n], utf8));
      HoldsLonger(Offsets(before, utf8), 4 * k, U32(|Blobs(strings[..k], utf8)|), U32(|Blobs(before, utf8)|));
    }
  }

  lemma HoldsLonger(data: bytes, at: nat, part: bytes, more: bytes)
    requires Holds(data, at, part)
    ensures Holds(data + more, at, part)
  {
    assert (data + more)[at..at + |part|] == data[at..at + |part|];
  }

  lemma HoldsWithin(data: bytes, at: nat, part: bytes, inner: nat, piece: bytes)
    requires Holds(data, at, part) && Holds(part, inner, piece)
    ensures Holds(data, at + inner, piece)
  {
    var whole := data[at..at + |part|];
    assert whole[inner..inner + |piece|] == piece;
    assert forall k :: 0 <= k < |piece| ==> piece[k] == whole[inner + k] == data[at + inner + k];
  }

  lemma HeaderFields(size: nat, count: nat, utf8: bool)
    requires size < U32_LIMIT && HEADER_SIZE + 4 * count < U32_LIMIT
    ensures var h := PoolHeader(size, count, utf8);
            && U16At(h, 0) == RES_STRING_POOL && U16At(h, 2) == HEADER_SIZE && U32At(h, 4) == size
            && U32At(h, 8) == count && U32At(h, 12) == 0 && HasUtf8Flag(U32At(h, 16)) == utf8
            && U32At(h, 20) == HEADER_SIZE + 4 * count
  {
    hide U16At, U32At, U16, U32;
    var h, start, flags := PoolHeader(size, count, utf8), HEADER_SIZE + 4 * count, if utf8 then UTF8_FLAG else 0;
    var front := U16(RES_STRING_POOL) + U16(HEADER_SIZE);
    var tail := U32(flags) + U32(start) + U32(0);
    assert h == [] + U16(RES_STRING_POOL) + (U16(HEADER_SIZE) + U32(size) + U32(count) + U32(0) + tail);
    U16Reads([], RES_STRING_POOL, U16(HEADER_SIZE) + U32(size) + U32(count) + U32(0) + tail);
    assert h == U16(RES_STRING_POOL) + U16(HEADER_SIZE) + (U32(size) + U32(count) + U32(0) + tail);
    U16Reads(U16(RES_STRING_POOL), HEADER_SIZE, U32(size) + U32(count) + U32(0) + tail);
    assert h == front + U32(size) + (U32(count) + U32(0) + tail);
    U32Reads(front, size, U32(count) + U32(0) + tail);
    assert h == (front + U32(size)) + U32(count) + (U32(0) + tail);
    U32Reads(front + U32(size), count, U32(0) + tail);
    assert h == (front + U32(size) + U32(count)) + U32(0) + tail;
    U32Reads(front + U32(size) + U32(count), 0, tail);
    HeaderFlags(front + U32(size) + U32(count) + U32(0), flags, start, h);
  }

  lemma HeaderFlags(front: bytes, flags: nat, start: nat, h: bytes)
    requires |front| == 16 && flags < U32_LIMIT && start < U32_LIMIT
    requires h == front + (U32(flags) + U32(start) + U32(0))
    ensures U32At(h, 16) == flags && U32At(h, 20) == start
  {
    hide U32At, U32;
    assert h == front + U32(flags) + (U32(start) + U32(0));
    U32Reads(front, flags, U32(start) + U32(0));
    assert h == (front + U32(flags)) + U32(start) + U32(0);
    U32Reads(front + U32(flags), start, U32(0));
  }

  /** Everything both readers need to know about a pool lying at `offset`. */
  ghost predicate PoolLies(data: bytes, offset: nat, strings: seq<string>, utf8: bool)
    requires AllEncodable(strings, utf8)
  {
    && offset + HEADER_SIZE + 4 * |strings| <= |data|
    && U16At(data, offset) == RES_STRING_POOL && U16At(data, offset + 2) == HEADER_SIZE
    && U32At(data, offset + 4) == |PoolBytes(strings, utf8)| && U32At(data, offset + 8) == |strings|
    && U32At(data, offset + 12) == 0 && HasUtf8Flag(U32At(data, offset + 16)) == utf8
    && U32At(data, offset + 20) == HEADER_SIZE + 4 * |strings|
    && forall k :: 0 <= k < |strings| ==> StringLies(data, offset, strings, utf8, k)
  }

  ghost predicate StringLies(data: bytes, offset: nat, strings: seq<string>, utf8: bool, k: nat)
    requires k < |strings| && AllEncodable(strings, utf8)
    requires offset + HEADER_SIZE + 4 * |strings| <= |data|
  {
    Holds(data, offset + HEADER_SIZE + 4 * |strings| + U32At(data, offset + HEADER_SIZE + 4 * k),
          Blob(strings[k], utf8))
  }

  lemma WrittenPoolLies(before: bytes, strings: seq<string>, utf8: bool, after: bytes)
    requires Encoded(strings, utf8).Ok?
    ensures PoolLies(before + PoolBytes(strings, utf8) + after, |before|, strings, utf8)
  {
    hide U16At, U32At, HasUtf8Flag, PoolHeader, Offsets, Blobs, Padded, Encodable, StringLies;
    var pool, offset, n := PoolBytes(strings, utf8), |before|, |strings|;
    var data := before + pool + after;
    var header, blobs := PoolHeader(|pool|, n, utf8), Padded(Blobs(strings, utf8));
    assert Holds(data, offset, pool);
    HoldsParts(data, offset, header + Offsets(strings, utf8), blobs);
    HoldsParts(data, offset, header, Offsets(strings, utf8));
    HeaderFields(|pool|, n, utf8);
    ReadsInside(data, offset, header, 0);
    ReadsInside(data, offset, header, 2);
    ReadsInside(data, offset, header, 4);
    ReadsInside(data, offset, header, 8);
    ReadsInside(data, offset, header, 12);
    ReadsInside(data, offset, header, 16);
    ReadsInside(data, offset, header, 20);
    forall k | 0 <= k < n ensures StringLies(data, offset, strings, utf8, k) {
      WrittenStringLies(data, offset, strings, utf8, k);
    }
  }

  lemma WrittenStringLies(data: bytes, offset: nat, strings: seq<string>, utf8: bool, k: nat)
    requires AllEncodable(strings, utf8) && k < |strings| && |PoolBytes(strings, utf8)| < U32_LIMIT
    requires Holds(data, offset + HEADER_SIZE, Offsets(strings, utf8))
    requires Holds(data, offset + HEADER_SIZE + 4 * |strings|, Padded(Blobs(strings, utf8)))
    ensures StringLies(data, offset, strings, utf8, k)
  {
    hide U32At, U32, Offsets, Blobs, Encodable, Blob, PoolHeader;
    BlobLies(strings, utf8, k);
    var at, blobs := |Blobs(strings[..k], utf8)|, Blobs(strings, utf8);
    HoldsWithin(data, offset + HEADER_SIZE, Offsets(strings, utf8), 4 * k, U32(at));
    ReadsInside(data, offset + HEADER_SIZE + 4 * k, U32(at), 0);
    assert U32(at) == [] + U32(at) + [];
    U32Reads([], at, []);
    HoldsLonger(blobs, at, Blob(strings[k], utf8), Zeros(Padding(|blobs|)));
    HoldsWithin(data, offset + HEADER_SIZE + 4 * |strings|, Padded(blobs), at, Blob(strings[k], utf8));
  }

  /** What both readers find in slot `k`. */
  lemma SlotReads(data: bytes, offset: nat, strings: seq<string>, utf8: bool, k: nat)
    requires AllEncodable(strings, utf8) && PoolLies(data, offset, strings, utf8) && k < |strings|
    ensures StrictString(data, offset, HEADER_SIZE + 4 * |strings|, utf8, k) == Ok(strings[k])
    ensures TolerantString(data, offset + HEADER_SIZE + 4 * |strings| + U32At(data, offset + HEADER_SIZE + 4 * k),
                           utf8) == Ok(strings[k])
  {
    hide U16At, U32At, HasUtf8Flag, PoolBytes, Blob, Encodable, RawString, DecodeStrict, DecodeReplacing;
    assert StringLies(data, offset, strings, utf8, k);
    HeldStringReads(data, offset + HEADER_SIZE + 4 * |strings| + U32At(data, offset + HEADER_SIZE + 4 * k), strings[k],
                    utf8);
  }

  lemma {:induction false} StrictStringsRead(data: bytes, offset: nat, strings: seq<string>, utf8: bool, count: nat)
    requires AllEncodable(strings, utf8) && PoolLies(data, offset, strings, utf8) && count <= |strings|
    ensures StrictStrings(data, offset, HEADER_SIZE + 4 * |strings|, utf8, count) == Ok(strings[..count])
    decreases count
  {
    hide U16At, U32At, StrictString, PoolLies;
    if count > 0 {
      var k := count - 1;
      StrictStringsRead(data, offset, strings, utf8, k);
      SlotReads(data, offset, strings, utf8, k);
      assert strings[..count] == strings[..k] + [strings[k]];
    }
  }

  // ------------------------------------------------------------------ main results

  /** The builder reads back exactly the strings, encoding and size it wrote. */
  lemma StrictRoundTrip(before: bytes, strings: seq<string>, utf8: bool, after: bytes)
    requires Encoded(strings, utf8).Ok?
    ensures var pool := Encoded(strings, utf8).value;
            && StrictPool(before + pool + after, |before|) == Ok(Pool(strings, utf8, |pool|))
            && |pool| % 4 == 0
  {
    hide U16At, U32At, HasUtf8Flag, PoolBytes, Encodable, StrictStrings;
    WrittenPoolLies(before, strings, utf8, after);
    StrictStringsRead(before + PoolBytes(strings, utf8) + after, |before|, strings, utf8, |strings|);
    assert strings[..|strings|] == strings;
    PoolIsAligned(strings, utf8);
  }

  /** So does `StringPool`, exactly when the strings stay within its character budget. */
  lemma TolerantRoundTrip(before: bytes, strings: seq<string>, utf8: bool, after: bytes)
    requires Encoded(strings, utf8).Ok?
    ensures var pool := Encoded(strings, utf8).value;
            TolerantPool(before + pool + after, |before|) ==
            if Characters(strings) <= 64 * 1024 * 1024 then Ok(Pool(strings, utf8, |pool|)) else Err(PoolTooLarge)
  {
    hide U16At, U32At, HasUtf8Flag, PoolBytes, Encodable, TolerantStrings, StrictStrings;
    var data := before + PoolBytes(strings, utf8) + after;
    WrittenPoolLies(before, strings, utf8, after);
    StrictStringsRead(data, |before|, strings, utf8, |strings|);
    assert strings[..|strings|] == strings;
    TolerantFollowsStrict(data, |before|, HEADER_SIZE + 4 * |strings|, utf8, |strings|);
    if strings == [] {
      assert Characters(strings) == 0;
    }
  }

  // ------------------------------------------------------------------ one pool, two readers

  lemma {:induction false} StrictStringsFit(data: bytes, offset: nat, start: nat, utf8: bool, count: nat)
    requires StrictStrings(data, offset, start, utf8, count).Ok?
    ensures |StrictStrings(data, offset, start, utf8, count).value| == count
    ensures count > 0 ==> offset + HEADER_SIZE + 4 * count <= |data|
    decreases count
  {
    hide U32At, RawString, DecodeStrict;
    if count > 0 {
      StrictStringsFit(data, offset, start, utf8, count - 1);
    }
  }

  lemma TolerantFollowsOne(data: bytes, offset: nat, start: nat, utf8: bool, k: nat)
    requires StrictString(data, offset, start, utf8, k).Ok?
    ensures offset + HEADER_SIZE + 4 * k + 4 <= |data|
    ensures TolerantString(data, offset + start + U32At(data, offset + HEADER_SIZE + 4 * k), utf8) ==
              StrictString(data, offset, start, utf8, k)
  {
    hide U32At, RawString, DecodeStrict, DecodeReplacing;
    var at := offset + start + U32At(data, offset + HEADER_SIZE + 4 * k);
    StrictReadsInside(data, at, utf8);
    ReplacingAgrees(RawString(data, at, utf8).value, utf8);
  }

  lemma {:induction false} TolerantFollowsStrict(data: bytes, offset: nat, start: nat, utf8: bool, count: nat)
    requires StrictStrings(data, offset, start, utf8, count).Ok? && offset + HEADER_SIZE + 4 * count <= |data|
    ensures var strings := StrictStrings(data, offset, start, utf8, count).value;
            TolerantStrings(data, offset + HEADER_SIZE, offset + start, utf8, count) ==
            if Characters(strings) <= 64 * 1024 * 1024 then Ok(strings) else Err(PoolTooLarge)
    decreases count
  {
    hide U32At, StrictString, TolerantString;
    if count > 0 {
      TolerantFollowsStrict(data, offset, start, utf8, count - 1);
      var before := StrictStrings(data, offset, start, utf8, count - 1).value;
      var last := StrictString(data, offset, start, utf8, count - 1).value;
      TolerantFollowsOne(data, offset, start, utf8, count - 1);
      assert (before + [last])[..|before|] == before;
      assert Characters(before + [last]) == Characters(before) + |last|;
    }
  }

  lemma StrictReadsInside(data: bytes, at: nat, utf8: bool)
    requires RawString(data, at, utf8).Ok?
    ensures at < |data|
  {
  }

  /** Any pool with a 28-byte header the builder can read, `StringPool` reads the same way. */
  lemma ReadersAgree(data: bytes, offset: nat)
    requires StrictPool(data, offset).Ok? && U16At(data, offset + 2) == HEADER_SIZE
    requires Characters(StrictPool(data, offset).value.strings) <= 64 * 1024 * 1024
    ensures TolerantPool(data, offset) == StrictPool(data, offset)
  {
    hide U32At, U16At, HasUtf8Flag, StrictStrings, TolerantStrings;
    var start, count := U32At(data, offset + 20), U32At(data, offset + 8);
    StrictStringsFit(data, offset, start, HasUtf8Flag(U32At(data, offset + 16)), count);
    if count > 0 {
      TolerantFollowsStrict(data, offset, start, HasUtf8Flag(U32At(data, offset + 16)), count);
    }
  }
}
