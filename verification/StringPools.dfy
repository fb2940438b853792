/**
 Android string pools: the builder's strict reader and its writer, and the tolerant
 `StringPool` every manifest and resource table is read with.
 */
module StringPools {
  import opened Wrappers
  import opened Bytes
  import opened Unicode

  const RES_STRING_POOL: nat := 0x0001
  const UTF8_FLAG: nat := 0x100
  const HEADER_SIZE: nat := 28
  const MAX_UNITS: nat := 0x7FFF
  const MAX_POOL_CHARACTERS: nat := 64 * 1024 * 1024

  /** ShortRead stands for `struct.error` and `IndexError`, BadText for `UnicodeDecodeError`. */
  datatype PoolError = NotAPool | Styled | ShortRead | BadText | StringTooLong | PoolTooLarge

  /** `flags & _UTF8_FLAG` */
  predicate HasUtf8Flag(flags: nat) {
    flags / UTF8_FLAG % 2 == 1
  }

  // ------------------------------------------------------------------ lengths

  /** `_len8`: one byte below 0x80, else two with the high bit set. */
  function Len8(n: nat): (b: bytes)
    requires n <= MAX_UNITS
  {
    if n < 0x80 then [n] else [0x80 + n / 256, n % 256]
  }

  /** A one- or two-byte length, and the position after it. */
  function ReadLen8(data: bytes, at: nat): Result<(nat, nat), PoolError> {
    if at >= |data| then Err(ShortRead)
    else if data[at] < 0x80 then Ok((at + 1, Byte(data, at)))
    else if at + 1 >= |data| then Err(ShortRead)
    else Ok((at + 2, (Byte(data, at) - 0x80) * 256 + Byte(data, at + 1)))
  }

  /** A UTF-16 length in units, extended to two words by its high bit. */
  function ReadLen16(data: bytes, at: nat): Result<(nat, nat), PoolError> {
    if at + 2 > |data| then Err(ShortRead)
    else
      var length := U16At(data, at);
      if length < 0x8000 then Ok((at + 2, length))
      else if at + 4 > |data| then Err(ShortRead)
      else Ok((at + 4, (length - 0x8000) * 65536 + U16At(data, at + 2)))
  }

  /** The bytes of the string stored at `at`, by its own length field; clamped to the buffer. */
  function RawString(data: bytes, at: nat, utf8: bool): Result<bytes, PoolError> {
    if utf8 then
      var (afterUnits, _) :- ReadLen8(data, at);
      var (start, length) :- ReadLen8(data, afterUnits);
      Ok(Slice(data, start, start + length))
    else
      var (start, units) :- ReadLen16(data, at);
      Ok(Slice(data, start, start + 2 * units))
  }

  // ------------------------------------------------------------------ writing

  function Units(s: string): nat {
    |EncodeUtf16(s)| / 2
  }

  predicate Encodable(s: string, utf8: bool) {
    Units(s) <= MAX_UNITS && (utf8 ==> |EncodeUtf8(s)| <= MAX_UNITS)
  }

  function Blob(s: string, utf8: bool): (b: bytes)
    requires Encodable(s, utf8)
    ensures |b| >= 3
  {
    if utf8 then Len8(Units(s)) + Len8(|EncodeUtf8(s)|) + EncodeUtf8(s) + [0]
    else U16(Units(s)) + EncodeUtf16(s) + [0, 0]
  }

  predicate AllEncodable(strings: seq<string>, utf8: bool) {
    forall s :: s in strings ==> Encodable(s, utf8)
  }

  /** All blobs joined. */
  function Blobs(strings: seq<string>, utf8: bool): (b: bytes)
    requires AllEncodable(strings, utf8)
  {
    if strings == [] then []
    else Blobs(strings[..|strings| - 1], utf8) + Blob(strings[|strings| - 1], utf8)
  }

  /** The offset table: where in the joined blobs each string starts. */
  function Offsets(strings: seq<string>, utf8: bool): (b: bytes)
    requires AllEncodable(strings, utf8)
    ensures |b| == 4 * |strings|
  {
    if strings == [] then []
    else
      var before := strings[..|strings| - 1];
      Offsets(before, utf8) + U32(|Blobs(before, utf8)|)
  }

  function PoolHeader(size: nat, count: nat, utf8: bool): (h: bytes)
    ensures |h| == HEADER_SIZE
  {
    U16(RES_STRING_POOL) + U16(HEADER_SIZE) + U32(size) + U32(count) + U32(0) +
    U32(if utf8 then UTF8_FLAG else 0) + U32(HEADER_SIZE + 4 * count) + U32(0)
  }

  function Padded(blobs: bytes): (b: bytes)
    ensures |b| % 4 == 0 && |b| >= |blobs|
  {
    blobs + Zeros(Padding(|blobs|))
  }

  function PoolBytes(strings: seq<string>, utf8: bool): (b: bytes)
    requires AllEncodable(strings, utf8)
    ensures |b| == HEADER_SIZE + 4 * |strings| + |Padded(Blobs(strings, utf8))|
  {
    var data := Padded(Blobs(strings, utf8));
    PoolHeader(HEADER_SIZE + 4 * |strings| + |data|, |strings|, utf8) + Offsets(strings, utf8) + data
  }

  /** What `_encode_pool` writes: an error for a string too long, or a pool `struct` cannot size. */
  function Encoded(strings: seq<string>, utf8: bool): Result<bytes, PoolError> {
    if !AllEncodable(strings, utf8) then Err(StringTooLong)
    else if |PoolBytes(strings, utf8)| >= U32_LIMIT then Err(ShortRead)
    else Ok(PoolBytes(strings, utf8))
  }

  method EncodePool(strings: seq<string>, utf8: bool) returns (r: Result<bytes, PoolError>)
    ensures r == Encoded(strings, utf8)
  {
    hide Encodable, Blob, PoolHeader, Padded;
    var blobs: bytes, offsets: bytes := [], [];
    for k := 0 to |strings|
      invariant AllEncodable(strings[..k], utf8)
      invariant blobs == Blobs(strings[..k], utf8) && offsets == Offsets(strings[..k], utf8)
    {
      if !Encodable(strings[k], utf8) {
        return Err(StringTooLong);
      }
      assert strings[..k + 1][..k] == strings[..k] && strings[..k + 1][k] == strings[k];
      offsets := offsets + U32(|blobs|);
      blobs := blobs + Blob(strings[k], utf8);
    }
    assert strings[..|strings|] == strings;
    var data := Padded(blobs);
    var size := HEADER_SIZE + 4 * |strings| + |data|;
    r := if size < U32_LIMIT then Ok(PoolHeader(size, |strings|, utf8) + offsets + data) else Err(ShortRead);
  }

  // ------------------------------------------------------------------ the builder's reader

  /** String number `k` of the pool at `offset`, as the builder's `_decode` reads it. */
  function StrictString(data: bytes, offset: nat, start: nat, utf8: bool, k: nat): Result<string, PoolError> {
    if offset + HEADER_SIZE + 4 * k + 4 > |data| then Err(ShortRead)
    else
      var raw :- RawString(data, offset + start + U32At(data, offset + HEADER_SIZE + 4 * k), utf8);
      var text := DecodeStrict(raw, utf8);
      if text.None? then Err(BadText) else Ok(text.value)
  }

  function StrictStrings(data: bytes, offset: nat, start: nat, utf8: bool, count: nat): Result<seq<string>, PoolError>
    decreases count
  {
    if count == 0 then Ok([])
    else
      var before :- StrictStrings(data, offset, start, utf8, count - 1);
      var last :- StrictString(data, offset, start, utf8, count - 1);
      Ok(before + [last])
  }

  datatype Pool = Pool(strings: seq<string>, utf8: bool, chunkSize: nat)

  /** The strings, encoding and size `_read_pool` returns. */
  function StrictPool(data: bytes, offset: nat): Result<Pool, PoolError> {
    if offset + 8 > |data| then Err(ShortRead)
    else if U16At(data, offset) != RES_STRING_POOL then Err(NotAPool)
    else if offset + HEADER_SIZE > |data| then Err(ShortRead)
    else if U32At(data, offset + 12) != 0 then Err(Styled)
    else
      var utf8 := HasUtf8Flag(U32At(data, offset + 16));
      var strings :- StrictStrings(data, offset, U32At(data, offset + 20), utf8, U32At(data, offset + 8));
      Ok(Pool(strings, utf8, U32At(data, offset + 4)))
  }

  lemma StrictFailureLasts(data: bytes, offset: nat, start: nat, utf8: bool, k: nat, count: nat)
    requires k <= count && StrictStrings(data, offset, start, utf8, k).Err?
    ensures StrictStrings(data, offset, start, utf8, count) == StrictStrings(data, offset, start, utf8, k)
    decreases count
  {
    if k < count {
      StrictFailureLasts(data, offset, start, utf8, k, count - 1);
    }
  }

  method ReadPool(data: bytes, offset: nat) returns (r: Result<Pool, PoolError>)
    ensures r == StrictPool(data, offset)
  {
    hide U16At, U32At, HasUtf8Flag, StrictString;
    if offset + 8 > |data| {
      return Err(ShortRead);
    }
    if U16At(data, offset) != RES_STRING_POOL {
      return Err(NotAPool);
    }
    if offset + HEADER_SIZE > |data| {
      return Err(ShortRead);
    }
    var count, start := U32At(data, offset + 8), U32At(data, offset + 20);
    if U32At(data, offset + 12) != 0 {
      return Err(Styled);
    }
    var utf8 := HasUtf8Flag(U32At(data, offset + 16));
    var strings: seq<string> := [];
    for k := 0 to count
      invariant StrictStrings(data, offset, start, utf8, k) == Ok(strings)
    {
      var s := StrictString(data, offset, start, utf8, k);
      if s.Err? {
        StrictFailureLasts(data, offset, start, utf8, k + 1, count);
        return Err(s.error);
      }
      strings := strings + [s.value];
    }
    r := Ok(Pool(strings, utf8, U32At(data, offset + 4)));
  }

  // ------------------------------------------------------------------ the tolerant reader

  /** `StringPool._decode`: a start outside the buffer is an empty string, bad text is replaced. */
  function TolerantString(data: bytes, at: nat, utf8: bool): Result<string, PoolError> {
    if at >= |data| then Ok("")
    else
      var raw :- RawString(data, at, utf8);
      Ok(DecodeReplacing(raw, utf8))
  }

  function Characters(strings: seq<string>): nat {
    if strings == [] then 0 else Characters(strings[..|strings| - 1]) + |strings[|strings| - 1]|
  }

  /** The first `count` strings, while the character budget lasts. */
  function TolerantStrings(data: bytes, table: nat, base: nat, utf8: bool, count: nat): Result<seq<string>, PoolError>
    requires table + 4 * count <= |data|
    decreases count
  {
    if count == 0 then Ok([])
    else
      var before :- TolerantStrings(data, table, base, utf8, count - 1);
      var last :- TolerantString(data, base + U32At(data, table + 4 * (count - 1)), utf8);
      if Characters(before + [last]) > MAX_POOL_CHARACTERS then Err(PoolTooLarge) else Ok(before + [last])
  }

  /** The declared count, clamped to the offsets that fit before the end of the buffer. */
  function ClampedCount(data: bytes, table: nat, count: nat): (n: nat)
    ensures n <= count && (n > 0 ==> table + 4 * n <= |data|)
  {
    var room := if table < |data| then (|data| - table) / 4 else 0;
    if count < room then count else room
  }

  function TolerantPool(data: bytes, offset: nat): Result<Pool, PoolError> {
    if offset + 8 > |data| then Err(ShortRead)
    else if U16At(data, offset) != RES_STRING_POOL then Err(NotAPool)
    else if offset + HEADER_SIZE > |data| then Err(ShortRead)
    else
      var utf8 := HasUtf8Flag(U32At(data, offset + 16));
      var table, base := offset + U16At(data, offset + 2), offset + U32At(data, offset + 20);
      var count := ClampedCount(data, table, U32At(data, offset + 8));
      var strings :- if count == 0 then Ok([]) else TolerantStrings(data, table, base, utf8, count);
      Ok(Pool(strings, utf8, U32At(data, offset + 4)))
  }

  lemma TolerantFailureLasts(data: bytes, table: nat, base: nat, utf8: bool, k: nat, count: nat)
    requires k <= count && table + 4 * count <= |data|
    requires TolerantStrings(data, table, base, utf8, k).Err?
    ensures TolerantStrings(data, table, base, utf8, count) == TolerantStrings(data, table, base, utf8, k)
    decreases count
  {
    if k < count {
      TolerantFailureLasts(data, table, base, utf8, k, count - 1);
    }
  }

  lemma NoCharacters()
    ensures Characters([]) == 0
  {
  }

  /** One more string, read with what is left of the budget. */
  lemma TolerantStep(data: bytes, table: nat, base: nat, utf8: bool, index: nat, strings: seq<string>)
    requires table + 4 * (index + 1) <= |data|
    requires if index > 0 then TolerantStrings(data, table, base, utf8, index) == Ok(strings) else strings == []
    ensures var decoded := TolerantString(data, base + U32At(data, table + 4 * index), utf8);
            && (decoded.Err? ==> TolerantStrings(data, table, base, utf8, index + 1) == Err(decoded.error))
            && (decoded.Ok? ==>
                  var more := strings + [decoded.value];
                  && Characters(more) == Characters(strings) + |decoded.value|
                  && TolerantStrings(data, table, base, utf8, index + 1) ==
                     if Characters(more) > MAX_POOL_CHARACTERS then Err(PoolTooLarge) else Ok(more))
  {
    hide U32At, TolerantString;
    assert index == 0 ==> TolerantStrings(data, table, base, utf8, index) == Ok([]);
    var decoded := TolerantString(data, base + U32At(data, table + 4 * index), utf8);
    if decoded.Ok? {
      assert (strings + [decoded.value])[..|strings|] == strings;
    }
  }

  /** `app.artifacts.axml.StringPool`. */
  class StringPool {
    var strings: seq<string>
    var utf8: bool
    var chunkSize: nat

    constructor ()
      ensures strings == [] && chunkSize == 0
    {
      strings, utf8, chunkSize := [], false, 0;
    }

    ghost function Contents(): Pool
      reads this
    {
      Pool(strings, utf8, chunkSize)
    }

    /** `_build`: on success the object holds exactly the pool at `offset`. */
    method Build(data: bytes, offset: nat) returns (r: Result<(), PoolError>)
      modifies this
      ensures r.Ok? <==> TolerantPool(data, offset).Ok?
      ensures r.Ok? ==> Contents() == TolerantPool(data, offset).value
      ensures r.Err? ==> r.error == TolerantPool(data, offset).error
    {
      hide U16At, U32At, HasUtf8Flag, TolerantString, ClampedCount, TolerantStrings, Characters;
      if offset + 8 > |data| {
        return Err(ShortRead);
      }
      if U16At(data, offset) != RES_STRING_POOL {
        return Err(NotAPool);
      }
      if offset + HEADER_SIZE > |data| {
        return Err(ShortRead);
      }
      utf8 := HasUtf8Flag(U32At(data, offset + 16));
      strings := [];
      var table, base := offset + U16At(data, offset + 2), offset + U32At(data, offset + 20);
      var count := ClampedCount(data, table, U32At(data, offset + 8));
      var index, budget := 0, MAX_POOL_CHARACTERS;
      assert Characters([]) == 0 by { NoCharacters(); }
      while index < count
        invariant index <= count
        invariant index > 0 ==> TolerantStrings(data, table, base, utf8, index) == Ok(strings)
        invariant index == 0 ==> strings == []
        invariant budget == MAX_POOL_CHARACTERS - Characters(strings) && budget >= 0
        invariant utf8 == HasUtf8Flag(U32At(data, offset + 16))
      {
        var decoded := TolerantString(data, base + U32At(data, table + 4 * index), utf8);
        TolerantStep(data, table, base, utf8, index, strings);
        if decoded.Err? {
          TolerantFailureLasts(data, table, base, utf8, index + 1, count);
          return Err(decoded.error);
        }
        budget := budget - |decoded.value|;
        if budget < 0 {
          TolerantFailureLasts(data, table, base, utf8, index + 1, count);
          return Err(PoolTooLarge);
        }
        strings := strings + [decoded.value];
        index := index + 1;
      }
      chunkSize := U32At(data, offset + 4);
      return Ok(());
    }

    method Get(index: nat) returns (s: string)
      ensures s == StringAt(strings, index)
    {
      s := if index >= |strings| then "" else strings[index];
    }
  }

  /** `StringPool.get`: an index outside the pool is an empty string. */
  function StringAt(strings: seq<string>, index: nat): string {
    if index < |strings| then strings[index] else ""
  }
}
