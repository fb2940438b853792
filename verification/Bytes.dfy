/** Byte strings, and the little-endian integers Python's `struct` reads and writes in them. */
module Bytes {
  type byte = x: int | 0 <= x < 256
  type bytes = seq<byte>

  const U16_LIMIT: int := 0x1_0000
  const U32_LIMIT: int := 0x1_0000_0000
  const U64_LIMIT: int := 0x1_0000_0000_0000_0000

  /** The low 16 bits of `n`, least significant byte first. */
  function U16(n: nat): (b: bytes)
    ensures |b| == 2
  {
    [n % 256, n / 256 % 256]
  }

  function U32(n: nat): (b: bytes)
    ensures |b| == 4
  {
    [n % 256, n / 256 % 256, n / 65536 % 256, n / 16777216 % 256]
  }

  function U64(n: nat): (b: bytes)
    ensures |b| == 8
  {
    U32(n % U32_LIMIT) + U32(n / U32_LIMIT)
  }

  function Byte(data: bytes, at: nat): (b: nat)
    requires at < |data|
    ensures b < 256
  {
    data[at]
  }

  function U16At(data: bytes, at: nat): (n: nat)
    requires at + 2 <= |data|
    ensures n < U16_LIMIT
  {
    Byte(data, at) + 256 * Byte(data, at + 1)
  }

  function U32At(data: bytes, at: nat): (n: nat)
    requires at + 4 <= |data|
    ensures n < U32_LIMIT
  {
    Byte(data, at) + 256 * Byte(data, at + 1) + 65536 * Byte(data, at + 2) + 16777216 * Byte(data, at + 3)
  }

  function U64At(data: bytes, at: nat): (n: nat)
    requires at + 8 <= |data|
    ensures n < U64_LIMIT
  {
    U32At(data, at) + U32_LIMIT * U32At(data, at + 4)
  }

  /** Python's `data[lo:hi]` for bounds that are not negative: clamped, never an error. */
  function Slice<T>(data: seq<T>, lo: nat, hi: nat): (r: seq<T>)
    ensures lo <= hi <= |data| ==> r == data[lo..hi]
  {
    if lo < hi && lo < |data| then data[lo..if hi < |data| then hi else |data|] else []
  }

  function Zeros(n: nat): (b: bytes)
    ensures |b| == n
  {
    seq(n, i => 0)
  }

  /** `(-n) % 4`: how many bytes bring `n` up to a multiple of four. */
  function Padding(n: nat): (p: nat)
    ensures p < 4 && (n + p) % 4 == 0
  {
    (4 - n % 4) % 4
  }

  function Flatten<T>(parts: seq<seq<T>>): seq<T> {
    if parts == [] then [] else parts[0] + Flatten(parts[1..])
  }

  lemma FlattenAppend<T>(parts: seq<seq<T>>, more: seq<seq<T>>)
    ensures Flatten(parts + more) == Flatten(parts) + Flatten(more)
  {
    if parts == [] {
      assert parts + more == more;
    } else {
      assert (parts + more)[1..] == parts[1..] + more;
      FlattenAppend(parts[1..], more);
    }
  }

  lemma FlattenSnoc<T>(parts: seq<seq<T>>, last: seq<T>)
    ensures Flatten(parts + [last]) == Flatten(parts) + last
  {
    FlattenAppend(parts, [last]);
    assert Flatten([last]) == last + Flatten<T>([]);
  }

  /** Reading back what was packed, wherever it sits. */
  lemma U16Reads(before: bytes, n: nat, after: bytes)
    requires n < U16_LIMIT
    ensures U16At(before + U16(n) + after, |before|) == n
  {
  }

  lemma U32Reads(before: bytes, n: nat, after: bytes)
    requires n < U32_LIMIT
    ensures U32At(before + U32(n) + after, |before|) == n
  {
  }

  lemma U64Reads(before: bytes, n: nat, after: bytes)
    requires n < U64_LIMIT
    ensures U64At(before + U64(n) + after, |before|) == n
  {
    var data := before + U64(n) + after;
    assert data == before + U32(n % U32_LIMIT) + (U32(n / U32_LIMIT) + after);
    assert data == (before + U32(n % U32_LIMIT)) + U32(n / U32_LIMIT) + after;
    U32Reads(before, n % U32_LIMIT, U32(n / U32_LIMIT) + after);
    U32Reads(before + U32(n % U32_LIMIT), n / U32_LIMIT, after);
  }

  lemma ReadsInside(data: bytes, lo: nat, part: bytes, at: nat)
    requires lo + |part| <= |data| && data[lo..lo + |part|] == part
    ensures at + 2 <= |part| ==> U16At(data, lo + at) == U16At(part, at)
    ensures at + 4 <= |part| ==> U32At(data, lo + at) == U32At(part, at)
  {
    assert forall k :: 0 <= k < |part| ==> part[k] == data[lo + k];
  }

  /** `part` lies in `data` at `at`. */
  predicate Holds(data: bytes, at: nat, part: bytes) {
    at + |part| <= |data| && data[at..at + |part|] == part
  }

  lemma HoldsParts(data: bytes, at: nat, a: bytes, b: bytes)
    requires Holds(data, at, a + b)
    ensures Holds(data, at, a) && Holds(data, at + |a|, b)
  {
    assert data[at..at + |a|] == data[at..at + |a + b|][..|a|];
    assert data[at + |a|..at + |a| + |b|] == data[at..at + |a + b|][|a|..];
  }

  lemma LowByte(b: byte, high: nat)
    ensures (b + 256 * high) % 256 == b && (b + 256 * high) / 256 == high
  {
  }

  /** Packing what was read gives the same bytes. */
  lemma U32Writes(data: bytes, at: nat)
    requires at + 4 <= |data|
    ensures U32(U32At(data, at)) == data[at..at + 4]
  {
    var n := U32At(data, at);
    var high: nat := data[at + 2] + 256 * Byte(data, at + 3);
    var middle: nat := data[at + 1] + 256 * high;
    LowByte(data[at], middle);
    LowByte(data[at + 1], high);
    LowByte(data[at + 2], data[at + 3]);
    assert n == data[at] + 256 * middle;
    assert n / 65536 == n / 256 / 256 && n / 16777216 == n / 256 / 256 / 256;
  }

  predicate MatchesAt(data: bytes, pattern: bytes, at: int) {
    0 <= at && at + |pattern| <= |data| && data[at..at + |pattern|] == pattern
  }

  /** `data.rfind(pattern, start)`: the last match at or after `start`, or -1. */
  function RFind(data: bytes, pattern: bytes, start: nat): (r: int)
    ensures r == -1 || (start <= r && MatchesAt(data, pattern, r))
    ensures forall i :: i > r && i >= start ==> !MatchesAt(data, pattern, i)
  {
    RFindBelow(data, pattern, start, |data| + 1)
  }

  function RFindBelow(data: bytes, pattern: bytes, start: nat, limit: nat): (r: int)
    requires limit <= |data| + 1
    ensures r == -1 || (start <= r < limit && MatchesAt(data, pattern, r))
    ensures forall i :: r < i < limit && i >= start ==> !MatchesAt(data, pattern, i)
    decreases limit
  {
    if limit <= start then -1
    else if MatchesAt(data, pattern, limit - 1) then limit - 1
    else RFindBelow(data, pattern, start, limit - 1)
  }
}
