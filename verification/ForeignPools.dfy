/** String pools that other tools wrote: any header, any flags, strings anywhere and of any length. */
module ForeignPools {
  import opened Wrappers
  import opened Bytes
  import opened Unicode
  import opened StringPools
  import opened StringPoolTheorems

  /** Bit 8 of the flags says UTF-8, whatever the bits above and below it say. */
  lemma FlagMeans(high: nat, low: nat)
    requires low < 0x100
    ensures HasUtf8Flag(0x200 * high + 0x100 + low) && !HasUtf8Flag(0x200 * high + low)
  {
    assert (0x200 * high + 0x100 + low) / 0x100 == 2 * high + 1 && (0x200 * high + low) / 0x100 == 2 * high;
  }

  /** A UTF-16 string of 0x8000 units or more: its length in two words, the first with its high bit set. */
  function LongText(s: string): bytes {
    var units := |EncodeUtf16(s)| / 2;
    U16(0x8000 + units / 0x1_0000) + U16(units % 0x1_0000) + EncodeUtf16(s)
  }

  predicate IsLong(s: string) {
    0x8000 <= |EncodeUtf16(s)| / 2 < 0x8000_0000
  }

  lemma LongTextReads(before: bytes, s: string, after: bytes)
    requires IsLong(s)
    ensures RawString(before + LongText(s) + after, |before|, false) == Ok(EncodeUtf16(s))
  {
    hide U16, U16At, EncodeUtf16;
    var units, raw := |EncodeUtf16(s)| / 2, EncodeUtf16(s);
    var first, second := U16(0x8000 + units / 0x1_0000), U16(units % 0x1_0000);
    var data := before + LongText(s) + after;
    UnitsAreHalf(s);
    assert data == before + first + (second + raw + after);
    U16Reads(before, 0x8000 + units / 0x1_0000, second + raw + after);
    assert data == (before + first) + second + (raw + after);
    U16Reads(before + first, units % 0x1_0000, raw + after);
    assert data[|before| + 4..|before| + 4 + |raw|] == raw;
  }

  /** At this place lies the string, in one of the forms its encoding has. */
  predicate HoldsText(data: bytes, at: nat, s: string, utf8: bool) {
    || (Encodable(s, utf8) && Holds(data, at, Blob(s, utf8)))
    || (!utf8 && IsLong(s) && Holds(data, at, LongText(s)))
  }

  lemma TextReads(data: bytes, at: nat, s: string, utf8: bool)
    requires HoldsText(data, at, s, utf8)
    ensures TolerantString(data, at, utf8) == Ok(s)
  {
    hide Blob, LongText, RawString, Encode, DecodeStrict, DecodeReplacing, IsLong, Encodable;
    if Encodable(s, utf8) && Holds(data, at, Blob(s, utf8)) {
      HeldStringReads(data, at, s, utf8);
    } else {
      LongTextReads(data[..at], s, data[at + |LongText(s)|..]);
      assert data == data[..at] + LongText(s) + data[at + |LongText(s)|..];
      DecodesWhatWasEncoded(s, false);
      assert Encode(s, false) == EncodeUtf16(s) && |LongText(s)| > 0 by {
        LongIsSomething(s);
      }
    }
  }

  lemma LongIsSomething(s: string)
    ensures Encode(s, false) == EncodeUtf16(s) && |LongText(s)| >= 4
  {
    hide EncodeUtf16;
  }

  /** What the header of a pool at `offset` says: its strings' number, encoding, offsets and where they start. */
  predicate Announces(data: bytes, offset: nat, count: nat, utf8: bool) {
    && offset + 28 <= |data| && U16At(data, offset) == 0x0001 && U32At(data, offset + 8) == count
    && HasUtf8Flag(U32At(data, offset + 16)) == utf8
    && offset + U16At(data, offset + 2) + 4 * count <= |data|
  }

  /** Where string `k` lies: the offset table follows the header, however long that is. */
  function PlaceOf(data: bytes, offset: nat, k: nat): nat
    requires offset + 28 <= |data| && offset + U16At(data, offset + 2) + 4 * k + 4 <= |data|
  {
    offset + U32At(data, offset + 20) + U32At(data, offset + U16At(data, offset + 2) + 4 * k)
  }

  lemma {:induction false} CharactersGrow(strings: seq<string>, k: nat)
    requires k <= |strings|
    ensures Characters(strings[..k]) <= Characters(strings)
    decreases |strings|
  {
    if k < |strings| {
      var before := strings[..|strings| - 1];
      assert before[..k] == strings[..k];
      CharactersGrow(before, k);
    } else {
      assert strings[..k] == strings;
    }
  }

  lemma NoStringsRead(data: bytes, at: nat, base: nat, utf8: bool)
    requires at <= |data|
    ensures TolerantStrings(data, at, base, utf8, 0) == Ok([])
  {
  }

  lemma OneMoreRead(data: bytes, at: nat, base: nat, utf8: bool, k: nat, before: seq<string>, s: string)
    requires k > 0 && at + 4 * k <= |data| && TolerantStrings(data, at, base, utf8, k - 1) == Ok(before)
    requires TolerantString(data, base + U32At(data, at + 4 * (k - 1)), utf8) == Ok(s)
    requires Characters(before + [s]) <= 64 * 1024 * 1024
    ensures TolerantStrings(data, at, base, utf8, k) == Ok(before + [s])
  {
    hide TolerantString, U32At;
    assert (before + [s])[..|before|] == before;
  }

  lemma {:induction false} StringsRead(data: bytes, offset: nat, strings: seq<string>, utf8: bool, k: nat)
    requires Announces(data, offset, |strings|, utf8) && Characters(strings) <= 64 * 1024 * 1024 && k <= |strings|
    requires forall i :: 0 <= i < |strings| ==> HoldsText(data, PlaceOf(data, offset, i), strings[i], utf8)
    ensures TolerantStrings(data, offset + U16At(data, offset + 2), offset + U32At(data, offset + 20), utf8, k) ==
            Ok(strings[..k])
    decreases k
  {
    hide U16At, U32At, TolerantString, HoldsText, HasUtf8Flag, Characters, TolerantStrings;
    if k == 0 {
      NoStringsRead(data, offset + U16At(data, offset + 2), offset + U32At(data, offset + 20), utf8);
    } else {
      StringsRead(data, offset, strings, utf8, k - 1);
      TextReads(data, PlaceOf(data, offset, k - 1), strings[k - 1], utf8);
      CharactersGrow(strings, k);
      assert strings[..k - 1] + [strings[k - 1]] == strings[..k];
      OneMoreRead(data, offset + U16At(data, offset + 2), offset + U32At(data, offset + 20), utf8, k, strings[..k - 1],
                  strings[k - 1]);
    }
  }

  /**
   Whoever wrote it: a pool whose offsets lead to its strings is read as those strings, whatever
   the length of its header, its other flags and its styles.
   */
  lemma ForeignPoolIsRead(data: bytes, offset: nat, strings: seq<string>, utf8: bool)
    requires Announces(data, offset, |strings|, utf8) && Characters(strings) <= 64 * 1024 * 1024
    requires forall i :: 0 <= i < |strings| ==> HoldsText(data, PlaceOf(data, offset, i), strings[i], utf8)
    ensures TolerantPool(data, offset) == Ok(Pool(strings, utf8, U32At(data, offset + 4)))
  {
    hide U16At, U32At, TolerantStrings, HoldsText, HasUtf8Flag, Characters;
    StringsRead(data, offset, strings, utf8, |strings|);
    assert strings[..|strings|] == strings;
    assert ClampedCount(data, offset + U16At(data, offset + 2), |strings|) == |strings|;
  }

  /** The builder refuses a string exactly when it has more than 32,767 code units, or as many bytes of UTF-8. */
  lemma TooLongExactlyWhen(strings: seq<string>, utf8: bool)
    ensures Encoded(strings, utf8) == Err(StringTooLong) <==>
            exists s :: s in strings && (|EncodeUtf16(s)| > 2 * 32_767 || (utf8 && |EncodeUtf8(s)| > 32_767))
  {
    hide EncodeUtf16, EncodeUtf8, PoolBytes;
    forall s ensures |EncodeUtf16(s)| == 2 * (|EncodeUtf16(s)| / 2) {
      UnitsAreHalf(s);
    }
  }

  /** The builder's reader takes no pool that has styles. */
  lemma StyledPoolIsRefused(data: bytes, offset: nat)
    requires offset + 28 <= |data| && U16At(data, offset) == 0x0001 && U32At(data, offset + 12) > 0
    ensures StrictPool(data, offset) == Err(Styled)
  {
  }
}
