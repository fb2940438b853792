/**
 UTF-8 (section 3 of RFC 3629) and UTF-16LE (section 2 of RFC 2781), encoded as Python does
 and decoded both ways the source asks for: strictly, and with `errors="replace"`.
 */
module Unicode {
  import opened Wrappers
  import opened Bytes

  const REPLACEMENT: char := '\U{FFFD}'

  /** One decoding step: the character, the bytes it took, and whether they were well formed. */
  datatype Step = Step(c: char, n: nat, ok: bool)

  // ------------------------------------------------------------------ UTF-8

  function EncodeUtf8Char(c: char): (b: bytes)
    ensures 1 <= |b| <= 4
  {
    var v := c as int;
    if v < 0x80 then [v]
    else if v < 0x800 then [0xC0 + v / 64, 0x80 + v % 64]
    else if v < 0x10000 then [0xE0 + v / 4096, 0x80 + v / 64 % 64, 0x80 + v % 64]
    else [0xF0 + v / 262144, 0x80 + v / 4096 % 64, 0x80 + v / 64 % 64, 0x80 + v % 64]
  }

  function EncodeUtf8(s: string): (b: bytes)
    ensures |b| >= |s|
  {
    if s == "" then [] else EncodeUtf8Char(s[0]) + EncodeUtf8(s[1..])
  }

  /** The length the first byte announces; 0 for a byte that starts nothing. */
  function SequenceLength(first: byte): (n: nat)
    ensures n <= 4
  {
    if first < 0x80 then 1
    else if first < 0xC2 then 0
    else if first < 0xE0 then 2
    else if first < 0xF0 then 3
    else if first < 0xF5 then 4
    else 0
  }

  predicate IsContinuation(b: byte) {
    0x80 <= b < 0xC0
  }

  /** Overlong forms, surrogates and values past 0x10FFFF are refused at the second byte. */
  predicate SecondFits(first: byte, second: byte) {
    && IsContinuation(second)
    && (first == 0xE0 ==> second >= 0xA0)
    && (first == 0xED ==> second < 0xA0)
    && (first == 0xF0 ==> second >= 0x90)
    && (first == 0xF4 ==> second < 0x90)
  }

  /** How much of the announced sequence is really there. */
  function WellFormedPrefix(b: bytes): (n: nat)
    requires b != []
    ensures 1 <= n <= |b| && n <= 4
    ensures SequenceLength(b[0]) > 0 ==> n <= SequenceLength(b[0])
  {
    var length := SequenceLength(b[0]);
    if length < 2 || |b| < 2 || !SecondFits(b[0], b[1]) then 1
    else if length < 3 || |b| < 3 || !IsContinuation(b[2]) then 2
    else if length < 4 || |b| < 4 || !IsContinuation(b[3]) then 3
    else 4
  }

  function Utf8Value(b: bytes): (v: int)
    requires b != [] && WellFormedPrefix(b) == SequenceLength(b[0])
    ensures 0 <= v < 0xD800 || 0xE000 <= v < 0x110000
  {
    var length := SequenceLength(b[0]);
    var first: int := b[0];
    if length == 1 then first
    else if length == 2 then (first - 0xC0) * 64 + (b[1] - 0x80)
    else if length == 3 then (first - 0xE0) * 4096 + (b[1] as int - 0x80) * 64 + (b[2] - 0x80)
    else (first - 0xF0) * 262144 + (b[1] as int - 0x80) * 4096 + (b[2] as int - 0x80) * 64 + (b[3] - 0x80)
  }

  function Utf8Step(b: bytes): (s: Step)
    requires b != []
    ensures 1 <= s.n <= |b|
  {
    var n := WellFormedPrefix(b);
    if n == SequenceLength(b[0]) then Step(Utf8Value(b) as char, n, true) else Step(REPLACEMENT, n, false)
  }

  // ------------------------------------------------------------------ UTF-16LE

  function EncodeUtf16Char(c: char): (b: bytes)
    ensures |b| == 2 || |b| == 4
  {
    var v := c as int;
    if v < 0x10000 then U16(v)
    else U16(0xD800 + (v - 0x10000) / 1024) + U16(0xDC00 + (v - 0x10000) % 1024)
  }

  lemma EvenLength(a: bytes, b: bytes)
    requires (|a| == 2 || |a| == 4) && |b| % 2 == 0
    ensures |a + b| % 2 == 0
  {
  }

  function EncodeUtf16(s: string): (b: bytes)
    ensures |b| % 2 == 0 && |b| >= 2 * |s|
  {
    hide EncodeUtf16Char;
    if s == "" then []
    else
      EvenLength(EncodeUtf16Char(s[0]), EncodeUtf16(s[1..]));
      EncodeUtf16Char(s[0]) + EncodeUtf16(s[1..])
  }

  function Utf16Step(b: bytes): (s: Step)
    requires b != []
    ensures 1 <= s.n <= |b|
  {
    if |b| == 1 then Step(REPLACEMENT, 1, false)
    else
      var unit := U16At(b, 0);
      if unit < 0xD800 || unit >= 0xE000 then Step(unit as char, 2, true)
      else if unit >= 0xDC00 then Step(REPLACEMENT, 2, false)
      else if |b| < 4 then Step(REPLACEMENT, |b|, false)
      else
        var low := U16At(b, 2);
        if 0xDC00 <= low < 0xE000
        then Step((0x10000 + (unit - 0xD800) * 1024 + (low - 0xDC00)) as char, 4, true)
        else Step(REPLACEMENT, 2, false)
  }

  // ------------------------------------------------------------------ whole strings

  function Encode(s: string, utf8: bool): bytes {
    if utf8 then EncodeUtf8(s) else EncodeUtf16(s)
  }

  function EncodeChar(c: char, utf8: bool): (b: bytes)
    ensures b != []
  {
    if utf8 then EncodeUtf8Char(c) else EncodeUtf16Char(c)
  }

  function DecodeStep(b: bytes, utf8: bool): (s: Step)
    requires b != []
    ensures 1 <= s.n <= |b|
  {
    if utf8 then Utf8Step(b) else Utf16Step(b)
  }

  /** `errors="strict"`: None stands for `UnicodeDecodeError`. */
  function DecodeStrict(b: bytes, utf8: bool): Option<string>
    decreases |b|
  {
    if b == [] then Some("")
    else
      var step := DecodeStep(b, utf8);
      var rest := if step.ok then DecodeStrict(b[step.n..], utf8) else None;
      if rest.None? then None else Some([step.c] + rest.value)
  }

  /** `errors="replace"`: never fails. */
  function DecodeReplacing(b: bytes, utf8: bool): (s: string)
    ensures |s| <= |b|
    decreases |b|
  {
    if b == [] then ""
    else var step := DecodeStep(b, utf8); [step.c] + DecodeReplacing(b[step.n..], utf8)
  }

  lemma Utf8StepReads(c: char, rest: bytes)
    ensures Utf8Step(EncodeUtf8Char(c) + rest) == Step(c, |EncodeUtf8Char(c)|, true)
  {
    var v, b := c as int, EncodeUtf8Char(c) + rest;
    if v < 0x80 {
    } else if v < 0x800 {
      assert WellFormedPrefix(b) == 2;
    } else if v < 0x10000 {
      Utf8ThreeBytes(v);
      assert WellFormedPrefix(b) == 3;
    } else {
      Utf8FourBytes(v);
      assert WellFormedPrefix(b) == 4;
    }
  }

  lemma Utf8ThreeBytes(v: int)
    requires 0x800 <= v < 0x10000
    ensures v / 4096 * 4096 + v / 64 % 64 * 64 + v % 64 == v
    ensures v / 4096 == 0 ==> v / 64 % 64 >= 0x20
    ensures v / 4096 == 13 && v < 0xD800 ==> v / 64 % 64 < 0x20
    ensures v / 4096 == 13 && v >= 0xE000 ==> false
  {
    assert v / 4096 == v / 64 / 64;
  }

  lemma Utf8FourBytes(v: int)
    requires 0x10000 <= v < 0x110000
    ensures v / 262144 * 262144 + v / 4096 % 64 * 4096 + v / 64 % 64 * 64 + v % 64 == v
    ensures v / 262144 <= 4
    ensures v / 262144 == 0 ==> v / 4096 % 64 >= 0x10
    ensures v / 262144 == 4 ==> v / 4096 % 64 < 0x10
  {
    assert v / 4096 == v / 64 / 64 && v / 262144 == v / 64 / 64 / 64;
  }

  lemma Utf16StepReads(c: char, rest: bytes)
    ensures Utf16Step(EncodeUtf16Char(c) + rest) == Step(c, |EncodeUtf16Char(c)|, true)
  {
    hide U16At, U16;
    var v, b := c as int, EncodeUtf16Char(c) + rest;
    if v < 0x10000 {
      assert b == [] + U16(v) + rest;
      U16Reads([], v, rest);
    } else {
      var high, low := 0xD800 + (v - 0x10000) / 1024, 0xDC00 + (v - 0x10000) % 1024;
      assert b == [] + U16(high) + (U16(low) + rest);
      U16Reads([], high, U16(low) + rest);
      assert b == U16(high) + U16(low) + rest;
      U16Reads(U16(high), low, rest);
    }
  }

  lemma StepReads(c: char, rest: bytes, utf8: bool)
    ensures DecodeStep(EncodeChar(c, utf8) + rest, utf8) == Step(c, |EncodeChar(c, utf8)|, true)
  {
    hide Utf8Step, Utf16Step, EncodeUtf8Char, EncodeUtf16Char;
    if utf8 {
      Utf8StepReads(c, rest);
    } else {
      Utf16StepReads(c, rest);
    }
  }

  lemma EncodeUnfolds(s: string, utf8: bool)
    requires s != ""
    ensures Encode(s, utf8) == EncodeChar(s[0], utf8) + Encode(s[1..], utf8)
  {
    hide EncodeUtf8Char, EncodeUtf16Char;
  }

  /** Both decoders give back exactly the string that was encoded. */
  lemma {:induction false} DecodesWhatWasEncoded(s: string, utf8: bool)
    ensures DecodeStrict(Encode(s, utf8), utf8) == Some(s)
    ensures DecodeReplacing(Encode(s, utf8), utf8) == s
  {
    hide Encode, EncodeChar, DecodeStep, DecodeReplacing;
    ReplacingAgrees(Encode(s, utf8), utf8);
    if s == "" {
      assert Encode(s, utf8) == [] by { EmptyEncodes(utf8); }
    } else {
      EncodeUnfolds(s, utf8);
      DecodesWhatWasEncoded(s[1..], utf8);
      StepReads(s[0], Encode(s[1..], utf8), utf8);
      var b, n := Encode(s, utf8), |EncodeChar(s[0], utf8)|;
      assert b[n..] == Encode(s[1..], utf8);
      assert [s[0]] + s[1..] == s;
    }
  }

  lemma EmptyEncodes(utf8: bool)
    ensures Encode("", utf8) == []
  {
  }

  /** Where strict decoding succeeds, replacing decoding gives the same string. */
  lemma {:induction false} ReplacingAgrees(b: bytes, utf8: bool)
    ensures DecodeStrict(b, utf8).Some? ==> DecodeReplacing(b, utf8) == DecodeStrict(b, utf8).value
    decreases |b|
  {
    hide DecodeStep;
    if b != [] {
      ReplacingAgrees(b[DecodeStep(b, utf8).n..], utf8);
    }
  }
}
