/** A template that is judged JSON and renders to text that is not. */
module TemplateExample {
  import opened Wrappers
  import opened Json
  import opened JsonTheorems
  import opened Texts
  import opened Templates
  import opened TemplateTheorems

  /** Text without a dollar sign is plain. */
  lemma {:induction false} PlainPieces(text: string, from: nat, to: nat)
    requires from <= to <= |text| && forall k :: from <= k < to ==> text[k] != '$'
    ensures Pieces(text, from) == Chars(text[from..to]) + Pieces(text, to)
    decreases |text| - from
  {
    hide Pieces;
    if from == to {
      assert Chars(text[from..to]) == [];
    } else {
      PlainPieces(text, from + 1, to);
      PiecesStep(text, from);
      assert ReferenceAt(text, from).None?;
      assert Chars(text[from..to]) == [Ch(text[from])] + Chars(text[from + 1..to]);
    }
  }

  lemma {:induction false} NameEndsAt(text: string, i: nat, end: nat)
    requires i <= end < |text| && (forall k :: i <= k < end ==> IsNameChar(text[k])) && !IsNameChar(text[end])
    ensures NameEnd(text, i) == end
    decreases |text| - i
  {
    if i < end {
      NameEndsAt(text, i + 1, end);
    }
  }

  const OPENING := "[\"\\u004"
  const REFERENCE := "${device.name}"
  const CLOSING := "\"]"

  /** An array of one string: an escape whose last digit is the device's name. */
  const SPLIT_TEXT: string := OPENING + REFERENCE + CLOSING

  lemma ReferenceLies()
    ensures |OPENING| == 7 && |REFERENCE| == 14 && |CLOSING| == 2 && |SPLIT_TEXT| == 23
    ensures SPLIT_TEXT[..7] == OPENING && SPLIT_TEXT[7..21] == REFERENCE && SPLIT_TEXT[21..] == CLOSING
    ensures ReferenceAt(SPLIT_TEXT, 7) == Some(21) && NameIn(SPLIT_TEXT, 7, 21) == "device.name"
  {
    var text := SPLIT_TEXT;
    assert forall k :: 7 <= k < 21 ==> text[k] == REFERENCE[k - 7];
    assert REFERENCE[2..13] == "device.name";
    assert forall k :: 0 <= k < 11 ==> text[9 + k] == "device.name"[k];
    NameEndsAt(text, 9, 20);
  }

  lemma SplitPieces()
    ensures Pieces(SPLIT_TEXT, 0) == SPLIT_EXAMPLE
  {
    hide Pieces, ReferenceAt, Chars;
    ReferenceLies();
    var text := SPLIT_TEXT;
    assert forall k :: 0 <= k < 7 ==> text[k] == OPENING[k];
    assert forall k :: 21 <= k < 23 ==> text[k] == CLOSING[k - 21];
    PlainPieces(text, 0, 7);
    PiecesStep(text, 7);
    PlainPieces(text, 21, 23);
    assert text[21..23] == text[21..];
    ScannerAtEnd(text);
  }

  lemma FirstReference()
    ensures Find(SPLIT_TEXT, 0) == Some(7)
  {
    var text := SPLIT_TEXT;
    ReferenceLies();
    hide References, ReferenceAt, NameIn;
    forall k | 0 <= k < 7 ensures !StartsAt(text, k) {
      assert text[k] == OPENING[k];
    }
    assert text[7] == text[7..21][0] == REFERENCE[0] && text[8] == text[7..21][1] == REFERENCE[1];
    assert StartsAt(text, 7);
  }

  lemma {:induction false} TextHasNoHoles(text: string, rest: seq<Symbol>, feed: Feeding)
    ensures Holes(Chars(text) + rest) == Holes(rest)
    ensures Substitute(Chars(text) + rest, feed) == text + Substitute(rest, feed)
    decreases |text|
  {
    hide Holes, Substitute;
    if text == "" {
      assert Chars(text) + rest == rest && text + Substitute(rest, feed) == Substitute(rest, feed);
    } else {
      var tail := Chars(text[1..]) + rest;
      assert Chars(text) + rest == [Ch(text[0])] + tail;
      TextHasNoHoles(text[1..], rest, feed);
      Cons(Ch(text[0]), tail);
      SubstituteCons(Ch(text[0]), tail, feed);
      assert text == [text[0]] + text[1..];
    }
  }

  lemma SubstituteCons(x: Symbol, rest: seq<Symbol>, feed: Feeding)
    ensures Substitute([x] + rest, feed) ==
              (match x case Ch(c) => [c] case Hole(name) => feed(name)) + Substitute(rest, feed)
  {
    assert ([x] + rest)[1..] == rest;
  }

  lemma ExampleHolds(feed: Feeding)
    ensures Holes(SPLIT_EXAMPLE) == ["device.name"]
    ensures Substitute(SPLIT_EXAMPLE, feed) == OPENING + feed("device.name") + CLOSING
  {
    hide Holes, Substitute, Chars;
    var closing, hole := Chars(CLOSING), Hole("device.name");
    TextHasNoHoles(OPENING, [hole] + closing, feed);
    Cons(hole, closing);
    SubstituteCons(hole, closing, feed);
    TextHasNoHoles(CLOSING, [], feed);
    assert closing + [] == closing && CLOSING + "" == CLOSING;
    assert Holes([]) == [] && Substitute([], feed) == "" by {
      NothingHeld(feed);
    }
    assert OPENING + (feed("device.name") + CLOSING) == OPENING + feed("device.name") + CLOSING;
  }

  lemma NothingHeld(feed: Feeding)
    ensures Holes([]) == [] && Substitute([], feed) == ""
  {
  }

  lemma SplitIsWellFormed()
    ensures References(SPLIT_TEXT, 0) == Ok(["device.name"])
  {
    hide References, Find, ReferenceAt, Holes, Pieces;
    FirstReference();
    ReferenceLies();
    ReferencesFrom(SPLIT_TEXT, 7);
    ReferencesStep(SPLIT_TEXT, 7);
    NameIsKnown();
    NoMore();
    assert ["device.name"] + [] == ["device.name"];
  }

  lemma ReferencesFrom(text: string, p: nat)
    requires Find(text, 0) == Some(p) && Find(text, p) == Some(p)
    ensures References(text, 0) == References(text, p)
  {
    hide Find, ReferenceAt, CheckName;
  }

  lemma NameIsKnown()
    ensures CheckName("device.name") == Ok("device.name")
  {
    hide FirstDot, StripBoth;
    var name := "device.name";
    var dot := FirstDot(name);
    assert name[6] == '.' && forall i :: 0 <= i < 6 ==> name[i] != '.';
    assert dot == Some(6);
    assert name[..6] == "device" && name[7..] == "name";
  }

  lemma NoMore()
    ensures References(SPLIT_TEXT, 21) == Ok([])
  {
    ReferenceLies();
    forall k | 21 <= k < 23 ensures !StartsAt(SPLIT_TEXT, k) {
      assert SPLIT_TEXT[k] == SPLIT_TEXT[21..][k - 21] == CLOSING[k - 21];
    }
  }

  /** The device's name is Z. */
  const NAMED_Z: Values := map["device.name" := Some("Z")]

  /** The exception is real: this template is well formed and judged JSON, and the name Z breaks it. */
  lemma SplitTextBreaks()
    ensures References(SPLIT_TEXT, 0) == Ok(["device.name"]) && VariablesInsideJsonStrings(SPLIT_TEXT)
    ensures Render(SPLIT_TEXT, NAMED_Z).text == Some("[\"\\u004Z\"]") && Parse("[\"\\u004Z\"]").None?
  {
    hide References, VariablesInsideJsonStrings, Find, Pieces, Render, Parse, Holes, Substitute, SplitsEscape,
         JudgedJson;
    FirstReference();
    SplitIsWellFormed();
    SplitPieces();
    SplitExample();
    JudgementsAgree(SPLIT_TEXT);
    ExampleHolds(Encoded(LETTER_Z));
    ZIsOneLetter("device.name");
    assert Shortest(SPLIT_TEXT) == OPENING + "Z" + CLOSING;
    AllZRenders(SPLIT_TEXT);
    ShortestBreaks(SPLIT_TEXT);
    assert AllZ(["device.name"]) == NAMED_Z;
    assert OPENING + "Z" + CLOSING == "[\"\\u004Z\"]";
  }
}
