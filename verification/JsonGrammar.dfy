/** Only documents of the grammar are read as JSON: every text that is read is one, written out. */
module JsonGrammar {
  import opened Wrappers
  import opened Json
  import opened JsonTheorems
  import opened JsonDocuments

  /** The text completes the document that the state has begun. */
  predicate Finishes(s: State, text: string) {
    Finish(Read(s, text)).Some?
  }

  lemma FailureReadsNothing(text: string)
    ensures !Finishes(FAILED, text)
  {
    FailedStays(Chars(text));
  }

  /** What follows the first character completes what that leads to, which is not a failure. */
  lemma FirstRead(s: State, text: string)
    requires text != "" && Finishes(s, text)
    ensures Finishes(StepChar(s, text[0]), text[1..]) && StepChar(s, text[0]) != FAILED
  {
    ReadFirst(s, text);
    FailureReadsNothing(text[1..]);
  }

  lemma PartRead(s: State, first: string, rest: string)
    requires Finishes(s, first + rest)
    ensures Finishes(Read(s, first), rest)
  {
    ReadAppend(s, first, rest);
  }

  /** The text without the blanks it begins with. */
  function Bare(text: string): string {
    if text != "" && IsBlank(text[0]) then Bare(text[1..]) else text
  }

  predicate StartsWith(text: string, c: char) {
    text != "" && text[0] == c
  }

  lemma {:induction false} BlanksFound(text: string) returns (blanks: string, rest: string)
    ensures text == blanks + rest && AreBlanks(blanks) && rest == Bare(text)
    ensures rest != "" ==> !IsBlank(rest[0])
    decreases |text|
  {
    if text == "" || !IsBlank(text[0]) {
      blanks, rest := "", text;
    } else {
      blanks, rest := BlanksFound(text[1..]);
      blanks := [text[0]] + blanks;
    }
  }

  // ------------------------------------------------------- literals and strings

  lemma {:induction false} LiteralFound(left: string, literal: Json, stack: seq<Frame>, text: string)
    returns (rest: string)
    requires left != "" && Finishes(State(InLiteral(left, literal), stack, None), text)
    ensures text == left + rest
    decreases |left|
  {
    hide Finishes;
    var s := State(InLiteral(left, literal), stack, None);
    NothingLeft(s, text);
    FirstRead(s, text);
    if |left| == 1 {
      rest := text[1..];
    } else {
      rest := LiteralFound(left[1..], literal, stack, text[1..]);
    }
  }

  /** A state in the middle of a token needs more text. */
  lemma NothingLeft(s: State, text: string)
    requires Finishes(s, text) && !s.mode.AfterValue? && !s.mode.InNumber?
    ensures text != ""
  {
    if text == "" {
      ReadNothing(s);
    }
  }

  lemma {:induction false} UnitsFound(isKey: bool, content: Text, stack: seq<Frame>, text: string)
    returns (units: seq<Spelled>, rest: string)
    requires Finishes(State(InString(isKey, content), stack, None), text)
    ensures AreSpelled(units) && text == WrittenUnits(units) + "\"" + rest
    decreases |text|
  {
    hide Finishes;
    var s := State(InString(isKey, content), stack, None);
    NothingLeft(s, text);
    if text[0] == '"' {
      units, rest := [], text[1..];
    } else {
      var u, left := UnitFound(isKey, content, stack, text);
      units, rest := UnitsFound(isKey, content + [UnitMeant(u)], stack, left);
      assert text == WrittenUnit(u) + (WrittenUnits(units) + "\"" + rest);
      units := [u] + units;
      assert units[1..] == units[1..];
    }
  }

  lemma DigitFound(isKey: bool, content: Text, stack: seq<Frame>, count: nat, code: nat, text: string)
    returns (d: HexDigit)
    requires Finishes(State(InHex(isKey, content, count, code), stack, None), text)
    ensures text != "" && d.value < 16 && WrittenDigit(d) == text[0]
    ensures count < 3 ==> Finishes(State(InHex(isKey, content, count + 1, code * 16 + d.value), stack, None), text[1..])
  {
    hide Finishes;
    var s := State(InHex(isKey, content, count, code), stack, None);
    NothingLeft(s, text);
    FirstRead(s, text);
    d := HexDigit(HexDigitValue(text[0]).value, 'A' <= text[0] <= 'F');
  }

  lemma HexFound(isKey: bool, content: Text, stack: seq<Frame>, text: string) returns (u: Spelled, rest: string)
    requires Finishes(State(InHex(isKey, content, 0, 0), stack, None), text)
    ensures IsSpelled(u) && "\\u" + text == WrittenUnit(u) + rest
  {
    hide Finishes;
    var a := DigitFound(isKey, content, stack, 0, 0, text);
    var b := DigitFound(isKey, content, stack, 1, a.value, text[1..]);
    var c := DigitFound(isKey, content, stack, 2, a.value * 16 + b.value, text[2..]);
    var d := DigitFound(isKey, content, stack, 3, (a.value * 16 + b.value) * 16 + c.value, text[3..]);
    u, rest := Hex([a, b, c, d]), text[4..];
  }

  lemma UnitFound(isKey: bool, content: Text, stack: seq<Frame>, text: string) returns (u: Spelled, rest: string)
    requires text != "" && text[0] != '"' && Finishes(State(InString(isKey, content), stack, None), text)
    ensures IsSpelled(u) && text == WrittenUnit(u) + rest && |rest| < |text|
    ensures Finishes(State(InString(isKey, content + [UnitMeant(u)]), stack, None), rest)
  {
    hide Finishes;
    var s := State(InString(isKey, content), stack, None);
    FirstRead(s, text);
    if text[0] != '\\' {
      u, rest := Plain(text[0]), text[1..];
    } else {
      var escape := State(InEscape(isKey, content), stack, None);
      NothingLeft(escape, text[1..]);
      FirstRead(escape, text[1..]);
      if text[1] != 'u' {
        u, rest := Short(text[1]), text[2..];
      } else {
        u, rest := HexFound(isKey, content, stack, text[2..]);
        assert text == "\\u" + text[2..];
      }
    }
    UnitReads(isKey, content, stack, u);
    assert text == WrittenUnit(u) + rest;
    PartRead(s, WrittenUnit(u), rest);
  }

  // ------------------------------------------------------- numbers

  function Sign(n: NumberText): string {
    if n.negative then "-" else ""
  }

  /** How much of a number has been written: the parts still missing are empty. */
  predicate IsPart(phase: Phase, n: NumberText) {
    && (n.exponent.Some? ==> n.exponent.value.sign in ["", "+", "-"] && AreDigits(n.exponent.value.digits))
    && (n.fraction.Some? ==> AreDigits(n.fraction.value))
    && (phase != Minus ==> IsDigits(n.whole) && (n.whole == "0" || n.whole[0] != '0'))
    && match phase
       case Minus => n == NumberText(true, "", None, None)
       case Zero => n.whole == "0" && n.fraction == None && n.exponent == None
       case Digits => n.whole != "0" && n.fraction == None && n.exponent == None
       case Dot => n.fraction == Some("") && n.exponent == None
       case Fraction => n.fraction.Some? && n.fraction.value != "" && n.exponent == None
       case ExponentMark => n.fraction != Some("") && n.exponent.Some? && n.exponent.value.sign == "" &&
                            n.exponent.value.digits == ""
       case ExponentSign => n.fraction != Some("") && n.exponent.Some? && n.exponent.value.sign != "" &&
                            n.exponent.value.digits == ""
       case Exponent => n.fraction != Some("") && n.exponent.Some? && n.exponent.value.digits != ""
  }

  predicate AreDigits(s: string) {
    forall i :: 0 <= i < |s| ==> '0' <= s[i] <= '9'
  }

  /** The part of a number that one more character makes. */
  function Extended(phase: Phase, n: NumberText, c: char): NumberText {
    if c == '.' then n.(fraction := Some(""))
    else if c == 'e' || c == 'E' then n.(exponent := Some(Power(c == 'E', "", "")))
    else if n.exponent.Some? then
      if IsDigit(c) then n.(exponent := Some(n.exponent.value.(digits := n.exponent.value.digits + [c])))
      else n.(exponent := Some(n.exponent.value.(sign := [c])))
    else if n.fraction.Some? then n.(fraction := Some(n.fraction.value + [c]))
    else n.(whole := n.whole + [c])
  }

  /** What may come right after a value. */
  predicate MayFollow(rest: string) {
    rest == "" || IsBlank(rest[0]) || rest[0] in ",]}"
  }

  lemma MinusIsWritten(n: NumberText)
    requires IsPart(Minus, n)
    ensures WrittenNumber(n) == "-"
  {
  }

  lemma PartGrows(phase: Phase, n: NumberText, c: char)
    requires IsPart(phase, n) && NextPhase(phase, c).Some?
    ensures IsPart(NextPhase(phase, c).value, Extended(phase, n, c))
    ensures WrittenNumber(Extended(phase, n, c)) == WrittenNumber(n) + [c]
  {
    hide IsDigits;
    var more := Extended(phase, n, c);
    assert IsPart(NextPhase(phase, c).value, more) by { PartStays(phase, n, c); }
    hide IsPart;
    WrittenGrows(phase, n, c);
  }

  lemma PartStays(phase: Phase, n: NumberText, c: char)
    requires IsPart(phase, n) && NextPhase(phase, c).Some?
    ensures IsPart(NextPhase(phase, c).value, Extended(phase, n, c))
  {
    if n.exponent.Some? || c == 'e' || c == 'E' {
      PowerStays(phase, n, c);
    } else if n.fraction.Some? || c == '.' {
      FractionStays(phase, n, c);
    } else {
      WholeStays(phase, n, c);
    }
  }

  lemma FractionStays(phase: Phase, n: NumberText, c: char)
    requires IsPart(phase, n) && NextPhase(phase, c).Some? && n.exponent.None? && c != 'e' && c != 'E'
    requires n.fraction.Some? || c == '.'
    ensures IsPart(NextPhase(phase, c).value, Extended(phase, n, c))
  {
    hide IsDigits;
    assert n.fraction.Some? ==> |n.fraction.value + [c]| > 0;
  }

  lemma WholeStays(phase: Phase, n: NumberText, c: char)
    requires IsPart(phase, n) && NextPhase(phase, c).Some? && n.exponent.None? && n.fraction.None?
    requires c != '.' && c != 'e' && c != 'E'
    ensures IsPart(NextPhase(phase, c).value, Extended(phase, n, c))
  {
    var whole := n.whole + [c];
    assert IsDigit(c) && IsDigits(whole) && (n.whole != "" ==> whole[0] == n.whole[0] && |whole| > 1);
    assert n.whole == "" ==> whole[0] == c && |whole| == 1;
  }

  lemma PowerStays(phase: Phase, n: NumberText, c: char)
    requires IsPart(phase, n) && NextPhase(phase, c).Some? && (n.exponent.Some? || c == 'e' || c == 'E')
    ensures IsPart(NextPhase(phase, c).value, Extended(phase, n, c))
  {
    hide IsDigits;
  }

  lemma PowerGrows(n: NumberText, p: Power)
    requires n.exponent.Some?
    ensures |WrittenPower(n.exponent.value)| <= |WrittenNumber(n)|
    ensures WrittenNumber(n.(exponent := Some(p))) ==
            WrittenNumber(n)[..|WrittenNumber(n)| - |WrittenPower(n.exponent.value)|] + WrittenPower(p)
  {
    hide WrittenPower;
  }

  lemma PowerFollows(p: Power, c: char)
    ensures WrittenPower(p.(digits := p.digits + [c])) == WrittenPower(p) + [c]
    ensures p.sign == "" && p.digits == "" ==> WrittenPower(p.(sign := [c])) == WrittenPower(p) + [c]
  {
  }

  lemma WholeGrows(n: NumberText, c: char)
    requires n.fraction.None? && n.exponent.None?
    ensures WrittenNumber(n.(whole := n.whole + [c])) == WrittenNumber(n) + [c]
    ensures c == '.' ==> WrittenNumber(n.(fraction := Some(""))) == WrittenNumber(n) + [c]
  {
    assert Sign(n) + (n.whole + [c]) == Sign(n) + n.whole + [c];
  }

  lemma FractionGrows(n: NumberText, c: char)
    requires n.fraction.Some? && n.exponent.None?
    ensures WrittenNumber(n.(fraction := Some(n.fraction.value + [c]))) == WrittenNumber(n) + [c]
  {
    assert "." + (n.fraction.value + [c]) == "." + n.fraction.value + [c];
  }

  lemma MarkFollows(n: NumberText, c: char)
    requires n.exponent.None? && (c == 'e' || c == 'E')
    ensures WrittenNumber(n.(exponent := Some(Power(c == 'E', "", "")))) == WrittenNumber(n) + [c]
  {
    assert WrittenPower(Power(c == 'E', "", "")) == [c];
  }

  lemma WrittenGrows(phase: Phase, n: NumberText, c: char)
    requires IsPart(phase, n) && NextPhase(phase, c).Some?
    ensures WrittenNumber(Extended(phase, n, c)) == WrittenNumber(n) + [c]
  {
    hide AreDigits, IsDigits, WrittenNumber, WrittenPower;
    if n.exponent.Some? {
      var p, more := n.exponent.value, Extended(phase, n, c).exponent.value;
      PowerFollows(p, c);
      PowerGrows(n, p);
      PowerGrows(n, more);
      assert n.(exponent := Some(p)) == n && n.(exponent := Some(more)) == Extended(phase, n, c);
      assert WrittenPower(more) == WrittenPower(p) + [c];
    } else if c == 'e' || c == 'E' {
      MarkFollows(n, c);
    } else if n.fraction.None? {
      WholeGrows(n, c);
    } else {
      FractionGrows(n, c);
    }
  }

  lemma {:induction false} NumberFound(phase: Phase, n: NumberText, stack: seq<Frame>, text: string)
    returns (d: Document, rest: string)
    requires IsPart(phase, n) && Finishes(State(InNumber(phase, WrittenNumber(n)), stack, None), text)
    ensures IsDocument(d) && WrittenNumber(n) + text == WrittenCore(d) + rest
    ensures d.Numeral? ==> MayFollow(rest)
    decreases |text|
  {
    hide Finishes, IsPart, WrittenNumber;
    var s := State(InNumber(phase, WrittenNumber(n)), stack, None);
    if text == "" {
      ReadNothing(s);
      NumberFinishes(phase, n, stack);
      d, rest := Numeral(n), "";
    } else {
      hide NextPhase, StepChar;
      if NextPhase(phase, text[0]).Some? {
        NumberGoesOn(phase, n, stack, text);
        d, rest := NumberFound(NextPhase(phase, text[0]).value, Extended(phase, n, text[0]), stack, text[1..]);
        assert WrittenNumber(n) + [text[0]] + text[1..] == WrittenNumber(n) + text;
      } else {
        d, rest := NumberStops(phase, n, stack, text);
      }
    }
  }

  lemma NumberGoesOn(phase: Phase, n: NumberText, stack: seq<Frame>, text: string)
    requires IsPart(phase, n) && Finishes(State(InNumber(phase, WrittenNumber(n)), stack, None), text)
    requires text != "" && NextPhase(phase, text[0]).Some?
    ensures var next, more := NextPhase(phase, text[0]).value, Extended(phase, n, text[0]);
            && IsPart(next, more) && WrittenNumber(more) == WrittenNumber(n) + [text[0]]
            && Finishes(State(InNumber(next, WrittenNumber(more)), stack, None), text[1..])
  {
    hide Finishes, IsPart, WrittenNumber, NextPhase, Extended;
    FirstRead(State(InNumber(phase, WrittenNumber(n)), stack, None), text);
    PartGrows(phase, n, text[0]);
  }

  lemma NumberStops(phase: Phase, n: NumberText, stack: seq<Frame>, text: string) returns (d: Document, rest: string)
    requires IsPart(phase, n) && Finishes(State(InNumber(phase, WrittenNumber(n)), stack, None), text)
    requires text != "" && NextPhase(phase, text[0]).None?
    ensures IsDocument(d) && WrittenNumber(n) + text == WrittenCore(d) + rest
    ensures d.Numeral? ==> MayFollow(rest)
  {
    hide *;
    if phase == Minus && text[0] == 'I' {
      rest := NegativeInfinityFound(n, stack, text);
      d := Infinite(true);
    } else {
      NumberEnded(phase, n, stack, text);
      d, rest := Numeral(n), text;
    }
    NumeralsAre(d, n, text, rest);
  }

  lemma NumeralsAre(d: Document, n: NumberText, text: string, rest: string)
    requires if d == Infinite(true) then WrittenNumber(n) + text == "-Infinity" + rest
             else d == Numeral(n) && IsNumber(n) && rest == text
    ensures IsDocument(d) && WrittenNumber(n) + text == WrittenCore(d) + rest
  {
    hide WrittenNumber;
  }

  lemma NegativeInfinityFound(n: NumberText, stack: seq<Frame>, text: string) returns (rest: string)
    requires IsPart(Minus, n) && Finishes(State(InNumber(Minus, WrittenNumber(n)), stack, None), text)
    requires text != "" && text[0] == 'I'
    ensures WrittenNumber(n) + text == "-Infinity" + rest
  {
    hide Finishes, IsPart, WrittenNumber;
    FirstRead(State(InNumber(Minus, WrittenNumber(n)), stack, None), text);
    rest := LiteralFound("nfinity", Number("-Infinity"), stack, text[1..]);
    MinusIsWritten(n);
    assert text == "I" + ("nfinity" + rest);
  }

  lemma NumberEnded(phase: Phase, n: NumberText, stack: seq<Frame>, text: string)
    requires IsPart(phase, n) && Finishes(State(InNumber(phase, WrittenNumber(n)), stack, None), text)
    requires text != "" && NextPhase(phase, text[0]).None? && !(phase == Minus && text[0] == 'I')
    ensures IsNumber(n) && MayFollow(text)
  {
    hide Finishes, IsPart, WrittenNumber, NextPhase, IsNumber;
    FirstRead(State(InNumber(phase, WrittenNumber(n)), stack, None), text);
    NumberCompletes(phase, n);
  }

  lemma NumberCompletes(phase: Phase, n: NumberText)
    requires IsPart(phase, n) && NumberEnds(phase, WrittenNumber(n))
    ensures IsNumber(n)
  {
  }

  lemma NumberFinishes(phase: Phase, n: NumberText, stack: seq<Frame>)
    requires IsPart(phase, n) && Finishes(State(InNumber(phase, WrittenNumber(n)), stack, None), "")
    ensures IsNumber(n)
  {
    ReadNothing(State(InNumber(phase, WrittenNumber(n)), stack, None));
    NumberCompletes(phase, n);
  }

  // ------------------------------------------------------- documents

  /** After a value and its blanks: the text goes on from the finished value. */
  lemma AfterValueFound(stack: seq<Frame>, j: Json, text: string)
    requires Finishes(Complete(stack, j), text)
    ensures MayFollow(text) && (text == "" ==> stack == [])
  {
    if text == "" {
      ReadNothing(Complete(stack, j));
    } else {
      FirstRead(Complete(stack, j), text);
    }
  }

  lemma BlanksComplete(s: State, stack: seq<Frame>, j: Json, w: string)
    requires Reached(s, stack, j) && AreBlanks(w) && w != ""
    ensures Read(s, w) == Complete(stack, j)
    decreases |w|
  {
    hide Read;
    ReadFirst(s, w);
    ReachedThen(s, stack, j, w[0]);
    if |w| == 1 {
      assert w[1..] == "";
      ReadNothing(Complete(stack, j));
    } else {
      BlanksComplete(Complete(stack, j), stack, j, w[1..]);
    }
  }

  /** At the end of a value: whatever follows, the value is complete. */
  lemma ValueEnds(s: State, v: Spaced, text: string)
    requires IsSpaced(v) && Opens(s) && Finishes(Read(s, Written(v)), text)
    requires text != "" ==> text[0] in ",]}"
    ensures text == "" ==> s.stack == []
  {
    hide Read, Written;
    ValueReads(v, s);
    if text == "" {
      ReadNothing(Read(s, Written(v)));
    }
  }

  /** From where a value may begin to where it ends. */
  lemma {:induction false} ValueFound(s: State, text: string) returns (v: Spaced, rest: string)
    requires Opens(s) && Finishes(s, text)
    requires s.mode == AtValueOrClose ==> !StartsWith(Bare(text), ']')
    ensures IsSpaced(v) && text == Written(v) + rest
    ensures if rest == "" then s.stack == [] else rest[0] in ",]}"
    ensures Finishes(Read(s, Written(v)), rest)
    decreases |text|, 1
  {
    hide Read, Finishes, WrittenCore, Reached, Meaning;
    var before, left := BlanksFound(text);
    BlanksBefore(s, before);
    PartRead(s, before, left);
    var core, tail := CoreFound(s, left);
    CoreReads(core, s);
    PartRead(s, WrittenCore(core), tail);
    if !core.Numeral? {
      AfterValueFound(s.stack, Meaning(core), tail);
    }
    var after, end := BlanksFound(tail);
    v, rest := Spaced(before, core, after), end;
    assert text == Written(v) + rest;
    PartRead(s, Written(v), rest);
    if after != "" {
      BlanksComplete(Read(s, WrittenCore(core)), s.stack, Meaning(core), after);
      PartRead(Read(s, WrittenCore(core)), after, rest);
      AfterValueFound(s.stack, Meaning(core), rest);
    }
    ValueEnds(s, v, rest);
  }

  lemma {:induction false} CoreFound(s: State, text: string) returns (d: Document, rest: string)
    requires Opens(s) && Finishes(s, text) && (text != "" ==> !IsBlank(text[0]))
    requires s.mode == AtValueOrClose ==> !StartsWith(text, ']')
    ensures IsDocument(d) && text == WrittenCore(d) + rest
    ensures d.Numeral? ==> MayFollow(rest)
    decreases |text|, 0
  {
    hide Read, Finishes, WrittenCore, IsDocument, MayFollow, Bare;
    NothingLeft(s, text);
    var first := text[0];
    if first == '"' {
      d, rest := StringStarts(s, text);
    } else if first == '[' {
      d, rest := ArrayFound(s, text);
    } else if first == '{' {
      d, rest := ObjectFound(s, text);
    } else if first == '-' || IsDigit(first) {
      d, rest := NumberStarts(s, text);
    } else {
      NoOther(first);
      d, rest := WordFound(s, text);
    }
  }

  lemma NoOther(c: char)
    requires c != '"' && c != '[' && c != '{' && c != '-' && !IsDigit(c) && !IsBlank(c)
    ensures c !in "\"[{-0123456789 \t\n\r"
  {
  }

  lemma StringStarts(s: State, text: string) returns (d: Document, rest: string)
    requires Opens(s) && Finishes(s, text) && text != "" && text[0] == '"'
    ensures IsDocument(d) && text == WrittenCore(d) + rest && !d.Numeral?
  {
    hide Read, Finishes, WrittenUnits, AreSpelled;
    FirstRead(s, text);
    var units, more := UnitsFound(false, [], s.stack, text[1..]);
    d, rest := Words(units), more;
    assert text == "\"" + text[1..];
  }

  lemma NumberStarts(s: State, text: string) returns (d: Document, rest: string)
    requires Opens(s) && Finishes(s, text) && text != "" && (text[0] == '-' || IsDigit(text[0]))
    ensures IsDocument(d) && text == WrittenCore(d) + rest
    ensures d.Numeral? ==> MayFollow(rest)
  {
    hide Read, Finishes;
    FirstRead(s, text);
    var c := text[0];
    var n := NumberText(c == '-', if c == '-' then "" else [c], None, None);
    assert WrittenNumber(n) == [c];
    d, rest := NumberFound(StartNumber(c), n, s.stack, text[1..]);
    assert text == [c] + text[1..];
  }

  lemma WordFound(s: State, text: string) returns (d: Document, rest: string)
    requires Opens(s) && Finishes(s, text) && text != "" && text[0] !in "\"[{-0123456789 \t\n\r"
    requires s.mode == AtValueOrClose ==> !StartsWith(text, ']')
    ensures IsDocument(d) && text == WrittenCore(d) + rest && !d.Numeral?
  {
    hide Read, Finishes;
    FirstRead(s, text);
    var c := text[0];
    d := if c == 't' then TrueWord else if c == 'f' then FalseWord else if c == 'n' then NullWord
         else if c == 'N' then NotANumber else Infinite(false);
    var word := WrittenCore(d);
    rest := LiteralFound(word[1..], StepChar(s, c).mode.literal, s.stack, text[1..]);
    assert text == [c] + text[1..] && word == [c] + word[1..];
  }

  lemma {:induction false} ArrayFound(s: State, text: string) returns (d: Document, rest: string)
    requires Opens(s) && Finishes(s, text) && text != "" && text[0] == '['
    ensures IsDocument(d) && text == WrittenCore(d) + rest && !d.Numeral?
    decreases |text| - 1, 4
  {
    hide Read, Finishes, WrittenItems, StepChar, IsSpaced;
    var inside := State(AtValueOrClose, s.stack + [ArrayFrame([])], None);
    BracketOpens(s, text);
    assert text == "[" + text[1..];
    var blanks, left := BlanksFound(text[1..]);
    if StartsWith(left, ']') {
      d, rest := NoItems(blanks), left[1..];
    } else {
      var items, more := ItemsFound(inside, s.stack, [], text[1..]);
      d, rest := Items(items), more;
      assert "[" + (WrittenItems(items) + "]" + rest) == "[" + WrittenItems(items) + "]" + rest;
    }
  }

  /** The first item, and what its comma or the end of the array leads to. */
  lemma {:induction false} ItemFound(s: State, stack: seq<Frame>, done: seq<Json>, text: string)
    returns (v: Spaced, left: string)
    requires Opens(s) && s.stack == stack + [ArrayFrame(done)] && Finishes(s, text)
    requires s.mode == AtValueOrClose ==> !StartsWith(Bare(text), ']')
    ensures IsSpaced(v) && text == Written(v) + left && left != "" && (left[0] == ',' || left[0] == ']')
    ensures left[0] == ',' ==> Finishes(State(AtValue, stack + [ArrayFrame(done + [ValueMeant(v)])], None), left[1..])
    decreases |text|, 2
  {
    hide Read, Finishes, Written, Reached, Complete, ValueMeant, WrittenCore, Meaning, Bare;
    v, left := ValueFound(s, text);
    ValueReads(v, s);
    ItemCompletes(stack, done, ValueMeant(v));
    ReachedThen(Read(s, Written(v)), s.stack, ValueMeant(v), left[0]);
    FirstRead(Read(s, Written(v)), left);
    NoStrayBrace(stack, done, ValueMeant(v));
  }

  lemma {:induction false} ItemsFound(s: State, stack: seq<Frame>, done: seq<Json>, text: string)
    returns (items: seq<Spaced>, rest: string)
    requires Opens(s) && s.stack == stack + [ArrayFrame(done)] && Finishes(s, text)
    requires s.mode == AtValueOrClose ==> !StartsWith(Bare(text), ']')
    ensures items != [] && (forall i :: 0 <= i < |items| ==> IsSpaced(items[i]))
    ensures text == WrittenItems(items) + "]" + rest
    decreases |text|, 3
  {
    hide Finishes, Written, IsSpaced, ValueMeant, Bare;
    var v, left := ItemFound(s, stack, done, text);
    if left[0] == ',' {
      var more;
      var kept := done + [ValueMeant(v)];
      more, rest := ItemsFound(State(AtValue, stack + [ArrayFrame(kept)], None), stack, kept, left[1..]);
      items := [v] + more;
      assert items[1..] == more;
      assert left == "," + left[1..];
    } else {
      items, rest := [v], left[1..];
      assert left == "]" + rest;
    }
  }

  /** An array is not closed by a brace, nor an object by a bracket. */
  lemma NoStrayBrace(stack: seq<Frame>, done: seq<Json>, value: Json)
    ensures StepChar(Complete(stack + [ArrayFrame(done)], value), '}') == FAILED
  {
  }

  lemma NoStrayBracket(stack: seq<Frame>, done: seq<Member>, key: Text, value: Json)
    ensures StepChar(Complete(stack + [ObjectFrame(done, key)], value), ']') == FAILED
  {
  }

  lemma {:induction false} ObjectFound(s: State, text: string) returns (d: Document, rest: string)
    requires Opens(s) && Finishes(s, text) && text != "" && text[0] == '{'
    ensures IsDocument(d) && text == WrittenCore(d) + rest && !d.Numeral?
    decreases |text| - 1, 4
  {
    hide Read, Finishes, WrittenPairs, StepChar, IsPair;
    var inside := State(AtKeyOrClose, s.stack + [ObjectFrame([], [])], None);
    BraceOpens(s, text);
    assert text == "{" + text[1..];
    var blanks, left := BlanksFound(text[1..]);
    if StartsWith(left, '}') {
      d, rest := NoPairs(blanks), left[1..];
    } else {
      var pairs, more := PairsFound(inside, s.stack, [], [], text[1..]);
      d, rest := Pairs(pairs), more;
      assert "{" + (WrittenPairs(pairs) + "}" + rest) == "{" + WrittenPairs(pairs) + "}" + rest;
    }
  }

  lemma BraceOpens(s: State, text: string)
    requires Opens(s) && Finishes(s, text) && text != "" && text[0] == '{'
    ensures Finishes(State(AtKeyOrClose, s.stack + [ObjectFrame([], [])], None), text[1..])
  {
    hide Finishes;
    FirstRead(s, text);
  }

  lemma BracketOpens(s: State, text: string)
    requires Opens(s) && Finishes(s, text) && text != "" && text[0] == '['
    ensures Finishes(State(AtValueOrClose, s.stack + [ArrayFrame([])], None), text[1..])
  {
    hide Finishes;
    FirstRead(s, text);
  }

  /** A key and the colon after it. */
  lemma KeyFound(s: State, stack: seq<Frame>, done: seq<Member>, last: Text, text: string)
    returns (before: string, key: seq<Spelled>, after: string, rest: string)
    requires OpensKey(s) && s.stack == stack + [ObjectFrame(done, last)] && Finishes(s, text)
    requires s.mode == AtKeyOrClose ==> !StartsWith(Bare(text), '}')
    ensures AreBlanks(before) && AreSpelled(key) && AreBlanks(after)
    ensures text == before + Quoted(key) + after + ":" + rest
    ensures Finishes(State(AtValue, stack + [ObjectFrame(done, UnitsMeant(key))], None), rest)
  {
    hide Read, Finishes, WrittenUnits, StepChar, UnitsMeant;
    var left, tail;
    before, left := BlanksFound(text);
    BlanksBefore(s, before);
    PartRead(s, before, left);
    key, tail := QuotedFound(s, left);
    QuotedReads(s, true, key);
    assert s.stack[..|stack|] == stack;
    after, rest := ColonFound(State(AtColon, stack + [ObjectFrame(done, UnitsMeant(key))], None), tail);
  }

  lemma QuotedFound(s: State, text: string) returns (key: seq<Spelled>, rest: string)
    requires OpensKey(s) && Finishes(s, text) && (text != "" ==> !IsBlank(text[0]))
    requires s.mode == AtKeyOrClose ==> !StartsWith(text, '}')
    ensures AreSpelled(key) && text == Quoted(key) + rest && Finishes(Read(s, Quoted(key)), rest)
    ensures StepChar(s, '"') == State(InString(true, []), s.stack, None)
  {
    hide Read, Finishes, WrittenUnits;
    NothingLeft(s, text);
    FirstRead(s, text);
    key, rest := UnitsFound(true, [], s.stack, text[1..]);
    assert text == Quoted(key) + rest;
    PartRead(s, Quoted(key), rest);
  }

  lemma ColonFound(colon: State, text: string) returns (after: string, rest: string)
    requires colon.mode == AtColon && colon.result == None && Finishes(colon, text)
    ensures AreBlanks(after) && text == after + ":" + rest && Finishes(State(AtValue, colon.stack, None), rest)
  {
    hide Read, Finishes;
    var end;
    after, end := BlanksFound(text);
    BlanksBefore(colon, after);
    PartRead(colon, after, end);
    NothingLeft(colon, end);
    FirstRead(colon, end);
    rest := end[1..];
    assert end == ":" + rest;
  }

  /** The first member, and what its comma or the end of the object leads to. */
  lemma {:induction false} PairFound(s: State, stack: seq<Frame>, done: seq<Member>, last: Text, text: string)
    returns (p: Pair, left: string)
    requires OpensKey(s) && s.stack == stack + [ObjectFrame(done, last)] && Finishes(s, text)
    requires s.mode == AtKeyOrClose ==> !StartsWith(Bare(text), '}')
    ensures IsPair(p) && text == WrittenPair(p) + left && left != "" && (left[0] == ',' || left[0] == '}')
    ensures left[0] == ',' ==>
              Finishes(State(AtKey, stack + [ObjectFrame(done + [PairMeant(p)], UnitsMeant(p.key))], None), left[1..])
    decreases |text|, 2
  {
    hide Read, Finishes, Written, Reached, Complete, Quoted, UnitsMeant, ValueMeant, WrittenCore, Meaning, Bare;
    var before, key, after, tail := KeyFound(s, stack, done, last, text);
    var value := State(AtValue, stack + [ObjectFrame(done, UnitsMeant(key))], None);
    var v;
    v, left := ValueFound(value, tail);
    ValueReads(v, value);
    p := Pair(before, key, after, v);
    assert text == WrittenPair(p) + left;
    PairCompletes(stack, done, UnitsMeant(key), ValueMeant(v));
    ReachedThen(Read(value, Written(v)), value.stack, ValueMeant(v), left[0]);
    FirstRead(Read(value, Written(v)), left);
    NoStrayBracket(stack, done, UnitsMeant(key), ValueMeant(v));
  }

  lemma {:induction false} PairsFound(s: State, stack: seq<Frame>, done: seq<Member>, last: Text, text: string)
    returns (pairs: seq<Pair>, rest: string)
    requires OpensKey(s) && s.stack == stack + [ObjectFrame(done, last)] && Finishes(s, text)
    requires s.mode == AtKeyOrClose ==> !StartsWith(Bare(text), '}')
    ensures pairs != [] && (forall i :: 0 <= i < |pairs| ==> IsPair(pairs[i]))
    ensures text == WrittenPairs(pairs) + "}" + rest
    decreases |text|, 3
  {
    hide Finishes, WrittenPair, PairMeant, UnitsMeant, Bare, Written;
    var p, left := PairFound(s, stack, done, last, text);
    if left[0] == ',' {
      var more;
      var kept, key := done + [PairMeant(p)], UnitsMeant(p.key);
      more, rest := PairsFound(State(AtKey, stack + [ObjectFrame(kept, key)], None), stack, kept, key, left[1..]);
      pairs := [p] + more;
      assert pairs[1..] == more;
      assert left == "," + left[1..];
    } else {
      pairs, rest := [p], left[1..];
      assert left == "}" + rest;
    }
  }

  /** A text is read as a document exactly when it is one of the grammar, and as what that one means. */
  lemma ExactlyDocumentsAreRead(text: string, j: Json)
    ensures Parse(text) == Some(j) <==> exists v: Spaced :: IsSpaced(v) && text == Written(v) && j == ValueMeant(v)
  {
    if Parse(text) == Some(j) {
      var v, rest := ValueFound(INITIAL, text);
      if rest != "" {
        NothingFollows(v, rest);
      }
      assert text == Written(v);
      WrittenDocumentIsRead(v);
    }
    forall v: Spaced | IsSpaced(v) && text == Written(v) && j == ValueMeant(v) ensures Parse(text) == Some(j) {
      WrittenDocumentIsRead(v);
    }
  }

  lemma NothingFollows(v: Spaced, rest: string)
    requires IsSpaced(v) && rest != "" && rest[0] in ",]}"
    ensures !Finishes(Read(INITIAL, Written(v)), rest)
  {
    hide Read, Written, Finishes;
    ValueReads(v, INITIAL);
    var read := Read(INITIAL, Written(v));
    ReachedThen(read, [], ValueMeant(v), rest[0]);
    if Finishes(read, rest) {
      FirstRead(read, rest);
    }
  }
}
