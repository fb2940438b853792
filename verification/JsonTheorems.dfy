/** Reading a text with its holes filled is filling the document read from the text with holes. */
module JsonTheorems {
  import opened Wrappers
  import opened Json

  lemma {:induction false} RunAppend(s: State, a: seq<Symbol>, b: seq<Symbol>)
    ensures Run(s, a + b) == Run(Run(s, a), b)
    decreases |a|
  {
    hide Step;
    if a == [] {
      assert a + b == b;
    } else {
      assert (a + b)[0] == a[0] && (a + b)[1..] == a[1..] + b;
      RunAppend(Step(s, a[0]), a[1..], b);
    }
  }

  lemma {:induction false} FailedStays(symbols: seq<Symbol>)
    ensures Run(FAILED, symbols) == FAILED
    decreases |symbols|
  {
    if symbols != [] {
      FailedStays(symbols[1..]);
    }
  }

  // ------------------------------------------------------- filling commutes with reading

  lemma {:induction false} FillTextAppend(fill: Filling, a: Text, b: Text)
    ensures FillText(fill, a + b) == FillText(fill, a) + FillText(fill, b)
    decreases |a|
  {
    if a == [] {
      assert a + b == b;
    } else {
      assert (a + b)[0] == a[0] && (a + b)[1..] == a[1..] + b;
      FillTextAppend(fill, a[1..], b);
    }
  }

  lemma FillTextChar(fill: Filling, t: Text, u: Unit)
    requires !u.Missing?
    ensures FillText(fill, t + [u]) == FillText(fill, t) + [u]
  {
    FillTextAppend(fill, t, [u]);
    assert FillText(fill, [u]) == [u] + FillText(fill, []);
  }

  lemma {:induction false} FillItemsSnoc(fill: Filling, items: seq<Json>, v: Json)
    ensures FillItems(fill, items + [v]) == FillItems(fill, items) + [FillJson(fill, v)]
    decreases |items|
  {
    hide FillJson;
    if items != [] {
      assert (items + [v])[0] == items[0] && (items + [v])[1..] == items[1..] + [v];
      FillItemsSnoc(fill, items[1..], v);
    }
  }

  lemma {:induction false} FillMembersSnoc(fill: Filling, members: seq<Member>, m: Member)
    ensures FillMembers(fill, members + [m]) == FillMembers(fill, members) + [FillMember(fill, m)]
    decreases |members|
  {
    hide FillMember;
    if members != [] {
      assert (members + [m])[0] == members[0] && (members + [m])[1..] == members[1..] + [m];
      FillMembersSnoc(fill, members[1..], m);
    }
  }

  lemma FillStackParts(fill: Filling, stack: seq<Frame>)
    requires stack != []
    ensures var n := |stack| - 1;
            && FillStack(fill, stack)[..n] == FillStack(fill, stack[..n])
            && FillStack(fill, stack)[n] == FillFrame(fill, stack[n])
  {
    hide FillFrame;
  }

  lemma FillStackPush(fill: Filling, stack: seq<Frame>, f: Frame)
    ensures FillStack(fill, stack + [f]) == FillStack(fill, stack) + [FillFrame(fill, f)]
  {
    hide FillFrame;
  }

  lemma CompleteFills(fill: Filling, stack: seq<Frame>, v: Json)
    ensures Complete(FillStack(fill, stack), FillJson(fill, v)) == FillState(fill, Complete(stack, v))
  {
    hide FillJson, FillText, FillItems, FillMembers, FillStack;
    if stack == [] {
      EmptyStack(fill);
    } else {
      var n := |stack| - 1;
      FillStackParts(fill, stack);
      match stack[n]
      case ArrayFrame(items) =>
        FillItemsSnoc(fill, items, v);
        FillStackPush(fill, stack[..n], ArrayFrame(items + [v]));
      case ObjectFrame(members, key) =>
        FillMembersSnoc(fill, members, Member(key, v));
        FillStackPush(fill, stack[..n], ObjectFrame(members + [Member(key, v)], key));
    }
  }

  lemma EmptyStack(fill: Filling)
    ensures FillStack(fill, []) == []
  {
  }

  lemma FailedFills(fill: Filling)
    ensures FillState(fill, FAILED) == FAILED
  {
    EmptyStack(fill);
  }

  lemma CloseFills(fill: Filling, stack: seq<Frame>)
    ensures CloseArray(FillStack(fill, stack)) == FillState(fill, CloseArray(stack))
    ensures CloseObject(FillStack(fill, stack)) == FillState(fill, CloseObject(stack))
  {
    hide FillText, FillItems, FillMembers, FillStack, Complete, FillState;
    FailedFills(fill);
    if stack == [] {
      EmptyStack(fill);
    } else {
      var n := |stack| - 1;
      FillStackParts(fill, stack);
      match stack[n]
      case ArrayFrame(items) =>
        CompleteFills(fill, stack[..n], Array(items));
      case ObjectFrame(members, key) =>
        CompleteFills(fill, stack[..n], Object(members));
    }
  }

  lemma ValueFills(fill: Filling, mode: Mode, stack: seq<Frame>, c: char)
    requires mode == AtValue || mode == AtValueOrClose
    ensures StepValue(mode, FillStack(fill, stack), c) == FillState(fill, StepValue(mode, stack, c))
  {
    hide FillStack, CloseArray, Complete;
    FailedFills(fill);
    CloseFills(fill, stack);
    FillStackPush(fill, stack, ArrayFrame([]));
    FillStackPush(fill, stack, ObjectFrame([], []));
  }

  lemma KeyFills(fill: Filling, mode: Mode, stack: seq<Frame>, c: char)
    requires mode == AtKey || mode == AtKeyOrClose
    ensures StepKey(mode, FillStack(fill, stack), c) == FillState(fill, StepKey(mode, stack, c))
  {
    hide FillStack, CloseObject;
    FailedFills(fill);
    CloseFills(fill, stack);
  }

  lemma AfterFills(fill: Filling, stack: seq<Frame>, result: Option<Json>, c: char)
    ensures StepAfter(FillStack(fill, stack), if result.None? then None else Some(FillJson(fill, result.value)), c) ==
            FillState(fill, StepAfter(stack, result, c))
  {
    hide FillStack, CloseArray, CloseObject, FillJson, FillItems, FillMembers, FillText;
    FailedFills(fill);
    CloseFills(fill, stack);
    if stack != [] {
      FillStackParts(fill, stack);
    }
  }

  lemma StringFills(fill: Filling, isKey: bool, content: Text, stack: seq<Frame>, c: char)
    ensures StepString(isKey, FillText(fill, content), FillStack(fill, stack), c) ==
              FillState(fill, StepString(isKey, content, stack, c))
  {
    hide FillStack, FillText, FillItems, FillMembers, Complete;
    FailedFills(fill);
    FillTextChar(fill, content, Char(c));
    CompleteFills(fill, stack, String(content));
    if stack != [] {
      var n := |stack| - 1;
      FillStackParts(fill, stack);
      if stack[n].ObjectFrame? {
        FillStackPush(fill, stack[..n], ObjectFrame(stack[n].members, content));
      }
    }
  }

  lemma EscapeFills(fill: Filling, isKey: bool, content: Text, stack: seq<Frame>, c: char)
    ensures StepEscape(isKey, FillText(fill, content), FillStack(fill, stack), c) ==
              FillState(fill, StepEscape(isKey, content, stack, c))
  {
    hide FillStack, FillText;
    FailedFills(fill);
    if Escaped(c).Some? {
      FillTextChar(fill, content, Char(Escaped(c).value));
    }
  }

  lemma HexFills(fill: Filling, isKey: bool, content: Text, count: nat, code: nat, stack: seq<Frame>, c: char)
    ensures StepHex(isKey, FillText(fill, content), count, code, FillStack(fill, stack), c) ==
            FillState(fill, StepHex(isKey, content, count, code, stack, c))
  {
    hide FillStack, FillText;
    FailedFills(fill);
    if HexDigitValue(c).Some? {
      FillTextChar(fill, content, UnitOf(code * 16 + HexDigitValue(c).value));
    }
  }

  lemma NumberFills(fill: Filling, phase: Phase, number: string, stack: seq<Frame>, c: char)
    ensures StepNumber(phase, number, FillStack(fill, stack), c) == FillState(fill, StepNumber(phase, number, stack, c))
  {
    hide FillStack, Complete, StepAfter, NextPhase, NumberEnds;
    FailedFills(fill);
    CompleteFills(fill, stack, Number(number));
    var done := Complete(stack, Number(number));
    AfterFills(fill, done.stack, done.result, c);
  }

  lemma LiteralFills(fill: Filling, rest: string, literal: Json, stack: seq<Frame>, c: char)
    ensures StepLiteral(rest, FillJson(fill, literal), FillStack(fill, stack), c) ==
              FillState(fill, StepLiteral(rest, literal, stack, c))
  {
    hide FillStack, Complete, FillJson;
    FailedFills(fill);
    CompleteFills(fill, stack, literal);
  }

  /** One known character: filling first or reading first makes no difference. */
  lemma CharFills(fill: Filling, s: State, c: char)
    ensures StepChar(FillState(fill, s), c) == FillState(fill, StepChar(s, c))
  {
    hide FillStack, FillText, FillJson, StepValue, StepKey, StepAfter, StepString, StepEscape, StepHex, StepNumber,
         StepLiteral;
    FailedFills(fill);
    match s.mode
    case AtValue => ValueFills(fill, AtValue, s.stack, c);
    case AtValueOrClose => ValueFills(fill, AtValueOrClose, s.stack, c);
    case AtKeyOrClose => KeyFills(fill, AtKeyOrClose, s.stack, c);
    case AtKey => KeyFills(fill, AtKey, s.stack, c);
    case AtColon =>
    case AfterValue => AfterFills(fill, s.stack, s.result, c);
    case InString(isKey, content) => StringFills(fill, isKey, content, s.stack, c);
    case InEscape(isKey, content) => EscapeFills(fill, isKey, content, s.stack, c);
    case InHex(isKey, content, count, code) => HexFills(fill, isKey, content, count, code, s.stack, c);
    case InNumber(phase, number) => NumberFills(fill, phase, number, s.stack, c);
    case InLiteral(rest, literal) => LiteralFills(fill, rest, literal, s.stack, c);
    case Failed =>
  }

  // ------------------------------------------------------- feeding characters for holes

  type Feeding = string -> string

  /** In this string, reading the fed characters appends exactly the filling. */
  ghost predicate FeedsAt(fill: Filling, feed: Feeding, name: string, isKey: bool, content: Text, stack: seq<Frame>) {
    Run(State(InString(isKey, content), stack, None), Chars(feed(name))) ==
      State(InString(isKey, content + fill(name)), stack, None)
  }

  ghost predicate FeedsName(fill: Filling, feed: Feeding, name: string) {
    forall isKey, content, stack :: FeedsAt(fill, feed, name, isKey, content, stack)
  }

  ghost predicate Feeds(fill: Filling, feed: Feeding) {
    forall name :: FeedsName(fill, feed, name)
  }

  /** The text with each hole replaced by the characters fed for it. */
  function Expand(symbols: seq<Symbol>, feed: Feeding): seq<Symbol> {
    if symbols == [] then []
    else (if symbols[0].Hole? then Chars(feed(symbols[0].name)) else [symbols[0]]) + Expand(symbols[1..], feed)
  }

  /** What every state on a run from the start keeps. */
  predicate Tidy(s: State) {
    && (s.result.Some? ==> s.mode.AfterValue?)
    && (s.mode.InLiteral? ==> 'A' !in s.mode.rest)
  }

  lemma CompleteIsTidy(stack: seq<Frame>, v: Json)
    ensures Tidy(Complete(stack, v)) && Complete(stack, v).mode.AfterValue?
  {
  }

  lemma ClosedIsTidy(stack: seq<Frame>)
    ensures Tidy(CloseArray(stack)) && Tidy(CloseObject(stack))
  {
    if stack != [] {
      var outer, inner := stack[..|stack| - 1], stack[|stack| - 1];
      CompleteIsTidy(outer, if inner.ArrayFrame? then Array(inner.items) else Object(inner.members));
    }
    hide Complete;
  }

  lemma ValueIsTidy(mode: Mode, stack: seq<Frame>, c: char)
    requires !mode.InLiteral?
    ensures Tidy(StepValue(mode, stack, c))
  {
    ClosedIsTidy(stack);
    hide CloseArray;
  }

  lemma AfterIsTidy(stack: seq<Frame>, result: Option<Json>, c: char)
    ensures Tidy(StepAfter(stack, result, c))
  {
    ClosedIsTidy(stack);
    hide CloseArray, CloseObject;
  }

  lemma StringIsTidy(isKey: bool, content: Text, stack: seq<Frame>, c: char)
    ensures Tidy(StepString(isKey, content, stack, c))
  {
    CompleteIsTidy(stack, String(content));
    hide Complete;
  }

  lemma NumberIsTidy(phase: Phase, number: string, stack: seq<Frame>, c: char)
    ensures Tidy(StepNumber(phase, number, stack, c))
  {
    var done := Complete(stack, Number(number));
    AfterIsTidy(done.stack, done.result, c);
    hide StepAfter, Complete;
  }

  lemma LiteralIsTidy(rest: string, literal: Json, stack: seq<Frame>, c: char)
    requires 'A' !in rest
    ensures Tidy(StepLiteral(rest, literal, stack, c))
  {
    CompleteIsTidy(stack, literal);
    hide Complete;
  }

  lemma KeyIsTidy(mode: Mode, stack: seq<Frame>, c: char)
    requires !mode.InLiteral?
    ensures Tidy(StepKey(mode, stack, c))
  {
    ClosedIsTidy(stack);
    hide CloseObject;
  }

  lemma StepIsTidy(s: State, x: Symbol)
    requires Tidy(s)
    ensures Tidy(Step(s, x))
  {
    if x.Ch? {
      match s.mode
      case AtValue => ValueIsTidy(AtValue, s.stack, x.c);
      case AtValueOrClose => ValueIsTidy(AtValueOrClose, s.stack, x.c);
      case AtKeyOrClose => KeyIsTidy(AtKeyOrClose, s.stack, x.c);
      case AtKey => KeyIsTidy(AtKey, s.stack, x.c);
      case AfterValue => AfterIsTidy(s.stack, s.result, x.c);
      case InString(isKey, content) => StringIsTidy(isKey, content, s.stack, x.c);
      case InNumber(phase, number) => NumberIsTidy(phase, number, s.stack, x.c);
      case InLiteral(rest, literal) => LiteralIsTidy(rest, literal, s.stack, x.c);
      case _ =>
    }
    hide StepValue, StepKey, StepAfter, StepString, StepNumber, StepLiteral;
  }

  lemma OneHole(fill: Filling, t: Text, name: string)
    ensures FillText(fill, t + [Missing(name)]) == FillText(fill, t) + fill(name)
  {
    FillTextAppend(fill, t, [Missing(name)]);
    assert FillText(fill, [Missing(name)]) == fill(name) + FillText(fill, []);
  }

  /** One symbol: reading what stands for it, or reading it and filling afterwards. */
  lemma StepFeeds(fill: Filling, feed: Feeding, s: State, x: Symbol)
    requires Feeds(fill, feed) && Tidy(s)
    requires x.Ch? || s.mode.InString?
    ensures Run(FillState(fill, s), if x.Hole? then Chars(feed(x.name)) else [x]) == FillState(fill, Step(s, x))
  {
    hide FillStack, FillText, FillJson, StepChar;
    match x
    case Ch(c) =>
      CharFills(fill, s, c);
      assert Run(Step(FillState(fill, s), x), [x][1..]) == Step(FillState(fill, s), x);
    case Hole(name) =>
      OneHole(fill, s.mode.content, name);
      assert FeedsName(fill, feed, name);
      assert FeedsAt(fill, feed, name, s.mode.isKey, FillText(fill, s.mode.content), FillStack(fill, s.stack));
  }

  /**
   Reading the filled text from a filled state fills what reading the text with holes gives,
   whenever that reading does not fail.
   */
  lemma {:induction false} RunFills(fill: Filling, feed: Feeding, s: State, symbols: seq<Symbol>)
    requires Feeds(fill, feed) && Tidy(s)
    requires !Run(s, symbols).mode.Failed?
    ensures Run(FillState(fill, s), Expand(symbols, feed)) == FillState(fill, Run(s, symbols))
    decreases |symbols|
  {
    hide Step, FillState, Feeds, Tidy, Chars;
    if symbols != [] {
      var x, next := symbols[0], Step(s, symbols[0]);
      HoleNeedsString(s, symbols);
      StepIsTidy(s, x);
      StepFeeds(fill, feed, s, x);
      RunAppend(FillState(fill, s), if x.Hole? then Chars(feed(x.name)) else [x], Expand(symbols[1..], feed));
      RunFills(fill, feed, next, symbols[1..]);
    }
  }

  lemma HoleNeedsString(s: State, symbols: seq<Symbol>)
    requires symbols != [] && !Run(s, symbols).mode.Failed?
    ensures symbols[0].Ch? || s.mode.InString?
  {
    hide StepChar;
    FailedStays(symbols[1..]);
  }

  lemma FinishFills(fill: Filling, s: State)
    ensures Finish(FillState(fill, s)) == (if Finish(s).None? then None else Some(FillJson(fill, Finish(s).value)))
  {
    hide FillText, FillItems, FillMembers;
  }

  lemma StartFills(fill: Filling)
    ensures FillState(fill, INITIAL) == INITIAL
  {
    EmptyStack(fill);
  }

  // ------------------------------------------------------- what encoded values feed

  function Units(value: string): (t: Text)
    ensures |t| == |value|
  {
    seq(|value|, i requires 0 <= i < |value| => Char(value[i]))
  }

  lemma RunTwo(s: State, a: char, b: char)
    ensures Run(s, Chars([a, b])) == StepChar(StepChar(s, a), b)
  {
    hide StepChar;
    var symbols := Chars([a, b]);
    assert symbols[1..][1..] == [];
    assert Run(Step(Step(s, Ch(a)), Ch(b)), []) == StepChar(StepChar(s, a), b);
    assert Run(Step(s, Ch(a)), symbols[1..]) == Run(Step(Step(s, Ch(a)), symbols[1..][0]), symbols[1..][1..]);
  }

  lemma RunOne(s: State, c: char)
    ensures Run(s, Chars([c])) == StepChar(s, c)
  {
    hide StepChar;
    assert Chars([c])[1..] == [];
  }

  /** Two hexadecimal digits inside an escape. */
  lemma TwoDigits(isKey: bool, content: Text, stack: seq<Frame>, count: nat, code: nat, a: char, b: char)
    requires count == 0 || count == 2
    requires HexDigitValue(a).Some? && HexDigitValue(b).Some?
    ensures var value := code * 256 + HexDigitValue(a).value * 16 + HexDigitValue(b).value;
            Run(State(InHex(isKey, content, count, code), stack, None), Chars([a, b])) ==
            State(if count == 0 then InHex(isKey, content, 2, value)
                  else InString(isKey, content + [UnitOf(value)]), stack, None)
  {
    hide HexDigitValue, Run, UnitOf;
    RunTwo(State(InHex(isKey, content, count, code), stack, None), a, b);
  }

  lemma LowerHexReads(d: nat)
    requires d < 16
    ensures HexDigitValue(LowerHex(d)) == Some(d)
  {
  }

  lemma ControlReads(isKey: bool, content: Text, stack: seq<Frame>, c: char)
    requires c < ' '
    ensures var s := State(InString(isKey, content), stack, None);
            Run(s, Chars("\\u00" + [LowerHex(c as int / 16), LowerHex(c as int % 16)])) ==
            State(InString(isKey, content + [Char(c)]), stack, None)
  {
    hide Run, Chars, LowerHex;
    var s := State(InString(isKey, content), stack, None);
    var h, l := LowerHex(c as int / 16), LowerHex(c as int % 16);
    LowerHexReads(c as int / 16);
    LowerHexReads(c as int % 16);
    assert "\\u00" + [h, l] == "\\u" + ("00" + [h, l]);
    CharsAppend("\\u", "00" + [h, l]);
    CharsAppend("00", [h, l]);
    RunAppend(s, Chars("\\u"), Chars("00") + Chars([h, l]));
    RunTwo(s, '\\', 'u');
    var s1 := State(InHex(isKey, content, 0, 0), stack, None);
    RunAppend(s1, Chars("00"), Chars([h, l]));
    TwoDigits(isKey, content, stack, 0, 0, '0', '0');
    TwoDigits(isKey, content, stack, 2, 0, h, l);
  }

  /** However a character is written, it is read back as itself. */
  lemma CharReads(isKey: bool, content: Text, stack: seq<Frame>, c: char)
    ensures Run(State(InString(isKey, content), stack, None), Chars(EncodeChar(c))) ==
            State(InString(isKey, content + [Char(c)]), stack, None)
  {
    hide Run, Chars;
    var s := State(InString(isKey, content), stack, None);
    if |EncodeChar(c)| == 2 {
      var w := EncodeChar(c);
      RunTwo(s, '\\', w[1]);
      assert w == ['\\', w[1]] && Escaped(w[1]) == Some(c);
    } else if c < ' ' {
      ControlReads(isKey, content, stack, c);
    } else {
      RunOne(s, c);
    }
  }

  lemma CharsAppend(a: string, b: string)
    ensures Chars(a + b) == Chars(a) + Chars(b)
  {
  }

  lemma {:induction false} EncodedReads(isKey: bool, content: Text, stack: seq<Frame>, value: string)
    ensures Run(State(InString(isKey, content), stack, None), Chars(EncodeString(value))) ==
            State(InString(isKey, content + Units(value)), stack, None)
    decreases |value|
  {
    hide EncodeChar, StepChar;
    var s := State(InString(isKey, content), stack, None);
    if value == "" {
      assert content + Units(value) == content;
    } else {
      var c, rest := value[0], value[1..];
      CharsAppend(EncodeChar(c), EncodeString(rest));
      RunAppend(s, Chars(EncodeChar(c)), Chars(EncodeString(rest)));
      CharReads(isKey, content, stack, c);
      EncodedReads(isKey, content + [Char(c)], stack, rest);
      assert content + [Char(c)] + Units(rest) == content + Units(value);
    }
  }

  function Raw(values: string -> string): Filling {
    name => Units(values(name))
  }

  function Encoded(values: string -> string): Feeding {
    name => EncodeString(values(name))
  }

  lemma EncodedFeeds(values: string -> string)
    ensures Feeds(Raw(values), Encoded(values))
  {
    hide Run, EncodeString;
    forall name, isKey, content, stack
      ensures FeedsAt(Raw(values), Encoded(values), name, isKey, content, stack)
    {
      EncodedReads(isKey, content, stack, values(name));
    }
  }

  // ------------------------------------------------------- judging with a stand-in

  /** Stands in for each variable while judging whether a template is JSON. */
  const SENTINEL := "ATLASVARIABLE7Q3"

  const STAND_IN: string -> string := _ => SENTINEL

  lemma {:induction false} PlainReads(isKey: bool, content: Text, stack: seq<Frame>, value: string)
    requires forall i :: 0 <= i < |value| ==> value[i] >= ' ' && value[i] != '"' && value[i] != '\\'
    ensures Run(State(InString(isKey, content), stack, None), Chars(value)) ==
              State(InString(isKey, content + Units(value)), stack, None)
    decreases |value|
  {
    if value == "" {
      assert content + Units(value) == content;
    } else {
      var next := StepChar(State(InString(isKey, content), stack, None), value[0]);
      assert next == State(InString(isKey, content + [Char(value[0])]), stack, None);
      hide StepChar;
      PlainReads(isKey, content + [Char(value[0])], stack, value[1..]);
      assert content + [Char(value[0])] + Units(value[1..]) == content + Units(value);
      assert Chars(value)[0] == Ch(value[0]) && Chars(value)[1..] == Chars(value[1..]);
    }
  }

  lemma StandInFeeds()
    ensures Feeds(Raw(STAND_IN), STAND_IN)
  {
    hide Run;
    forall name, isKey, content, stack
      ensures FeedsAt(Raw(STAND_IN), STAND_IN, name, isKey, content, stack)
    {
      PlainReads(isKey, content, stack, SENTINEL);
    }
  }

  /** The stand-in can only be read inside a string, or as the last digit of a `\u` escape. */
  lemma StandInPlaces(s: State)
    requires Tidy(s) && !Run(s, Chars(SENTINEL)).mode.Failed?
    ensures s.mode.InString? || s.mode.InHex?
  {
    hide Complete, CloseArray, CloseObject, CloseString;
    FailedStays(Chars(SENTINEL)[1..]);
    assert Chars(SENTINEL)[0] == Ch('A');
  }

  /** Reading the text with the stand-in, some variable is met inside a `\u` escape. */
  predicate SplitsEscape(t: State, symbols: seq<Symbol>)
    decreases |symbols|
  {
    if symbols == [] then false
    else if symbols[0].Ch? then SplitsEscape(Step(t, symbols[0]), symbols[1..])
    else t.mode.InHex? || SplitsEscape(Run(t, Chars(SENTINEL)), symbols[1..])
  }

  lemma FilledIsTidy(fill: Filling, s: State)
    requires Tidy(s)
    ensures Tidy(FillState(fill, s))
    ensures FillState(fill, s).mode.InString? <==> s.mode.InString?
    ensures FillState(fill, s).mode.InHex? <==> s.mode.InHex?
  {
  }

  lemma RunCons(t: State, symbols: seq<Symbol>, feed: Feeding)
    requires symbols != []
    ensures symbols[0].Hole? ==>
              Run(t, Expand(symbols, feed)) == Run(Run(t, Chars(feed(symbols[0].name))), Expand(symbols[1..], feed))
    ensures symbols[0].Ch? ==> Run(t, Expand(symbols, feed)) == Run(Step(t, symbols[0]), Expand(symbols[1..], feed))
  {
    hide Step;
    var x := symbols[0];
    if x.Hole? {
      RunAppend(t, Chars(feed(x.name)), Expand(symbols[1..], feed));
    } else {
      assert ([x] + Expand(symbols[1..], feed))[1..] == Expand(symbols[1..], feed);
    }
  }

  /** Where a hole stands when the text with the stand-in is read without failing. */
  lemma HolePlace(s: State, symbols: seq<Symbol>)
    requires Tidy(s) && symbols != [] && symbols[0].Hole?
    requires !Run(FillState(Raw(STAND_IN), s), Expand(symbols, STAND_IN)).mode.Failed?
    ensures s.mode.InString? || s.mode.InHex?
  {
    hide Step, FillState, Tidy, Expand;
    var t := FillState(Raw(STAND_IN), s);
    RunCons(t, symbols, STAND_IN);
    FilledIsTidy(Raw(STAND_IN), s);
    if Run(t, Chars(SENTINEL)).mode.Failed? {
      assert Tidy(Run(t, Chars(SENTINEL))) by { RunIsTidy(t, Chars(SENTINEL)); }
      FailedFromHere(Run(t, Chars(SENTINEL)), Expand(symbols[1..], STAND_IN));
    }
    StandInPlaces(t);
  }

  lemma {:induction false} FailedFromHere(t: State, symbols: seq<Symbol>)
    requires t.mode.Failed?
    ensures Run(t, symbols).mode.Failed?
    decreases |symbols|
  {
    if symbols != [] {
      FailedFromHere(Step(t, symbols[0]), symbols[1..]);
    }
  }

  lemma {:induction false} RunIsTidy(t: State, symbols: seq<Symbol>)
    requires Tidy(t)
    ensures Tidy(Run(t, symbols))
    decreases |symbols|
  {
    hide Tidy, Step;
    if symbols != [] {
      StepIsTidy(t, symbols[0]);
      RunIsTidy(Step(t, symbols[0]), symbols[1..]);
    }
  }

  /** A text judged JSON that splits no escape is read with its holes in place. */
  lemma {:induction false} NoSplitReads(s: State, symbols: seq<Symbol>)
    requires Tidy(s)
    requires !Run(FillState(Raw(STAND_IN), s), Expand(symbols, STAND_IN)).mode.Failed?
    requires !SplitsEscape(FillState(Raw(STAND_IN), s), symbols)
    ensures !Run(s, symbols).mode.Failed?
    decreases |symbols|
  {
    assert symbols == [] ==> Expand(symbols, STAND_IN) == [];
    hide StepChar, FillText, FillStack, FillJson, Tidy, Expand, Feeds, Chars;
    if symbols != [] {
      var t, x := FillState(Raw(STAND_IN), s), symbols[0];
      RunCons(t, symbols, STAND_IN);
      StandInFeeds();
      FilledIsTidy(Raw(STAND_IN), s);
      StepIsTidy(s, x);
      if x.Hole? {
        HolePlace(s, symbols);
        StepFeeds(Raw(STAND_IN), STAND_IN, s, x);
      } else {
        CharFills(Raw(STAND_IN), s, x.c);
      }
      NoSplitReads(Step(s, x), symbols[1..]);
    }
  }

  const LETTER_Z: string -> string := _ => "Z"

  /** If some escape is split, the letter Z for every variable breaks the document. */
  lemma {:induction false} SplitBreaks(s: State, symbols: seq<Symbol>)
    requires Tidy(s)
    requires !Run(FillState(Raw(STAND_IN), s), Expand(symbols, STAND_IN)).mode.Failed?
    requires SplitsEscape(FillState(Raw(STAND_IN), s), symbols)
    ensures Run(FillState(Raw(LETTER_Z), s), Expand(symbols, Encoded(LETTER_Z))).mode.Failed?
    decreases |symbols|
  {
    hide StepChar, FillText, FillStack, FillJson, Tidy, Expand, Feeds, Chars;
    var t, z, x := FillState(Raw(STAND_IN), s), FillState(Raw(LETTER_Z), s), symbols[0];
    RunCons(t, symbols, STAND_IN);
    RunCons(z, symbols, Encoded(LETTER_Z));
    StandInFeeds();
    EncodedFeeds(LETTER_Z);
    StepIsTidy(s, x);
    if x.Ch? {
      CharFills(Raw(STAND_IN), s, x.c);
      CharFills(Raw(LETTER_Z), s, x.c);
      SplitBreaks(Step(s, x), symbols[1..]);
    } else if s.mode.InHex? {
      LetterZIsNoDigit(z);
      FailedStays(Expand(symbols[1..], Encoded(LETTER_Z)));
    } else {
      HolePlace(s, symbols);
      StepFeeds(Raw(STAND_IN), STAND_IN, s, x);
      StepFeeds(Raw(LETTER_Z), Encoded(LETTER_Z), s, x);
      SplitBreaks(Step(s, x), symbols[1..]);
    }
  }

  lemma LetterZIsNoDigit(s: State)
    requires s.mode.InHex?
    ensures Run(s, Chars(EncodeString("Z"))) == FAILED
  {
    assert EncodeString("Z") == "Z";
    RunOne(s, 'Z');
  }

  // ------------------------------------------------------- JSON stays JSON

  predicate IsContainer(j: Json) {
    j.Array? || j.Object?
  }

  /** With the stand-in for every variable, the text is a JSON object or array. */
  predicate JudgedJson(symbols: seq<Symbol>) {
    var document := ParseSymbols(Expand(symbols, STAND_IN));
    document.Some? && IsContainer(document.value)
  }

  lemma FinishNeedsNoFailure(s: State)
    requires Finish(s).Some?
    ensures !s.mode.Failed?
  {
  }

  /**
   A text judged JSON in which no variable completes a `\u` escape is a document with holes,
   and for all values the text with each value JSON-escaped is that document with the raw
   values in its strings.
   */
  lemma JsonStaysJson(symbols: seq<Symbol>, values: string -> string)
    requires JudgedJson(symbols) && !SplitsEscape(INITIAL, symbols)
    ensures ParseSymbols(symbols).Some? && IsContainer(ParseSymbols(symbols).value)
    ensures ParseSymbols(Expand(symbols, Encoded(values))) == Some(FillJson(Raw(values), ParseSymbols(symbols).value))
  {
    hide Run, Expand, FillState, Step, FillJson, Finish, SplitsEscape;
    StartFills(Raw(STAND_IN));
    StartFills(Raw(values));
    StandInFeeds();
    EncodedFeeds(values);
    FinishNeedsNoFailure(Run(INITIAL, Expand(symbols, STAND_IN)));
    NoSplitReads(INITIAL, symbols);
    var end := Run(INITIAL, symbols);
    RunFills(Raw(STAND_IN), STAND_IN, INITIAL, symbols);
    RunFills(Raw(values), Encoded(values), INITIAL, symbols);
    FinishFills(Raw(STAND_IN), end);
    FinishFills(Raw(values), end);
    FillKeepsKind(Raw(STAND_IN), Finish(end).value);
  }

  lemma FillKeepsKind(fill: Filling, j: Json)
    ensures IsContainer(FillJson(fill, j)) <==> IsContainer(j)
  {
  }

  /** The text with each value escaped is JSON. */
  ghost predicate RendersJson(symbols: seq<Symbol>, values: string -> string) {
    ParseSymbols(Expand(symbols, Encoded(values))).Some?
  }

  lemma LetterZBreaks(symbols: seq<Symbol>)
    requires JudgedJson(symbols) && SplitsEscape(INITIAL, symbols)
    ensures ParseSymbols(Expand(symbols, Encoded(LETTER_Z))).None?
  {
    hide Run, Expand, FillState, Step, FillJson, Finish, SplitsEscape;
    StartFills(Raw(STAND_IN));
    StartFills(Raw(LETTER_Z));
    FinishNeedsNoFailure(Run(INITIAL, Expand(symbols, STAND_IN)));
    SplitBreaks(INITIAL, symbols);
    FailureFinishesNothing(Run(INITIAL, Expand(symbols, Encoded(LETTER_Z))));
  }

  lemma FailureFinishesNothing(s: State)
    requires s.mode.Failed?
    ensures Finish(s).None?
  {
  }

  /** For a text judged JSON, every choice of values gives JSON exactly when no variable completes a `\u` escape. */
  lemma AlwaysJsonExactlyWhenNoEscapeIsSplit(symbols: seq<Symbol>)
    requires JudgedJson(symbols)
    ensures (forall values :: RendersJson(symbols, values)) <==> !SplitsEscape(INITIAL, symbols)
  {
    hide ParseSymbols, Expand, SplitsEscape, JudgedJson, FillJson;
    if SplitsEscape(INITIAL, symbols) {
      LetterZBreaks(symbols);
      assert !RendersJson(symbols, LETTER_Z);
    } else {
      forall values ensures RendersJson(symbols, values) {
        JsonStaysJson(symbols, values);
      }
    }
  }

  // ------------------------------------------------------- an example

  /** `["\u004${device.name}"]` */
  const SPLIT_EXAMPLE: seq<Symbol> := Chars("[\"\\u004") + ([Hole("device.name")] + Chars("\"]"))

  lemma {:induction false} SplitsLater(t: State, text: string, rest: seq<Symbol>)
    ensures SplitsEscape(t, Chars(text) + rest) == SplitsEscape(Run(t, Chars(text)), rest)
    decreases |text|
  {
    hide Step;
    if text == "" {
      assert Chars(text) + rest == rest;
    } else {
      var symbols := Chars(text) + rest;
      assert symbols[0] == Ch(text[0]) && symbols[1..] == Chars(text[1..]) + rest;
      assert Chars(text)[1..] == Chars(text[1..]);
      SplitsLater(Step(t, Ch(text[0])), text[1..], rest);
    }
  }

  lemma ExampleEscape()
    ensures Run(State(InString(false, []), [ArrayFrame([])], None), Chars("\\u004")) ==
              State(InHex(false, [], 3, 4), [ArrayFrame([])], None)
  {
    hide Run, Chars;
    assert "\\u004" == "\\u" + "004" && "004" == "00" + "4";
    assert "\\u" == ['\\', 'u'] && "00" == ['0', '0'] && "4" == ['4'];
    CharsAppend("\\u", "004");
    CharsAppend("00", "4");
    var s := State(InString(false, []), [ArrayFrame([])], None);
    RunAppend(s, Chars("\\u"), Chars("004"));
    RunTwo(s, '\\', 'u');
    var h := State(InHex(false, [], 0, 0), [ArrayFrame([])], None);
    RunAppend(h, Chars("00"), Chars("4"));
    TwoDigits(false, [], [ArrayFrame([])], 0, 0, '0', '0');
    RunOne(State(InHex(false, [], 2, 0), [ArrayFrame([])], None), '4');
  }

  lemma ExampleOpens()
    ensures Run(INITIAL, Chars("[\"\\u004")) == State(InHex(false, [], 3, 4), [ArrayFrame([])], None)
  {
    hide Run, Chars;
    ExampleEscape();
    assert "[\"\\u004" == "[\"" + "\\u004" && "[\"" == ['[', '"'];
    CharsAppend("[\"", "\\u004");
    RunAppend(INITIAL, Chars("[\""), Chars("\\u004"));
    RunTwo(INITIAL, '[', '"');
    assert INITIAL.stack + [ArrayFrame([])] == [ArrayFrame([])];
  }

  /** The stand-in's first letter ends the escape, and the rest is text. */
  lemma SentinelReads()
    ensures Run(State(InHex(false, [], 3, 4), [ArrayFrame([])], None), Chars(SENTINEL)) ==
            State(InString(false, [Char('J')] + Units("TLASVARIABLE7Q3")), [ArrayFrame([])], None)
  {
    hide Run, Chars, Units;
    var s := State(InHex(false, [], 3, 4), [ArrayFrame([])], None);
    assert SENTINEL == "A" + "TLASVARIABLE7Q3" && "A" == ['A'];
    CharsAppend("A", "TLASVARIABLE7Q3");
    RunAppend(s, Chars("A"), Chars("TLASVARIABLE7Q3"));
    RunOne(s, 'A');
    assert [] + [Char('J')] == [Char('J')] && UnitOf(4 * 16 + 10) == Char('J');
    PlainReads(false, [Char('J')], [ArrayFrame([])], "TLASVARIABLE7Q3");
  }

  lemma ClosingReads(content: Text)
    ensures Run(State(InString(false, content), [ArrayFrame([])], None), Chars("\"]")) ==
            State(AfterValue, [], Some(Array([String(content)])))
  {
    hide Run, Chars;
    var v := String(content);
    assert "\"]" == ['"', ']'];
    RunTwo(State(InString(false, content), [ArrayFrame([])], None), '"', ']');
    assert Complete([ArrayFrame([])], v) == State(AfterValue, [ArrayFrame([v])], None) by {
      assert [] + [v] == [v];
      assert [ArrayFrame([])][..0] + [ArrayFrame([] + [v])] == [ArrayFrame([v])];
    }
    assert CloseArray([ArrayFrame([v])]) == State(AfterValue, [], Some(Array([v]))) by {
      assert [ArrayFrame([v])][..0] == [];
    }
  }

  lemma ExampleCloses()
    ensures var s := State(InHex(false, [], 3, 4), [ArrayFrame([])], None);
            var document := Finish(Run(s, Chars(SENTINEL) + Chars("\"]")));
            document.Some? && document.value.Array?
  {
    hide Run, Chars, Units;
    RunAppend(State(InHex(false, [], 3, 4), [ArrayFrame([])], None), Chars(SENTINEL), Chars("\"]"));
    SentinelReads();
    ClosingReads([Char('J')] + Units("TLASVARIABLE7Q3"));
  }

  lemma {:induction false} ExpandText(text: string, rest: seq<Symbol>, feed: Feeding)
    ensures Expand(Chars(text) + rest, feed) == Chars(text) + Expand(rest, feed)
    decreases |text|
  {
    if text == "" {
      assert Chars(text) + rest == rest;
    } else {
      var symbols := Chars(text) + rest;
      assert symbols[0] == Ch(text[0]) && symbols[1..] == Chars(text[1..]) + rest;
      assert Chars(text)[1..] == Chars(text[1..]);
      ExpandText(text[1..], rest, feed);
    }
  }

  /** The condition is not empty: this text is judged JSON, and its variable completes an escape. */
  lemma SplitExample()
    ensures JudgedJson(SPLIT_EXAMPLE) && SplitsEscape(INITIAL, SPLIT_EXAMPLE)
    ensures ParseSymbols(Expand(SPLIT_EXAMPLE, Encoded(LETTER_Z))).None?
  {
    var tail := [Hole("device.name")] + Chars("\"]");
    assert Expand(tail, STAND_IN) == Chars(SENTINEL) + Chars("\"]") by {
      assert tail[1..] == Chars("\"]");
      ExpandText("\"]", [], STAND_IN);
      assert Chars("\"]") + [] == Chars("\"]");
    }
    hide Run, Expand, Finish, Chars;
    ExampleOpens();
    SplitsLater(INITIAL, "[\"\\u004", tail);
    ExpandText("[\"\\u004", tail, STAND_IN);
    RunAppend(INITIAL, Chars("[\"\\u004"), Chars(SENTINEL) + Chars("\"]"));
    ExampleCloses();
    LetterZBreaks(SPLIT_EXAMPLE);
  }
}
