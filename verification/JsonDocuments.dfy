/** Documents written out as JSON (RFC 8259), and that reading one gives it back. */
module JsonDocuments {
  import opened Wrappers
  import opened Json
  import opened JsonTheorems

  // ------------------------------------------------------- running over text

  function Read(s: State, text: string): State {
    Run(s, Chars(text))
  }

  lemma ReadAppend(s: State, a: string, b: string)
    ensures Read(s, a + b) == Read(Read(s, a), b)
  {
    hide Run;
    CharsAppend(a, b);
    RunAppend(s, Chars(a), Chars(b));
  }

  lemma ReadOne(s: State, c: char)
    ensures Read(s, [c]) == StepChar(s, c)
  {
    RunOne(s, c);
  }

  lemma ReadNothing(s: State)
    ensures Read(s, "") == s
  {
  }

  lemma ReadFirst(s: State, text: string)
    requires text != ""
    ensures Read(s, text) == Read(StepChar(s, text[0]), text[1..])
  {
    hide Read;
    assert text == [text[0]] + text[1..];
    ReadAppend(s, [text[0]], text[1..]);
    ReadOne(s, text[0]);
  }

  // ------------------------------------------------------- numbers

  /** A sign, whole digits without a leading zero, a fraction and an exponent. */
  datatype NumberText = NumberText(negative: bool, whole: string, fraction: Option<string>, exponent: Option<Power>)

  datatype Power = Power(capital: bool, sign: string, digits: string)

  predicate IsDigits(s: string) {
    s != "" && forall i :: 0 <= i < |s| ==> '0' <= s[i] <= '9'
  }

  /** Only integers of up to 4,300 digits are read. */
  predicate IsNumber(n: NumberText) {
    && IsDigits(n.whole) && (n.whole == "0" || n.whole[0] != '0')
    && (n.fraction.Some? ==> IsDigits(n.fraction.value))
    && (n.exponent.Some? ==> IsDigits(n.exponent.value.digits) && n.exponent.value.sign in ["", "+", "-"])
    && (n.fraction.None? && n.exponent.None? ==> |n.whole| <= 4300)
  }

  function WrittenPower(p: Power): string {
    [if p.capital then 'E' else 'e'] + p.sign + p.digits
  }

  function WrittenNumber(n: NumberText): string {
    (if n.negative then "-" else "") + n.whole +
    (if n.fraction.Some? then "." + n.fraction.value else "") +
    (if n.exponent.Some? then WrittenPower(n.exponent.value) else "")
  }

  /** Reading digits in a phase that digits do not leave. */
  lemma {:induction false} DigitsRead(phase: Phase, number: string, stack: seq<Frame>, digits: string)
    requires phase == Digits || phase == Fraction || phase == Exponent
    requires forall i :: 0 <= i < |digits| ==> '0' <= digits[i] <= '9'
    ensures Read(State(InNumber(phase, number), stack, None), digits) ==
            State(InNumber(phase, number + digits), stack, None)
    decreases |digits|
  {
    hide Read;
    var s := State(InNumber(phase, number), stack, None);
    if digits == "" {
      ReadNothing(s);
      assert number + digits == number;
    } else {
      ReadFirst(s, digits);
      DigitsRead(phase, number + [digits[0]], stack, digits[1..]);
      assert number + [digits[0]] + digits[1..] == number + digits;
    }
  }

  /** The whole digits, from where a value may begin. */
  lemma WholeReads(n: NumberText, mode: Mode, stack: seq<Frame>)
    requires IsNumber(n) && (mode == AtValue || mode == AtValueOrClose)
    ensures var text := (if n.negative then "-" else "") + n.whole;
            Read(State(mode, stack, None), text) ==
            State(InNumber(if n.whole == "0" then Zero else Digits, text), stack, None)
  {
    hide Read;
    var start, phase := State(mode, stack, None), if n.whole == "0" then Zero else Digits;
    var sign := if n.negative then "-" else "";
    ReadAppend(start, sign, n.whole);
    if n.negative {
      ReadOne(start, '-');
      assert Read(start, sign) == State(InNumber(Minus, "-"), stack, None);
    } else {
      ReadNothing(start);
    }
    var s := Read(start, sign);
    ReadFirst(s, n.whole);
    assert s == if n.negative then State(InNumber(Minus, "-"), stack, None) else start;
    if !n.negative {
      assert sign + [n.whole[0]] == [n.whole[0]];
    }
    assert StepChar(s, n.whole[0]) == State(InNumber(phase, sign + [n.whole[0]]), stack, None);
    assert sign + [n.whole[0]] + n.whole[1..] == sign + n.whole;
    if n.whole == "0" {
      ReadNothing(State(InNumber(phase, sign + "0"), stack, None));
    } else {
      DigitsRead(Digits, sign + [n.whole[0]], stack, n.whole[1..]);
    }
  }

  lemma FractionReads(phase: Phase, number: string, stack: seq<Frame>, digits: string)
    requires (phase == Zero || phase == Digits) && IsDigits(digits)
    ensures Read(State(InNumber(phase, number), stack, None), "." + digits) ==
            State(InNumber(Fraction, number + ("." + digits)), stack, None)
  {
    hide Read;
    var s, text := State(InNumber(phase, number), stack, None), "." + digits;
    ReadFirst(s, text);
    assert text[0] == '.' && text[1..] == digits;
    var dot := State(InNumber(Dot, number + ['.']), stack, None);
    assert StepChar(s, '.') == dot;
    ReadFirst(dot, digits);
    assert StepChar(dot, digits[0]) == State(InNumber(Fraction, number + ['.'] + [digits[0]]), stack, None);
    DigitsRead(Fraction, number + ['.'] + [digits[0]], stack, digits[1..]);
    assert number + ['.'] + [digits[0]] + digits[1..] == number + ("." + digits);
  }

  lemma PowerReads(phase: Phase, number: string, stack: seq<Frame>, p: Power)
    requires (phase == Zero || phase == Digits || phase == Fraction) && IsDigits(p.digits) && p.sign in ["", "+", "-"]
    ensures Read(State(InNumber(phase, number), stack, None), WrittenPower(p)) ==
            State(InNumber(Exponent, number + WrittenPower(p)), stack, None)
  {
    hide Read;
    var s, mark := State(InNumber(phase, number), stack, None), [if p.capital then 'E' else 'e'];
    ReadAppend(s, mark + p.sign, p.digits);
    ReadAppend(s, mark, p.sign);
    ReadOne(s, mark[0]);
    var marked := State(InNumber(ExponentMark, number + mark), stack, None);
    assert Read(s, mark) == marked;
    var signed := Read(marked, p.sign);
    if p.sign == "" {
      ReadNothing(marked);
      assert number + mark + p.sign == number + mark;
    } else {
      ReadOne(marked, p.sign[0]);
    }
    var after := if p.sign == "" then ExponentMark else ExponentSign;
    assert signed == State(InNumber(after, number + mark + p.sign), stack, None);
    ReadFirst(signed, p.digits);
    DigitsRead(Exponent, number + mark + p.sign + [p.digits[0]], stack, p.digits[1..]);
    assert number + mark + p.sign + [p.digits[0]] + p.digits[1..] == number + (mark + p.sign + p.digits);
  }

  /** A written number is read up to its end, where it may end. */
  lemma NumberReads(n: NumberText, mode: Mode, stack: seq<Frame>) returns (phase: Phase)
    requires IsNumber(n) && (mode == AtValue || mode == AtValueOrClose)
    ensures Read(State(mode, stack, None), WrittenNumber(n)) == State(InNumber(phase, WrittenNumber(n)), stack, None)
    ensures NumberEnds(phase, WrittenNumber(n))
  {
    hide Read;
    var start, whole := State(mode, stack, None), (if n.negative then "-" else "") + n.whole;
    var fraction := if n.fraction.Some? then "." + n.fraction.value else "";
    var power := if n.exponent.Some? then WrittenPower(n.exponent.value) else "";
    WholeReads(n, mode, stack);
    ReadAppend(start, whole + fraction, power);
    ReadAppend(start, whole, fraction);
    phase := if n.whole == "0" then Zero else Digits;
    if n.fraction.Some? {
      FractionReads(phase, whole, stack, n.fraction.value);
      phase := Fraction;
    } else {
      ReadNothing(State(InNumber(phase, whole), stack, None));
      assert whole + fraction == whole;
    }
    if n.exponent.Some? {
      PowerReads(phase, whole + fraction, stack, n.exponent.value);
      phase := Exponent;
    } else {
      ReadNothing(State(InNumber(phase, whole + fraction), stack, None));
      assert whole + fraction + power == whole + fraction;
    }
    assert n.whole[0] != '-';
  }

  // ------------------------------------------------------- strings

  /** A character as it stands, a one-letter escape, or `\\u` with four hexadecimal digits. */
  datatype Spelled = Plain(c: char) | Short(letter: char) | Hex(digits: seq<HexDigit>)

  datatype HexDigit = HexDigit(value: nat, capital: bool)

  predicate IsSpelled(u: Spelled) {
    match u
    case Plain(c) => ' ' <= c && c != '"' && c != '\\'
    case Short(letter) => letter in "\"\\/bfnrt"
    case Hex(digits) => |digits| == 4 && forall i :: 0 <= i < 4 ==> digits[i].value < 16
  }

  function WrittenDigit(d: HexDigit): char
    requires d.value < 16
  {
    if d.capital then "0123456789ABCDEF"[d.value] else "0123456789abcdef"[d.value]
  }

  function WrittenUnit(u: Spelled): string
    requires IsSpelled(u)
  {
    match u
    case Plain(c) => [c]
    case Short(letter) => ['\\', letter]
    case Hex(ds) => "\\u" + [WrittenDigit(ds[0]), WrittenDigit(ds[1]), WrittenDigit(ds[2]), WrittenDigit(ds[3])]
  }

  /** A surrogate half has no character of its own. */
  function UnitMeant(u: Spelled): Unit
    requires IsSpelled(u)
  {
    match u
    case Plain(c) => Char(c)
    case Short(letter) =>
      Char(match letter case 'b' => '\U{0008}' case 'f' => '\U{000C}' case 'n' => '\n' case 'r' => '\r' case 't' => '\t'
           case _ => letter)
    case Hex(ds) =>
      var code := 4096 * ds[0].value + 256 * ds[1].value + 16 * ds[2].value + ds[3].value;
      if 0xD800 <= code <= 0xDFFF then Surrogate(code) else Char(code as char)
  }

  predicate AreSpelled(units: seq<Spelled>) {
    forall i :: 0 <= i < |units| ==> IsSpelled(units[i])
  }

  function WrittenUnits(units: seq<Spelled>): string
    requires AreSpelled(units)
  {
    if units == [] then "" else WrittenUnit(units[0]) + WrittenUnits(units[1..])
  }

  function UnitsMeant(units: seq<Spelled>): Text
    requires AreSpelled(units)
  {
    seq(|units|, i requires 0 <= i < |units| => UnitMeant(units[i]))
  }

  lemma HexDigitReads(d: HexDigit)
    requires d.value < 16
    ensures HexDigitValue(WrittenDigit(d)) == Some(d.value)
  {
  }

  lemma DigitOfHexReads(isKey: bool, content: Text, stack: seq<Frame>, count: nat, code: nat, text: string)
    requires count < 3 && text != "" && HexDigitValue(text[0]).Some?
    ensures Read(State(InHex(isKey, content, count, code), stack, None), text) ==
            Read(State(InHex(isKey, content, count + 1, code * 16 + HexDigitValue(text[0]).value), stack, None),
                 text[1..])
  {
    hide Read;
    ReadFirst(State(InHex(isKey, content, count, code), stack, None), text);
  }

  lemma FourDigitsRead(isKey: bool, content: Text, stack: seq<Frame>, ds: seq<HexDigit>, text: string)
    requires IsSpelled(Hex(ds)) && |text| == 4
    requires forall i :: 0 <= i < 4 ==> HexDigitValue(text[i]) == Some(ds[i].value)
    ensures Read(State(InHex(isKey, content, 0, 0), stack, None), text) ==
            State(InString(isKey, content + [UnitMeant(Hex(ds))]), stack, None)
  {
    hide Read, HexDigitValue;
    DigitOfHexReads(isKey, content, stack, 0, 0, text);
    DigitOfHexReads(isKey, content, stack, 1, ds[0].value, text[1..]);
    DigitOfHexReads(isKey, content, stack, 2, ds[0].value * 16 + ds[1].value, text[2..]);
    assert text[1..][1..] == text[2..] && text[2..][1..] == text[3..];
    var code := (ds[0].value * 16 + ds[1].value) * 16 + ds[2].value;
    ReadFirst(State(InHex(isKey, content, 3, code), stack, None), text[3..]);
    assert text[3..][1..] == "";
    ReadNothing(State(InString(isKey, content + [UnitOf(code * 16 + ds[3].value)]), stack, None));
  }

  lemma HexReads(isKey: bool, content: Text, stack: seq<Frame>, ds: seq<HexDigit>)
    requires IsSpelled(Hex(ds))
    ensures Read(State(InString(isKey, content), stack, None), WrittenUnit(Hex(ds))) ==
            State(InString(isKey, content + [UnitMeant(Hex(ds))]), stack, None)
  {
    hide Read;
    var s0, text := State(InString(isKey, content), stack, None), WrittenUnit(Hex(ds));
    ReadFirst(s0, text);
    ReadFirst(State(InEscape(isKey, content), stack, None), text[1..]);
    assert text[1..][1..] == text[2..];
    forall i: nat | i < 4 ensures HexDigitValue(text[2..][i]) == Some(ds[i].value) {
      HexDigitReads(ds[i]);
    }
    hide StepChar, HexDigitValue;
    FourDigitsRead(isKey, content, stack, ds, text[2..]);
  }

  lemma UnitReads(isKey: bool, content: Text, stack: seq<Frame>, u: Spelled)
    requires IsSpelled(u)
    ensures Read(State(InString(isKey, content), stack, None), WrittenUnit(u)) ==
            State(InString(isKey, content + [UnitMeant(u)]), stack, None)
  {
    hide Read;
    var s, text := State(InString(isKey, content), stack, None), WrittenUnit(u);
    match u
    case Plain(c) => ReadOne(s, c);
    case Short(letter) =>
      ReadFirst(s, text);
      assert text[1..] == [letter];
      ReadOne(State(InEscape(isKey, content), stack, None), letter);
    case Hex(ds) => HexReads(isKey, content, stack, ds);
  }

  lemma {:induction false} UnitsRead(isKey: bool, content: Text, stack: seq<Frame>, units: seq<Spelled>)
    requires AreSpelled(units)
    ensures Read(State(InString(isKey, content), stack, None), WrittenUnits(units)) ==
            State(InString(isKey, content + UnitsMeant(units)), stack, None)
    decreases |units|
  {
    hide Read;
    var s := State(InString(isKey, content), stack, None);
    if units == [] {
      ReadNothing(s);
      assert content + UnitsMeant(units) == content;
    } else {
      ReadAppend(s, WrittenUnit(units[0]), WrittenUnits(units[1..]));
      UnitReads(isKey, content, stack, units[0]);
      UnitsRead(isKey, content + [UnitMeant(units[0])], stack, units[1..]);
      assert content + [UnitMeant(units[0])] + UnitsMeant(units[1..]) == content + UnitsMeant(units);
    }
  }

  function Quoted(units: seq<Spelled>): string
    requires AreSpelled(units)
  {
    "\"" + WrittenUnits(units) + "\""
  }

  lemma QuotedReads(s: State, isKey: bool, units: seq<Spelled>)
    requires AreSpelled(units) && StepChar(s, '"') == State(InString(isKey, []), s.stack, None)
    ensures Read(s, Quoted(units)) == CloseString(isKey, UnitsMeant(units), s.stack)
  {
    hide Read;
    ReadAppend(s, "\"" + WrittenUnits(units), "\"");
    ReadAppend(s, "\"", WrittenUnits(units));
    ReadOne(s, '"');
    UnitsRead(isKey, [], s.stack, units);
    assert [] + UnitsMeant(units) == UnitsMeant(units);
    ReadOne(State(InString(isKey, UnitsMeant(units)), s.stack, None), '"');
  }

  // ------------------------------------------------------- documents

  /** The grammar's values, with the numbers that `json.loads` adds to it. */
  datatype Document =
    | NullWord
    | TrueWord
    | FalseWord
    | NotANumber
    | Infinite(negative: bool)
    | Numeral(number: NumberText)
    | Words(units: seq<Spelled>)
    | NoItems(blanks: string)
    | Items(items: seq<Spaced>)
    | NoPairs(blanks: string)
    | Pairs(pairs: seq<Pair>)

  /** A value with the blanks around it. */
  datatype Spaced = Spaced(before: string, core: Document, after: string)

  datatype Pair = Pair(before: string, key: seq<Spelled>, after: string, value: Spaced)

  predicate AreBlanks(w: string) {
    forall i :: 0 <= i < |w| ==> w[i] in " \t\n\r"
  }

  predicate IsSpaced(v: Spaced) {
    AreBlanks(v.before) && IsDocument(v.core) && AreBlanks(v.after)
  }

  predicate IsPair(p: Pair) {
    AreBlanks(p.before) && AreSpelled(p.key) && AreBlanks(p.after) && IsSpaced(p.value)
  }

  predicate IsDocument(d: Document) {
    match d
    case Numeral(n) => IsNumber(n)
    case Words(units) => AreSpelled(units)
    case NoItems(blanks) => AreBlanks(blanks)
    case Items(items) => items != [] && forall i :: 0 <= i < |items| ==> IsSpaced(items[i])
    case NoPairs(blanks) => AreBlanks(blanks)
    case Pairs(pairs) => pairs != [] && forall i :: 0 <= i < |pairs| ==> IsPair(pairs[i])
    case _ => true
  }

  function Written(v: Spaced): string
    requires IsSpaced(v)
  {
    v.before + WrittenCore(v.core) + v.after
  }

  function WrittenCore(d: Document): string
    requires IsDocument(d)
  {
    match d
    case NullWord => "null"
    case TrueWord => "true"
    case FalseWord => "false"
    case NotANumber => "NaN"
    case Infinite(negative) => if negative then "-Infinity" else "Infinity"
    case Numeral(n) => WrittenNumber(n)
    case Words(units) => Quoted(units)
    case NoItems(blanks) => "[" + blanks + "]"
    case Items(items) => "[" + WrittenItems(items) + "]"
    case NoPairs(blanks) => "{" + blanks + "}"
    case Pairs(pairs) => "{" + WrittenPairs(pairs) + "}"
  }

  function WrittenItems(items: seq<Spaced>): string
    requires items != [] && forall i :: 0 <= i < |items| ==> IsSpaced(items[i])
  {
    Written(items[0]) + if |items| == 1 then "" else "," + WrittenItems(items[1..])
  }

  function WrittenPair(p: Pair): string
    requires IsPair(p)
  {
    p.before + Quoted(p.key) + p.after + ":" + Written(p.value)
  }

  function WrittenPairs(pairs: seq<Pair>): string
    requires pairs != [] && forall i :: 0 <= i < |pairs| ==> IsPair(pairs[i])
  {
    WrittenPair(pairs[0]) + if |pairs| == 1 then "" else "," + WrittenPairs(pairs[1..])
  }

  function Meaning(d: Document): Json
    requires IsDocument(d)
  {
    match d
    case NullWord => Null
    case TrueWord => Bool(true)
    case FalseWord => Bool(false)
    case NotANumber => Number("NaN")
    case Infinite(negative) => Number(if negative then "-Infinity" else "Infinity")
    case Numeral(n) => Number(WrittenNumber(n))
    case Words(units) => String(UnitsMeant(units))
    case NoItems(_) => Array([])
    case Items(items) => Array(ItemsMeant(items))
    case NoPairs(_) => Object([])
    case Pairs(pairs) => Object(PairsMeant(pairs))
  }

  function ValueMeant(v: Spaced): Json
    requires IsSpaced(v)
  {
    Meaning(v.core)
  }

  function PairMeant(p: Pair): Member
    requires IsPair(p)
  {
    Member(UnitsMeant(p.key), ValueMeant(p.value))
  }

  function ItemsMeant(items: seq<Spaced>): seq<Json>
    requires forall i :: 0 <= i < |items| ==> IsSpaced(items[i])
  {
    seq(|items|, i requires 0 <= i < |items| => ValueMeant(items[i]))
  }

  function PairsMeant(pairs: seq<Pair>): seq<Member>
    requires forall i :: 0 <= i < |pairs| ==> IsPair(pairs[i])
  {
    seq(|pairs|, i requires 0 <= i < |pairs| => PairMeant(pairs[i]))
  }

  // ------------------------------------------------------- reading a document

  /** A value has been read; a number may still be waiting for the character after it. */
  predicate Reached(s: State, stack: seq<Frame>, j: Json) {
    || s == Complete(stack, j)
    || (s.mode.InNumber? && s.mode.phase != Minus && s.stack == stack && j == Number(s.mode.number) &&
        NumberEnds(s.mode.phase, s.mode.number))
  }

  /** Whatever may follow a value finds it complete. */
  lemma ReachedThen(s: State, stack: seq<Frame>, j: Json, c: char)
    requires Reached(s, stack, j) && c in " \t\n\r,]}"
    ensures StepChar(s, c) == StepChar(Complete(stack, j), c)
  {
  }

  lemma {:induction false} BlanksAfter(s: State, stack: seq<Frame>, j: Json, w: string)
    requires Reached(s, stack, j) && AreBlanks(w)
    ensures Reached(Read(s, w), stack, j)
    decreases |w|
  {
    hide Read;
    if w == "" {
      ReadNothing(s);
    } else {
      ReadFirst(s, w);
      ReachedThen(s, stack, j, w[0]);
      BlanksAfter(StepChar(s, w[0]), stack, j, w[1..]);
    }
  }

  /** Where blanks change nothing. */
  predicate IgnoresBlanks(s: State) {
    s.result == None && (s.mode == AtValue || s.mode == AtValueOrClose || s.mode == AtKey || s.mode == AtKeyOrClose ||
                         s.mode == AtColon)
  }

  lemma {:induction false} BlanksBefore(s: State, w: string)
    requires IgnoresBlanks(s) && AreBlanks(w)
    ensures Read(s, w) == s
    decreases |w|
  {
    hide Read;
    if w == "" {
      ReadNothing(s);
    } else {
      ReadFirst(s, w);
      BlanksBefore(s, w[1..]);
    }
  }

  lemma {:induction false} LiteralReads(rest: string, literal: Json, stack: seq<Frame>)
    requires rest != ""
    ensures Read(State(InLiteral(rest, literal), stack, None), rest) == Complete(stack, literal)
    decreases |rest|
  {
    hide Read;
    var s := State(InLiteral(rest, literal), stack, None);
    ReadFirst(s, rest);
    if |rest| == 1 {
      assert rest[1..] == "";
      ReadNothing(Complete(stack, literal));
    } else {
      LiteralReads(rest[1..], literal, stack);
    }
  }

  /** A word that its first character announces. */
  lemma WordReads(s: State, word: string, literal: Json)
    requires |word| > 1 && StepChar(s, word[0]) == State(InLiteral(word[1..], literal), s.stack, None)
    ensures Read(s, word) == Complete(s.stack, literal)
  {
    hide Read;
    ReadFirst(s, word);
    LiteralReads(word[1..], literal, s.stack);
  }

  lemma InfinityReads(s: State, negative: bool)
    requires s.mode == AtValue || s.mode == AtValueOrClose
    ensures Read(s, WrittenCore(Infinite(negative))) == Complete(s.stack, Meaning(Infinite(negative)))
  {
    hide Read;
    if negative {
      var minus := State(InNumber(Minus, "-"), s.stack, None);
      ReadFirst(s, "-Infinity");
      assert StepChar(s, '-') == minus;
      assert "-Infinity"[1..] == "Infinity";
      WordReads(minus, "Infinity", Number("-Infinity"));
    } else {
      WordReads(s, "Infinity", Number("Infinity"));
    }
  }

  /** Where a value may begin. */
  predicate Opens(s: State) {
    (s.mode == AtValue || s.mode == AtValueOrClose) && s.result == None
  }

  lemma {:induction false} ValueReads(v: Spaced, s: State)
    requires IsSpaced(v) && Opens(s)
    ensures Reached(Read(s, Written(v)), s.stack, ValueMeant(v))
    decreases v, 1
  {
    hide Read, Reached;
    ReadAppend(s, v.before + WrittenCore(v.core), v.after);
    ReadAppend(s, v.before, WrittenCore(v.core));
    BlanksBefore(s, v.before);
    CoreReads(v.core, s);
    BlanksAfter(Read(s, WrittenCore(v.core)), s.stack, ValueMeant(v), v.after);
  }

  lemma {:induction false} CoreReads(d: Document, s: State)
    requires IsDocument(d) && Opens(s)
    ensures Reached(Read(s, WrittenCore(d)), s.stack, Meaning(d))
    ensures !d.Numeral? ==> Read(s, WrittenCore(d)) == Complete(s.stack, Meaning(d))
    decreases d, 0
  {
    hide Read, Complete, WrittenNumber, Quoted;
    match d
    case NullWord => WordReads(s, "null", Null);
    case TrueWord => WordReads(s, "true", Bool(true));
    case FalseWord => WordReads(s, "false", Bool(false));
    case NotANumber => WordReads(s, "NaN", Number("NaN"));
    case Infinite(negative) => InfinityReads(s, negative);
    case Numeral(n) => NumeralReads(n, s);
    case Words(units) => QuotedReads(s, false, units);
    case NoItems(blanks) => BracketsClose(s); NothingReads(s, '[', blanks, ']');
    case Items(items) => ArrayReads(items, s);
    case NoPairs(blanks) => BracketsClose(s); NothingReads(s, '{', blanks, '}');
    case Pairs(pairs) => ObjectReads(pairs, s);
  }

  lemma {:induction false} ArrayReads(items: seq<Spaced>, s: State)
    requires IsDocument(Items(items)) && Opens(s)
    ensures Read(s, WrittenCore(Items(items))) == Complete(s.stack, Array(ItemsMeant(items)))
    decreases items, 5
  {
    hide Read, Complete, WrittenItems;
    var inside := State(AtValueOrClose, s.stack + [ArrayFrame([])], None);
    ReadOpened(s, '[', WrittenItems(items) + "]", inside);
    assert WrittenCore(Items(items)) == "[" + (WrittenItems(items) + "]");
    ItemsRead(items, inside, s.stack, []);
    assert [] + ItemsMeant(items) == ItemsMeant(items);
  }

  lemma {:induction false} ObjectReads(pairs: seq<Pair>, s: State)
    requires IsDocument(Pairs(pairs)) && Opens(s)
    ensures Read(s, WrittenCore(Pairs(pairs))) == Complete(s.stack, Object(PairsMeant(pairs)))
    decreases pairs, 5
  {
    hide Read, Complete, WrittenPairs;
    var inside := State(AtKeyOrClose, s.stack + [ObjectFrame([], [])], None);
    ReadOpened(s, '{', WrittenPairs(pairs) + "}", inside);
    assert WrittenCore(Pairs(pairs)) == "{" + (WrittenPairs(pairs) + "}");
    PairsRead(pairs, inside, s.stack, [], []);
    assert [] + PairsMeant(pairs) == PairsMeant(pairs);
  }

  lemma NumeralReads(n: NumberText, s: State)
    requires IsNumber(n) && Opens(s)
    ensures Reached(Read(s, WrittenNumber(n)), s.stack, Number(WrittenNumber(n)))
  {
    hide Read, WrittenNumber;
    var phase := NumberReads(n, s.mode, s.stack);
    assert phase != Minus;
  }

  lemma ReadOpened(s: State, open: char, text: string, inside: State)
    requires StepChar(s, open) == inside
    ensures Read(s, [open] + text) == Read(inside, text)
  {
    hide Read;
    ReadAppend(s, [open], text);
    ReadOne(s, open);
  }

  /** An array or object with nothing in it. */
  lemma NothingReads(s: State, open: char, blanks: string, close: char)
    requires AreBlanks(blanks) && IgnoresBlanks(StepChar(s, open))
    ensures Read(s, [open] + blanks + [close]) == StepChar(StepChar(s, open), close)
  {
    hide Read, StepChar;
    var inside := StepChar(s, open);
    assert [open] + blanks + [close] == [open] + (blanks + [close]);
    ReadOpened(s, open, blanks + [close], inside);
    ReadAppend(inside, blanks, [close]);
    BlanksBefore(inside, blanks);
    ReadOne(inside, close);
  }

  lemma BracketsClose(s: State)
    requires Opens(s)
    ensures IgnoresBlanks(StepChar(s, '[')) && StepChar(StepChar(s, '['), ']') == Complete(s.stack, Array([]))
    ensures IgnoresBlanks(StepChar(s, '{')) && StepChar(StepChar(s, '{'), '}') == Complete(s.stack, Object([]))
  {
    hide Complete;
    assert (s.stack + [ArrayFrame([])])[..|s.stack|] == s.stack;
    assert (s.stack + [ObjectFrame([], [])])[..|s.stack|] == s.stack;
  }

  /** An item is kept, and a comma or the end of the array may follow it. */
  lemma ItemCompletes(stack: seq<Frame>, done: seq<Json>, value: Json)
    ensures var complete := Complete(stack + [ArrayFrame(done)], value);
            StepChar(complete, ',') == State(AtValue, stack + [ArrayFrame(done + [value])], None) &&
            StepChar(complete, ']') == Complete(stack, Array(done + [value]))
  {
    var inner := stack + [ArrayFrame(done)];
    assert inner[..|inner| - 1] == stack;
    var closed := stack + [ArrayFrame(done + [value])];
    assert closed[..|stack|] == stack;
  }

  lemma {:induction false} ItemsRead(items: seq<Spaced>, s: State, stack: seq<Frame>, done: seq<Json>)
    requires IsDocument(Items(items)) && Opens(s) && s.stack == stack + [ArrayFrame(done)]
    ensures Read(s, WrittenItems(items) + "]") == Complete(stack, Array(done + ItemsMeant(items)))
    decreases items, 4
  {
    hide Read, Reached, Complete, WrittenCore;
    var first, value := Written(items[0]), ValueMeant(items[0]);
    ValueReads(items[0], s);
    var read := Read(s, first);
    ItemCompletes(stack, done, value);
    if |items| == 1 {
      assert WrittenItems(items) + "]" == first + "]";
      ReadAppend(s, first, "]");
      ReadOne(read, ']');
      ReachedThen(read, s.stack, value, ']');
      assert ItemsMeant(items) == [value];
    } else {
      var rest := WrittenItems(items[1..]) + "]";
      assert WrittenItems(items) + "]" == first + ("," + rest);
      ReadAppend(s, first, "," + rest);
      ReachedThen(read, s.stack, value, ',');
      var next := State(AtValue, stack + [ArrayFrame(done + [value])], None);
      ReadOpened(read, ',', rest, next);
      ItemsRead(items[1..], next, stack, done + [value]);
      assert done + [value] + ItemsMeant(items[1..]) == done + ItemsMeant(items);
    }
  }

  /** A key, its colon and the value after it. */
  lemma {:induction false} PairReads(p: Pair, s: State, stack: seq<Frame>, done: seq<Member>, last: Text)
    requires IsPair(p) && OpensKey(s) && s.stack == stack + [ObjectFrame(done, last)]
    ensures Reached(Read(s, WrittenPair(p)), stack + [ObjectFrame(done, UnitsMeant(p.key))], ValueMeant(p.value))
    decreases p, 2
  {
    hide Read, Reached;
    var inner := stack + [ObjectFrame(done, UnitsMeant(p.key))];
    KeyReads(p, s, stack, done, last);
    ReadAppend(s, p.before + Quoted(p.key) + p.after + ":", Written(p.value));
    ValueReads(p.value, State(AtValue, inner, None));
  }

  predicate OpensKey(s: State) {
    (s.mode == AtKey || s.mode == AtKeyOrClose) && s.result == None
  }

  lemma KeyReads(p: Pair, s: State, stack: seq<Frame>, done: seq<Member>, last: Text)
    requires IsPair(p) && OpensKey(s) && s.stack == stack + [ObjectFrame(done, last)]
    ensures Read(s, p.before + Quoted(p.key) + p.after + ":") ==
            State(AtValue, stack + [ObjectFrame(done, UnitsMeant(p.key))], None)
  {
    hide Read;
    var colon := State(AtColon, stack + [ObjectFrame(done, UnitsMeant(p.key))], None);
    ReadAppend(s, p.before + Quoted(p.key) + p.after, ":");
    ReadAppend(s, p.before + Quoted(p.key), p.after);
    ReadAppend(s, p.before, Quoted(p.key));
    BlanksBefore(s, p.before);
    QuotedReads(s, true, p.key);
    assert s.stack[..|s.stack| - 1] == stack;
    assert Read(s, Quoted(p.key)) == colon;
    BlanksBefore(colon, p.after);
    ReadOne(colon, ':');
  }

  /** A member is kept, and a comma or the end of the object may follow it. */
  lemma PairCompletes(stack: seq<Frame>, done: seq<Member>, key: Text, value: Json)
    ensures var more, complete := done + [Member(key, value)], Complete(stack + [ObjectFrame(done, key)], value);
            StepChar(complete, ',') == State(AtKey, stack + [ObjectFrame(more, key)], None) &&
            StepChar(complete, '}') == Complete(stack, Object(more))
  {
    var inner := stack + [ObjectFrame(done, key)];
    assert inner[..|inner| - 1] == stack;
    var closed := stack + [ObjectFrame(done + [Member(key, value)], key)];
    assert closed[..|stack|] == stack;
  }

  lemma {:induction false} PairsRead(pairs: seq<Pair>, s: State, stack: seq<Frame>, done: seq<Member>, last: Text)
    requires IsDocument(Pairs(pairs)) && OpensKey(s) && s.stack == stack + [ObjectFrame(done, last)]
    ensures Read(s, WrittenPairs(pairs) + "}") == Complete(stack, Object(done + PairsMeant(pairs)))
    decreases pairs, 4
  {
    hide Read, Reached, Complete, WrittenPair;
    var p := pairs[0];
    var first, key, value := WrittenPair(p), UnitsMeant(p.key), ValueMeant(p.value);
    PairReads(p, s, stack, done, last);
    var read, inner := Read(s, first), stack + [ObjectFrame(done, key)];
    var more := done + [Member(key, value)];
    PairCompletes(stack, done, key, value);
    if |pairs| == 1 {
      assert WrittenPairs(pairs) + "}" == first + "}";
      ReadAppend(s, first, "}");
      ReadOne(read, '}');
      ReachedThen(read, inner, value, '}');
      assert PairsMeant(pairs) == [Member(key, value)];
    } else {
      var rest := WrittenPairs(pairs[1..]) + "}";
      assert WrittenPairs(pairs) + "}" == first + ("," + rest);
      ReadAppend(s, first, "," + rest);
      ReachedThen(read, inner, value, ',');
      var next := State(AtKey, stack + [ObjectFrame(more, key)], None);
      ReadOpened(read, ',', rest, next);
      PairsRead(pairs[1..], next, stack, more, key);
      assert more + PairsMeant(pairs[1..]) == done + PairsMeant(pairs);
    }
  }

  /** Every document reads back as what it means, whatever the blanks between its tokens. */
  lemma WrittenDocumentIsRead(v: Spaced)
    requires IsSpaced(v)
    ensures Parse(Written(v)) == Some(ValueMeant(v))
  {
    ValueReads(v, INITIAL);
  }
}
