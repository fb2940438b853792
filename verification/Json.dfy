/**
 JSON documents as `json.loads` reads them (RFC 8259, with NaN and the infinities), one
 character at a time, over text in which a hole may stand for characters not yet known.
 */
module Json {
  import opened Wrappers

  /** A character of the text, or a hole. */
  datatype Symbol = Ch(c: char) | Hole(name: string)

  /** A unit of a decoded string. A surrogate written as `\uXXXX` has no character of its own. */
  datatype Unit = Char(c: char) | Surrogate(code: nat) | Missing(name: string)

  type Text = seq<Unit>

  datatype Json =
    | Null
    | Bool(b: bool)
    | Number(text: string)
    | String(content: Text)
    | Array(items: seq<Json>)
    | Object(members: seq<Member>)

  datatype Member = Member(key: Text, value: Json)

  datatype Frame = ArrayFrame(items: seq<Json>) | ObjectFrame(members: seq<Member>, key: Text)

  /** How much of a number has been read. */
  datatype Phase = Minus | Zero | Digits | Dot | Fraction | ExponentMark | ExponentSign | Exponent

  datatype Mode =
    | AtValue
    | AtValueOrClose
    | AtKeyOrClose
    | AtKey
    | AtColon
    | AfterValue
    | InString(isKey: bool, content: Text)
    | InEscape(isKey: bool, content: Text)
    | InHex(isKey: bool, content: Text, count: nat, code: nat)
    | InNumber(phase: Phase, number: string)
    | InLiteral(rest: string, literal: Json)
    | Failed

  datatype State = State(mode: Mode, stack: seq<Frame>, result: Option<Json>)

  const FAILED := State(Failed, [], None)
  const INITIAL := State(AtValue, [], None)

  /** `int()` refuses longer integers. */
  const MAX_INTEGER_DIGITS: nat := 4300

  predicate IsBlank(c: char) {
    c == ' ' || c == '\t' || c == '\n' || c == '\r'
  }

  predicate IsDigit(c: char) {
    '0' <= c <= '9'
  }

  function HexDigitValue(c: char): Option<nat> {
    if IsDigit(c) then Some(c as int - '0' as int)
    else if 'a' <= c <= 'f' then Some(c as int - 'a' as int + 10)
    else if 'A' <= c <= 'F' then Some(c as int - 'A' as int + 10)
    else None
  }

  // ------------------------------------------------------------------ one character

  /** A finished value goes to the innermost open container, or is the document. */
  function Complete(stack: seq<Frame>, v: Json): State {
    if stack == [] then State(AfterValue, [], Some(v))
    else
      var outer := stack[..|stack| - 1];
      match stack[|stack| - 1]
      case ArrayFrame(items) => State(AfterValue, outer + [ArrayFrame(items + [v])], None)
      case ObjectFrame(members, key) => State(AfterValue, outer + [ObjectFrame(members + [Member(key, v)], key)], None)
  }

  function CloseArray(stack: seq<Frame>): State {
    if stack == [] || !stack[|stack| - 1].ArrayFrame? then FAILED
    else Complete(stack[..|stack| - 1], Array(stack[|stack| - 1].items))
  }

  function CloseObject(stack: seq<Frame>): State {
    if stack == [] || !stack[|stack| - 1].ObjectFrame? then FAILED
    else Complete(stack[..|stack| - 1], Object(stack[|stack| - 1].members))
  }

  function StartNumber(c: char): Phase {
    if c == '-' then Minus else if c == '0' then Zero else Digits
  }

  function StepValue(mode: Mode, stack: seq<Frame>, c: char): State {
    if IsBlank(c) then State(mode, stack, None)
    else if c == '"' then State(InString(false, []), stack, None)
    else if c == '[' then State(AtValueOrClose, stack + [ArrayFrame([])], None)
    else if c == '{' then State(AtKeyOrClose, stack + [ObjectFrame([], [])], None)
    else if c == ']' && mode == AtValueOrClose then CloseArray(stack)
    else if c == '-' || IsDigit(c) then State(InNumber(StartNumber(c), [c]), stack, None)
    else if c == 't' then State(InLiteral("rue", Bool(true)), stack, None)
    else if c == 'f' then State(InLiteral("alse", Bool(false)), stack, None)
    else if c == 'n' then State(InLiteral("ull", Null), stack, None)
    else if c == 'N' then State(InLiteral("aN", Number("NaN")), stack, None)
    else if c == 'I' then State(InLiteral("nfinity", Number("Infinity")), stack, None)
    else FAILED
  }

  function StepKey(mode: Mode, stack: seq<Frame>, c: char): State {
    if IsBlank(c) then State(mode, stack, None)
    else if c == '"' then State(InString(true, []), stack, None)
    else if c == '}' && mode == AtKeyOrClose then CloseObject(stack)
    else FAILED
  }

  function StepAfter(stack: seq<Frame>, result: Option<Json>, c: char): State {
    if IsBlank(c) then State(AfterValue, stack, result)
    else if c == ',' && stack != [] then State(if stack[|stack| - 1].ArrayFrame? then AtValue else AtKey, stack, None)
    else if c == ']' then CloseArray(stack)
    else if c == '}' then CloseObject(stack)
    else FAILED
  }

  /** The closing quote: a key waits for its value, any other string is a value. */
  function CloseString(isKey: bool, content: Text, stack: seq<Frame>): State {
    if !isKey then Complete(stack, String(content))
    else if stack == [] || !stack[|stack| - 1].ObjectFrame? then FAILED
    else State(AtColon, stack[..|stack| - 1] + [ObjectFrame(stack[|stack| - 1].members, content)], None)
  }

  function StepString(isKey: bool, content: Text, stack: seq<Frame>, c: char): State {
    if c == '"' then CloseString(isKey, content, stack)
    else if c == '\\' then State(InEscape(isKey, content), stack, None)
    else if c < ' ' then FAILED
    else State(InString(isKey, content + [Char(c)]), stack, None)
  }

  /** What a one-letter escape stands for. */
  function Escaped(c: char): Option<char> {
    if c == '"' || c == '\\' || c == '/' then Some(c)
    else if c == 'b' then Some('\U{0008}')
    else if c == 'f' then Some('\U{000C}')
    else if c == 'n' then Some('\n')
    else if c == 'r' then Some('\r')
    else if c == 't' then Some('\t')
    else None
  }

  function StepEscape(isKey: bool, content: Text, stack: seq<Frame>, c: char): State {
    if c == 'u' then State(InHex(isKey, content, 0, 0), stack, None)
    else if Escaped(c).Some? then State(InString(isKey, content + [Char(Escaped(c).value)]), stack, None)
    else FAILED
  }

  function UnitOf(code: nat): Unit {
    if code < 0xD800 || 0xE000 <= code < 0x110000 then Char(code as char) else Surrogate(code)
  }

  function StepHex(isKey: bool, content: Text, count: nat, code: nat, stack: seq<Frame>, c: char): State {
    var digit := HexDigitValue(c);
    if digit.None? then FAILED
    else if count < 3 then State(InHex(isKey, content, count + 1, code * 16 + digit.value), stack, None)
    else State(InString(isKey, content + [UnitOf(code * 16 + digit.value)]), stack, None)
  }

  function NextPhase(phase: Phase, c: char): Option<Phase> {
    if IsDigit(c) then
      match phase
      case Minus => Some(if c == '0' then Zero else Digits)
      case Zero => None
      case Digits => Some(Digits)
      case Dot => Some(Fraction)
      case Fraction => Some(Fraction)
      case ExponentMark => Some(Exponent)
      case ExponentSign => Some(Exponent)
      case Exponent => Some(Exponent)
    else if c == '.' && (phase == Zero || phase == Digits) then Some(Dot)
    else if (c == 'e' || c == 'E') && (phase == Zero || phase == Digits || phase == Fraction) then Some(ExponentMark)
    else if (c == '+' || c == '-') && phase == ExponentMark then Some(ExponentSign)
    else None
  }

  predicate NumberEnds(phase: Phase, number: string) {
    phase == Zero || phase == Fraction || phase == Exponent ||
    (phase == Digits && (if number != "" && number[0] == '-' then |number| - 1 else |number|) <= MAX_INTEGER_DIGITS)
  }

  function StepNumber(phase: Phase, number: string, stack: seq<Frame>, c: char): State {
    var next := NextPhase(phase, c);
    if next.Some? then State(InNumber(next.value, number + [c]), stack, None)
    else if phase == Minus && c == 'I' then State(InLiteral("nfinity", Number("-Infinity")), stack, None)
    else if NumberEnds(phase, number) then
      var done := Complete(stack, Number(number));
      StepAfter(done.stack, done.result, c)
    else FAILED
  }

  function StepLiteral(rest: string, literal: Json, stack: seq<Frame>, c: char): State {
    if rest == "" || rest[0] != c then FAILED
    else if |rest| == 1 then Complete(stack, literal)
    else State(InLiteral(rest[1..], literal), stack, None)
  }

  function StepChar(s: State, c: char): State {
    match s.mode
    case AtValue => StepValue(AtValue, s.stack, c)
    case AtValueOrClose => StepValue(AtValueOrClose, s.stack, c)
    case AtKeyOrClose => StepKey(AtKeyOrClose, s.stack, c)
    case AtKey => StepKey(AtKey, s.stack, c)
    case AtColon => if IsBlank(c) then s else if c == ':' then State(AtValue, s.stack, None) else FAILED
    case AfterValue => StepAfter(s.stack, s.result, c)
    case InString(isKey, content) => StepString(isKey, content, s.stack, c)
    case InEscape(isKey, content) => StepEscape(isKey, content, s.stack, c)
    case InHex(isKey, content, count, code) => StepHex(isKey, content, count, code, s.stack, c)
    case InNumber(phase, number) => StepNumber(phase, number, s.stack, c)
    case InLiteral(rest, literal) => StepLiteral(rest, literal, s.stack, c)
    case Failed => FAILED
  }

  /** A hole can only stand inside a string, between characters and whole escapes. */
  function Step(s: State, x: Symbol): State {
    match x
    case Ch(c) => StepChar(s, c)
    case Hole(name) =>
      if s.mode.InString? then State(InString(s.mode.isKey, s.mode.content + [Missing(name)]), s.stack, None)
        else FAILED
  }

  function Run(s: State, symbols: seq<Symbol>): State
    decreases |symbols|
  {
    if symbols == [] then s else Run(Step(s, symbols[0]), symbols[1..])
  }

  function Chars(text: string): (symbols: seq<Symbol>)
    ensures |symbols| == |text|
  {
    seq(|text|, i requires 0 <= i < |text| => Ch(text[i]))
  }

  /** The document read when the text ends in this state. */
  function Finish(s: State): Option<Json> {
    if s.mode.AfterValue? && s.stack == [] then s.result
    else if s.mode.InNumber? && s.stack == [] && NumberEnds(s.mode.phase, s.mode.number) then
      Some(Number(s.mode.number))
    else None
  }

  function ParseSymbols(symbols: seq<Symbol>): Option<Json> {
    Finish(Run(INITIAL, symbols))
  }

  /** `json.loads`; None is its `ValueError`. */
  function Parse(text: string): Option<Json> {
    ParseSymbols(Chars(text))
  }

  // ------------------------------------------------------------------ writing a string

  function LowerHex(d: nat): char
    requires d < 16
  {
    "0123456789abcdef"[d]
  }

  /** One character as `json.dumps(…, ensure_ascii=False)` writes it inside quotes. */
  function EncodeChar(c: char): string {
    if c == '"' then "\\\""
    else if c == '\\' then "\\\\"
    else if c == '\n' then "\\n"
    else if c == '\r' then "\\r"
    else if c == '\t' then "\\t"
    else if c == '\U{000C}' then "\\f"
    else if c == '\U{0008}' then "\\b"
    else if c < ' ' then "\\u00" + [LowerHex(c as int / 16), LowerHex(c as int % 16)]
    else [c]
  }

  /** `_json_string` */
  function EncodeString(value: string): string {
    if value == "" then "" else EncodeChar(value[0]) + EncodeString(value[1..])
  }

  // ------------------------------------------------------------------ filling holes

  type Filling = string -> Text

  function FillText(fill: Filling, t: Text): Text {
    if t == [] then []
    else (if t[0].Missing? then fill(t[0].name) else [t[0]]) + FillText(fill, t[1..])
  }

  function FillJson(fill: Filling, j: Json): Json {
    match j
    case Null => j
    case Bool(_) => j
    case Number(_) => j
    case String(t) => String(FillText(fill, t))
    case Array(items) => Array(FillItems(fill, items))
    case Object(members) => Object(FillMembers(fill, members))
  }

  function FillItems(fill: Filling, items: seq<Json>): seq<Json> {
    if items == [] then [] else [FillJson(fill, items[0])] + FillItems(fill, items[1..])
  }

  function FillMember(fill: Filling, m: Member): Member {
    Member(FillText(fill, m.key), FillJson(fill, m.value))
  }

  function FillMembers(fill: Filling, members: seq<Member>): seq<Member> {
    if members == [] then [] else [FillMember(fill, members[0])] + FillMembers(fill, members[1..])
  }

  function FillFrame(fill: Filling, f: Frame): Frame {
    match f
    case ArrayFrame(items) => ArrayFrame(FillItems(fill, items))
    case ObjectFrame(members, key) => ObjectFrame(FillMembers(fill, members), FillText(fill, key))
  }

  function FillStack(fill: Filling, stack: seq<Frame>): (r: seq<Frame>)
    ensures |r| == |stack|
  {
    seq(|stack|, i requires 0 <= i < |stack| => FillFrame(fill, stack[i]))
  }

  function FillMode(fill: Filling, m: Mode): Mode {
    match m
    case InString(isKey, content) => InString(isKey, FillText(fill, content))
    case InEscape(isKey, content) => InEscape(isKey, FillText(fill, content))
    case InHex(isKey, content, count, code) => InHex(isKey, FillText(fill, content), count, code)
    case InLiteral(rest, literal) => InLiteral(rest, FillJson(fill, literal))
    case _ => m
  }

  function FillState(fill: Filling, s: State): State {
    State(FillMode(fill, s.mode), FillStack(fill, s.stack),
          if s.result.None? then None else Some(FillJson(fill, s.result.value)))
  }
}
