/** Device variables in configuration values: scanning, checking and rendering a template. */
module Templates {
  import opened Wrappers
  import opened Json
  import opened JsonTheorems
  import opened Lists
  import opened Texts

  datatype TemplateError =
    | NeverCloses(snippet: string)
    | NotADeviceVariable(name: string)
    | NotAVariable(name: string)
    | TooLong(length: nat)
    | KeyError(name: string)

  /** Longest value one variable may contribute, and longest rendered result. */
  const MAX_VALUE: nat := 256
  const MAX_RESULT: nat := 65536

  const DEVICE_FIELDS: set<string> := {"device.name", "device.id", "device.serial", "device.model"}

  // ------------------------------------------------------------------ the syntax

  predicate StartsAt(text: string, i: nat) {
    i + 2 <= |text| && text[i] == '$' && text[i + 1] == '{'
  }

  /** `text.find("${", position)` */
  function Find(text: string, position: nat): (start: Option<nat>)
    requires position <= |text|
    ensures start.Some? ==> position <= start.value && StartsAt(text, start.value)
    ensures forall k :: position <= k < (if start.Some? then start.value else |text|) ==> !StartsAt(text, k)
    decreases |text| - position
  {
    if position == |text| then None
    else if StartsAt(text, position) then Some(position)
    else Find(text, position + 1)
  }

  predicate IsNameChar(c: char) {
    c != '{' && c != '}' && c != '$' && c != '\r' && c != '\n'
  }

  /** Where the longest run of name characters from `i` ends. */
  function NameEnd(text: string, i: nat): (end: nat)
    requires i <= |text|
    ensures i <= end <= |text|
    decreases |text| - i
  {
    if i < |text| && IsNameChar(text[i]) then NameEnd(text, i + 1) else i
  }

  /** Where a whole reference beginning at `i` ends, if there is one. */
  function ReferenceAt(text: string, i: nat): (end: Option<nat>)
    ensures end.Some? ==> StartsAt(text, i) && i + 3 <= end.value <= |text| && text[end.value - 1] == '}'
  {
    if !StartsAt(text, i) then None
    else
      var end := NameEnd(text, i + 2);
      if end < |text| && text[end] == '}' then Some(end + 1) else None
  }

  /** The name a reference from `start` to `end` holds. */
  function NameIn(text: string, start: nat, end: nat): string
    requires start + 3 <= end <= |text|
  {
    text[start + 2..end - 1]
  }

  // ------------------------------------------------------------------ names

  /** Where `str.partition` cuts. */
  function FirstDot(name: string): (dot: Option<nat>)
    ensures dot.Some? ==> dot.value < |name| && name[dot.value] == '.'
    ensures forall i :: 0 <= i < (if dot.Some? then dot.value else |name|) ==> name[i] != '.'
  {
    if name == "" then None
    else if name[0] == '.' then Some(0)
    else
      var rest := FirstDot(name[1..]);
      if rest.None? then None else Some(rest.value + 1)
  }

  predicate IsFieldChar(c: char) {
    'a' <= c <= 'z' || c == '_'
  }

  predicate IsFieldName(field: string) {
    field != "" && forall i :: 0 <= i < |field| ==> IsFieldChar(field[i])
  }

  function CheckName(name: string): Result<string, TemplateError> {
    var dot := FirstDot(name);
    if dot.None? then Err(NotAVariable(name))
    else
      var scope, field := name[..dot.value], name[dot.value + 1..];
      if scope == "device" && IsFieldName(field) then
        if name in DEVICE_FIELDS then Ok(name) else Err(NotADeviceVariable(name))
      else if scope == "attribute" && field != "" && Strip(field) == field then Ok(name)
      else Err(NotAVariable(name))
  }

  // ------------------------------------------------------------------ scanning

  /** Every variable named from `position` on, or the first thing wrong. */
  function References(text: string, position: nat): Result<seq<string>, TemplateError>
    requires position <= |text|
    decreases |text| - position
  {
    var start := Find(text, position);
    if start.None? then Ok([])
    else
      var end := ReferenceAt(text, start.value);
      if end.None? then
        Err(NeverCloses(text[start.value..if start.value + 24 <= |text| then start.value + 24 else |text|]))
      else
        var name :- CheckName(NameIn(text, start.value, end.value));
        var rest :- References(text, end.value);
        Ok([name] + rest)
  }

  function Prepend(found: seq<string>, rest: Result<seq<string>, TemplateError>): Result<seq<string>, TemplateError> {
    if rest.Ok? then Ok(found + rest.value) else rest
  }

  /** `references` */
  method ScanReferences(text: string) returns (r: Result<seq<string>, TemplateError>)
    ensures r == References(text, 0)
  {
    hide Find, ReferenceAt, CheckName;
    var found: seq<string> := [];
    var position := 0;
    PrependNone([], References(text, 0));
    var start := Find(text, position);
    while start.Some?
      invariant position <= |text| && start == Find(text, position)
      invariant Prepend(found, References(text, position)) == References(text, 0)
      decreases |text| - position
    {
      var end := ReferenceAt(text, start.value);
      if end.None? {
        return Err(NeverCloses(text[start.value..if start.value + 24 <= |text| then start.value + 24 else |text|]));
      }
      var checked := CheckName(NameIn(text, start.value, end.value));
      if checked.Err? {
        return Err(checked.error);
      }
      PrependOne(found, checked.value, References(text, end.value));
      found := found + [checked.value];
      position := end.value;
      start := Find(text, position);
    }
    PrependNone(found, Ok([]));
    return Ok(found);
  }

  lemma PrependNone(found: seq<string>, rest: Result<seq<string>, TemplateError>)
    ensures Prepend([], rest) == rest
    ensures Prepend(found, Ok([])) == Ok(found)
  {
    assert rest.Ok? ==> [] + rest.value == rest.value;
    assert found + [] == found;
  }

  lemma PrependOne(found: seq<string>, name: string, rest: Result<seq<string>, TemplateError>)
    ensures rest.Ok? ==> found + [name] + rest.value == found + ([name] + rest.value)
  {
  }

  // ------------------------------------------------------------------ rendering

  /** What the regular expression's substitution walks over: references are holes. */
  function Pieces(text: string, i: nat): seq<Symbol>
    requires i <= |text|
    decreases |text| - i
  {
    if i == |text| then []
    else
      var end := ReferenceAt(text, i);
      if end.Some? then [Hole(NameIn(text, i, end.value))] + Pieces(text, end.value)
      else [Ch(text[i])] + Pieces(text, i + 1)
  }

  predicate IsControl(c: char) {
    c as int < 0x20 || 0x7F <= c as int <= 0x9F
  }

  /** `usable` */
  function Usable(value: Option<string>): Option<string> {
    if value.None? || value.value == "" || |value.value| > MAX_VALUE then None
    else if exists i :: 0 <= i < |value.value| && IsControl(value.value[i]) then None
    else value
  }

  type Values = map<string, Option<string>>

  function ValueOf(values: Values, name: string): Option<string> {
    if name in values then Usable(values[name]) else None
  }

  function MissingFrom(names: seq<string>, resolved: map<string, Option<string>>): seq<string>
    requires forall name :: name in names ==> name in resolved
  {
    if names == [] then []
    else (if resolved[names[0]].None? then [names[0]] else []) + MissingFrom(names[1..], resolved)
  }

  /** The text with each hole looked up and encoded; a name never resolved is a `KeyError`. */
  function LookUp(symbols: seq<Symbol>, resolved: map<string, Option<string>>,
                  encode: string -> string): Result<string, TemplateError> {
    if symbols == [] then Ok("")
    else
      var piece :-
        match symbols[0]
        case Ch(c) => Ok([c])
        case Hole(name) => if name in resolved && resolved[name].Some? then Ok(encode(resolved[name].value))
          else Err(KeyError(name));
      var rest :- LookUp(symbols[1..], resolved, encode);
      Ok(piece + rest)
  }

  /** Every hole replaced by what `feed` gives for it. */
  function Substitute(symbols: seq<Symbol>, feed: Feeding): string {
    if symbols == [] then ""
    else
      (match symbols[0]
       case Ch(c) => [c]
       case Hole(name) => feed(name)) + Substitute(symbols[1..], feed)
  }

  /** `_variables_inside_json_strings` */
  predicate VariablesInsideJsonStrings(text: string) {
    var document := Parse(Substitute(Pieces(text, 0), STAND_IN));
    document.Some? && IsContainer(document.value)
  }

  function AsIs(value: string): string {
    value
  }

  function Encoder(text: string): string -> string {
    if VariablesInsideJsonStrings(text) then EncodeString else AsIs
  }

  datatype Rendered = Rendered(text: Option<string>, missing: seq<string>, error: Option<TemplateError>)

  function Broken(error: TemplateError): Rendered {
    Rendered(None, [], Some(error))
  }

  function Resolved(names: seq<string>, values: Values): (r: map<string, Option<string>>)
    ensures forall name :: name in names <==> name in r
  {
    map name | name in names :: ValueOf(values, name)
  }

  /** `dict.fromkeys` keeps each name once, where it first occurs. */
  lemma DistinctKeepsNames(names: seq<string>)
    ensures forall name :: name in Distinct(names) <==> name in names
    ensures forall i, j :: 0 <= i < j < |Distinct(names)| ==> Distinct(names)[i] != Distinct(names)[j]
  {
    hide DistinctBy, SeenBy;
    forall name ensures name in Distinct(names) <==> name in names {
      DistinctSees(names, Self, name);
      SeenIsElement(names, name);
      SeenIsElement(Distinct(names), name);
    }
    DistinctDiffers(names, Self);
  }

  /** `render` */
  function Render(text: string, values: Values): Rendered {
    if Find(text, 0).None? then Rendered(Some(text), [], None)
    else
      match References(text, 0)
      case Err(error) => Broken(error)
      case Ok(names) =>
        DistinctKeepsNames(names);
        var resolved := Resolved(names, values);
        var missing := MissingFrom(Distinct(names), resolved);
        if missing != [] then Rendered(None, missing, None)
        else
          match LookUp(Pieces(text, 0), resolved, Encoder(text))
          case Err(error) => Broken(error)
          case Ok(out) => if |out| > MAX_RESULT then Broken(TooLong(|out|)) else Rendered(Some(out), [], None)
  }
}
