/** Android binary XML: start elements with their attributes and depth, in document order. */
module Axml {
  import opened Wrappers
  import opened Bytes
  import opened StringPools

  const RES_XML: nat := 0x0003
  const RES_XML_RESOURCE_MAP: nat := 0x0180
  const RES_XML_START_ELEMENT: nat := 0x0102
  const RES_XML_END_ELEMENT: nat := 0x0103
  const TYPE_REFERENCE: nat := 0x01
  const TYPE_STRING: nat := 0x03
  const TYPE_INT_DEC: nat := 0x10
  const TYPE_INT_HEX: nat := 0x11
  const TYPE_INT_BOOLEAN: nat := 0x12
  const NO_INDEX: nat := 0xFFFF_FFFF
  const ANDROID_NAMESPACE := "http://schemas.android.com/apk/res/android"

  /** Truncated stands for `struct.error` and `IndexError`, which `parse_elements` turns into `AxmlError`. */
  datatype AxmlError = TooSmall | NotXml | BadPool(cause: PoolError) | Truncated

  datatype Value = Text(text: string) | Number(number: nat)

  /** A Python dict: keys are distinct and keep the order they were first set in. */
  type Attributes = seq<(string, Value)>

  datatype Element = Element(name: string, attributes: Attributes, depth: int)

  /** What one chunk says about the document's shape. */
  datatype Event = Start(name: string, attributes: Attributes) | End

  predicate HasKey(attributes: Attributes, key: string) {
    exists i :: 0 <= i < |attributes| && attributes[i].0 == key
  }

  /** `dict.setdefault` */
  function SetDefault(attributes: Attributes, key: string, value: Value): Attributes {
    if HasKey(attributes, key) then attributes else attributes + [(key, value)]
  }

  /** `ATTRIBUTE_RESOURCE_IDS.get(id, "")` */
  function WellKnownName(id: nat): string {
    match id
    case 0x0101020C => "minSdkVersion"
    case 0x01010270 => "targetSdkVersion"
    case 0x0101021B => "versionCode"
    case 0x0101021C => "versionName"
    case 0x01010001 => "label"
    case 0x01010003 => "name"
    case 0x01010572 => "compileSdkVersion"
    case _ => ""
  }

  function HexDigit(d: nat): char
    requires d < 16
  {
    "0123456789abcdef"[d]
  }

  function Hex(n: nat, digits: nat): (s: string)
    ensures |s| == digits
  {
    if digits == 0 then "" else Hex(n / 16, digits - 1) + [HexDigit(n % 16)]
  }

  /** `f"@{value:#010x}"` */
  function ReferenceText(id: nat): (s: string)
    ensures s != "" && s[0] == '@'
  {
    "@0x" + Hex(id, 8)
  }

  /** `_decode_value` */
  function DecodeValue(strings: seq<string>, dataType: nat, value: nat, raw: nat): Option<Value> {
    if dataType == TYPE_STRING then Some(Text(StringAt(strings, if value != NO_INDEX then value else raw)))
    else if dataType == TYPE_INT_DEC || dataType == TYPE_INT_HEX then Some(Number(value))
    else if dataType == TYPE_INT_BOOLEAN then Some(Number(if value != 0 then 1 else 0))
    else if dataType == TYPE_REFERENCE then Some(Text(ReferenceText(value)))
    else if raw != NO_INDEX then Some(Text(StringAt(strings, raw)))
    else None
  }

  /** The name of the attribute at `base`: from the pool, else from its resource id. */
  function AttributeKey(data: bytes, base: nat, strings: seq<string>, ids: seq<nat>): string
    requires base + 20 <= |data|
  {
    var index := U32At(data, base + 4);
    var key := StringAt(strings, index);
    if key == "" && index < |ids| then WellKnownName(ids[index]) else key
  }

  predicate InAndroidNamespace(data: bytes, base: nat, strings: seq<string>)
    requires base + 20 <= |data|
  {
    U32At(data, base) != NO_INDEX && StringAt(strings, U32At(data, base)) == ANDROID_NAMESPACE
  }

  function AttributeValue(data: bytes, base: nat, strings: seq<string>): Option<Value>
    requires base + 20 <= |data|
  {
    DecodeValue(strings, Byte(data, base + 15), U32At(data, base + 16), U32At(data, base + 8))
  }

  /** The dict after the attribute at `base`: nameless and valueless ones leave it alone. */
  function AddAttribute(attributes: Attributes, key: string, android: bool, value: Option<Value>): Attributes {
    if key == "" || value.None? then attributes
    else
      var prefixed := if android then SetDefault(attributes, "android:" + key, value.value) else attributes;
      SetDefault(prefixed, key, value.value)
  }

  /** Where attribute `index` begins. */
  function AttributeBase(at: nat, size: nat, index: nat): nat {
    at + index * size
  }

  /** The dict after one more attribute, which must lie in the buffer. */
  function ReadAttribute(before: Attributes, data: bytes, base: nat, strings: seq<string>, ids: seq<nat>)
    : Result<Attributes, AxmlError>
  {
    if base + 20 > |data| then Err(Truncated)
    else Ok(AddAttribute(before, AttributeKey(data, base, strings, ids),
                         InAndroidNamespace(data, base, strings), AttributeValue(data, base, strings)))
  }

  /** The first `count` attributes of a start element. */
  function ReadAttributes(data: bytes, at: nat, size: nat, count: nat, strings: seq<string>, ids: seq<nat>)
    : Result<Attributes, AxmlError>
    decreases count
  {
    if count == 0 then Ok([])
    else
      var before :- ReadAttributes(data, at, size, count - 1, strings, ids);
      ReadAttribute(before, data, AttributeBase(at, size, count - 1), strings, ids)
  }

  /** `_parse_start_element` */
  function ReadStart(data: bytes, offset: nat, strings: seq<string>, ids: seq<nat>): (r: Result<Event, AxmlError>)
    ensures r.Ok? ==> r.value.Start?
  {
    if offset + 14 > |data| then Err(Truncated)
    else
      var attributes :- ReadAttributes(data, offset + U16At(data, offset + 8), U16At(data, offset + 10),
                                       U16At(data, offset + 12), strings, ids);
      Ok(Start(StringAt(strings, U32At(data, offset + 4)), attributes))
  }

  /** The ids of a resource map chunk. */
  function ReadIds(data: bytes, position: nat, header: nat, size: nat): Result<seq<nat>, AxmlError> {
    if size < header || position + header + (size - header) / 4 * 4 > |data| then Err(Truncated)
    else
      var count := (size - header) / 4;
      Ok(seq(count, i requires 0 <= i < count => U32At(data, position + header + 4 * i)))
  }

  /** The document's events from `position` on; a zero chunk size ends it. */
  function ReadEvents(data: bytes, position: nat, strings: seq<string>, ids: seq<nat>): Result<seq<Event>, AxmlError>
    decreases |data| - position
  {
    if position + 8 > |data| then Ok([])
    else
      var kind, header, size := U16At(data, position), U16At(data, position + 2), U32At(data, position + 4);
      if size == 0 then Ok([])
      else if kind == RES_XML_RESOURCE_MAP then
        var newIds :- ReadIds(data, position, header, size);
        ReadEvents(data, position + size, strings, newIds)
      else if kind == RES_XML_START_ELEMENT then
        var start :- ReadStart(data, position + header, strings, ids);
        var rest :- ReadEvents(data, position + size, strings, ids);
        Ok([start] + rest)
      else if kind == RES_XML_END_ELEMENT then
        var rest :- ReadEvents(data, position + size, strings, ids);
        Ok([End] + rest)
      else ReadEvents(data, position + size, strings, ids)
  }

  /** The depth counter over the events: one element for each start. */
  function Elements(events: seq<Event>, depth: int): seq<Element> {
    if events == [] then []
    else if events[0].End? then Elements(events[1..], depth - 1)
    else [Element(events[0].name, events[0].attributes, depth)] + Elements(events[1..], depth + 1)
  }

  /** Where the pool ends and what it holds, for any buffer that is binary XML. */
  function DocumentPool(data: bytes): Result<Pool, AxmlError> {
    if |data| < 8 then Err(TooSmall)
    else if U16At(data, 0) != RES_XML then Err(NotXml)
    else
      var pool := TolerantPool(data, U16At(data, 2));
      if pool.Err? then Err(BadPool(pool.error)) else Ok(pool.value)
  }

  /** `parse_elements` */
  function Parsed(data: bytes): Result<seq<Element>, AxmlError> {
    var pool :- DocumentPool(data);
    var events :- ReadEvents(data, U16At(data, 2) + pool.chunkSize, pool.strings, []);
    Ok(Elements(events, 0))
  }

  lemma AttributeFailureLasts(data: bytes, at: nat, size: nat, k: nat, count: nat, strings: seq<string>, ids: seq<nat>)
    requires k <= count && ReadAttributes(data, at, size, k, strings, ids).Err?
    ensures ReadAttributes(data, at, size, count, strings, ids) == ReadAttributes(data, at, size, k, strings, ids)
    decreases count
  {
    if k < count {
      AttributeFailureLasts(data, at, size, k, count - 1, strings, ids);
    }
  }

  method ParseStartElement(data: bytes, offset: nat, pool: StringPool, ids: seq<nat>)
    returns (r: Result<Event, AxmlError>)
    ensures r == ReadStart(data, offset, pool.strings, ids)
  {
    hide U16At, U32At, ReadAttribute, AttributeBase;
    if offset + 14 > |data| {
      return Err(Truncated);
    }
    var name := pool.Get(U32At(data, offset + 4));
    var at, size, count := offset + U16At(data, offset + 8), U16At(data, offset + 10), U16At(data, offset + 12);
    var attributes: Attributes := [];
    for index := 0 to count
      invariant ReadAttributes(data, at, size, index, pool.strings, ids) == Ok(attributes)
    {
      var more := ReadAttribute(attributes, data, AttributeBase(at, size, index), pool.strings, ids);
      if more.Err? {
        AttributeFailureLasts(data, at, size, index + 1, count, pool.strings, ids);
        return Err(more.error);
      }
      attributes := more.value;
    }
    r := Ok(Start(name, attributes));
  }

  /** The elements so far, and what the rest of the document will add. */
  function Continued(elements: seq<Element>, rest: Result<seq<Event>, AxmlError>,
                     depth: int): Result<seq<Element>, AxmlError> {
    if rest.Err? then Err(rest.error) else Ok(elements + Elements(rest.value, depth))
  }

  lemma ContinuedStart(elements: seq<Element>, start: Event, rest: Result<seq<Event>, AxmlError>, depth: int)
    requires start.Start?
    ensures Continued(elements, if rest.Err? then rest else Ok([start] + rest.value), depth) ==
            Continued(elements + [Element(start.name, start.attributes, depth)], rest, depth + 1)
  {
    if rest.Ok? {
      var element, tail := Element(start.name, start.attributes, depth), Elements(rest.value, depth + 1);
      assert ([start] + rest.value)[1..] == rest.value;
      assert elements + ([element] + tail) == elements + [element] + tail;
    }
  }

  lemma ContinuedEnd(elements: seq<Element>, rest: Result<seq<Event>, AxmlError>, depth: int)
    ensures Continued(elements, if rest.Err? then rest else Ok([End] + rest.value), depth) ==
              Continued(elements, rest, depth - 1)
  {
    if rest.Ok? {
      assert ([End] + rest.value)[1..] == rest.value;
    }
  }

  /** `_parse_elements`: the walk over the chunks with its running depth. */
  method WalkChunks(data: bytes, begin: nat, pool: StringPool) returns (r: Result<seq<Element>, AxmlError>)
    ensures r == Continued([], ReadEvents(data, begin, pool.strings, []), 0)
  {
    hide U16At, U32At, ReadIds, ReadStart, Continued;
    var position, ids, depth := begin, [], 0;
    var elements: seq<Element> := [];
    while position + 8 <= |data|
      invariant Continued(elements, ReadEvents(data, position, pool.strings, ids), depth) ==
                Continued([], ReadEvents(data, begin, pool.strings, []), 0)
      decreases |data| - position
    {
      var kind, header, size := U16At(data, position), U16At(data, position + 2), U32At(data, position + 4);
      if size == 0 {
        break;
      }
      ghost var rest := ReadEvents(data, position + size, pool.strings, ids);
      if kind == RES_XML_RESOURCE_MAP {
        var newIds := ReadIds(data, position, header, size);
        if newIds.Err? {
          ContinuedFailure(elements, newIds.error, depth);
          return Err(newIds.error);
        }
        ids := newIds.value;
      } else if kind == RES_XML_START_ELEMENT {
        var start := ParseStartElement(data, position + header, pool, ids);
        if start.Err? {
          ContinuedFailure(elements, start.error, depth);
          return Err(start.error);
        }
        ContinuedStart(elements, start.value, rest, depth);
        elements := elements + [Element(start.value.name, start.value.attributes, depth)];
        depth := depth + 1;
      } else if kind == RES_XML_END_ELEMENT {
        ContinuedEnd(elements, rest, depth);
        depth := depth - 1;
      }
      position := position + size;
    }
    ContinuedNothing(elements, depth);
    r := Ok(elements);
  }

  lemma ContinuedFailure(elements: seq<Element>, e: AxmlError, depth: int)
    ensures Continued(elements, Err(e), depth) == Err(e)
  {
  }

  lemma ContinuedNothing(elements: seq<Element>, depth: int)
    ensures Continued(elements, Ok([]), depth) == Ok(elements)
  {
    assert elements + Elements([], depth) == elements;
  }

  method ParseElements(data: bytes) returns (r: Result<seq<Element>, AxmlError>)
    ensures r == Parsed(data)
  {
    hide U16At, U32At, TolerantPool, ReadEvents, Elements;
    if |data| < 8 {
      return Err(TooSmall);
    }
    if U16At(data, 0) != RES_XML {
      return Err(NotXml);
    }
    var header := U16At(data, 2);
    var pool := new StringPool();
    var built := pool.Build(data, header);
    if built.Err? {
      return Err(BadPool(built.error));
    }
    r := WalkChunks(data, header + pool.chunkSize, pool);
    assert pool.Contents() == TolerantPool(data, header).value;
    assert forall xs: seq<Element> :: [] + xs == xs;
  }
}
