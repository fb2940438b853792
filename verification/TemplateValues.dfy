/** What a variable is, which values are used, and that they bring no control character into the text. */
module TemplateValues {
  import opened Wrappers
  import opened Json
  import opened JsonTheorems
  import opened Texts
  import opened Templates
  import opened TemplateTheorems

  // ------------------------------------------------------- references and names

  /** What may stand between the braces. */
  predicate IsPlainName(name: string) {
    forall c :: c in name ==> c !in "{}$\r\n"
  }

  lemma NameCharMeans(c: char)
    ensures IsNameChar(c) <==> c !in "{}$\r\n"
  {
    var breaks := "{}$\r\n";
    assert breaks[0] == '{' && breaks[1] == '}' && breaks[2] == '$' && breaks[3] == '\r' && breaks[4] == '\n';
  }

  lemma {:induction false} NameRuns(text: string, i: nat)
    requires i <= |text|
    ensures IsPlainName(text[i..NameEnd(text, i)])
    ensures NameEnd(text, i) < |text| ==> text[NameEnd(text, i)] in "{}$\r\n"
    decreases |text| - i
  {
    if i < |text| {
      NameCharMeans(text[i]);
    }
    if i < |text| && IsNameChar(text[i]) {
      NameRuns(text, i + 1);
      assert text[i..NameEnd(text, i)] == [text[i]] + text[i + 1..NameEnd(text, i + 1)];
    }
  }

  lemma {:induction false} NameRunsTo(text: string, i: nat, end: nat)
    requires i <= end < |text| && IsPlainName(text[i..end]) && text[end] in "{}$\r\n"
    ensures NameEnd(text, i) == end
    decreases |text| - i
  {
    NameCharMeans(text[i]);
    if i < end {
      assert text[i] == text[i..end][0];
      assert forall c :: c in text[i + 1..end] ==> c in text[i..end];
      NameRunsTo(text, i + 1, end);
    }
  }

  /** A reference is `${`, a name without braces, dollars and line breaks, and `}`. */
  lemma ReferenceMeans(text: string, i: nat, end: nat)
    requires end <= |text|
    ensures ReferenceAt(text, i) == Some(end) <==>
              i + 3 <= end && text[i..i + 2] == "${" && text[end - 1] == '}' && IsPlainName(text[i + 2..end - 1])
  {
    assert i + 2 <= |text| ==> (StartsAt(text, i) <==> text[i..i + 2] == "${");
    if StartsAt(text, i) {
      NameRuns(text, i + 2);
      hide NameEnd, IsPlainName;
      if i + 3 <= end && text[end - 1] == '}' && IsPlainName(text[i + 2..end - 1]) {
        NameRunsTo(text, i + 2, end - 1);
      }
    }
  }

  /** An operator's attribute: not empty, with no white space at its ends. */
  predicate IsAttribute(field: string) {
    field != "" && !IsSpace(field[0]) && !IsSpace(field[|field| - 1])
  }

  /** Four device fields are variables, and `attribute.` before any attribute's name; nothing else is. */
  lemma VariablesAre(name: string)
    ensures CheckName(name).Ok? <==>
            || name == "device.name" || name == "device.id" || name == "device.serial" || name == "device.model"
            || (|name| > 10 && name[..10] == "attribute." && IsAttribute(name[10..]))
    ensures CheckName(name).Ok? ==> CheckName(name).value == name
  {
    hide FirstDot, StripBoth, IsFieldName;
    var dot := FirstDot(name);
    if dot.Some? {
      var scope, field := name[..dot.value], name[dot.value + 1..];
      StripKeeps(field, Space());
      assert name == scope + "." + field;
    }
    AttributeDot(name);
    DeviceDot(name, "name");
    DeviceDot(name, "id");
    DeviceDot(name, "serial");
    DeviceDot(name, "model");
    FieldsAreNamed();
    assert "device." + "name" == "device.name" && "device." + "id" == "device.id";
    assert "device." + "serial" == "device.serial" && "device." + "model" == "device.model";
  }

  lemma FieldsAreNamed()
    ensures IsFieldName("name") && IsFieldName("id") && IsFieldName("serial") && IsFieldName("model")
  {
  }

  /** Where the first dot of an attribute's variable lies. */
  lemma AttributeDot(name: string)
    ensures |name| > 10 && name[..10] == "attribute." ==> FirstDot(name) == Some(9) && name[..9] == "attribute"
  {
    hide FirstDot;
    if |name| > 10 && name[..10] == "attribute." {
      var prefix := name[..10];
      assert forall i :: 0 <= i < 10 ==> name[i] == prefix[i];
      assert name[9] == '.' && forall i :: 0 <= i < 9 ==> name[i] != '.';
      assert name[..9] == prefix[..9];
      var dot := FirstDot(name);
      assert dot.Some? && dot.value == 9;
    }
  }

  /** Where the first dot of a device variable lies. */
  lemma DeviceDot(name: string, field: string)
    ensures name == "device." + field ==> FirstDot(name) == Some(6) && name[..6] == "device" && name[7..] == field
  {
    hide FirstDot;
    var prefix := "device.";
    if name == prefix + field {
      assert |prefix| == 7 && forall i :: 0 <= i < 7 ==> name[i] == prefix[i];
      assert name[6] == '.' && forall i :: 0 <= i < 6 ==> name[i] != '.';
      var dot := FirstDot(name);
      assert dot.Some? && dot.value == 6;
    }
  }

  // ------------------------------------------------------- values

  /** A control character (category Cc of the Unicode standard). */
  predicate IsControlCharacter(c: char) {
    c as int <= 0x1F || 0x7F <= c as int <= 0x9F
  }

  /** A value is used, as it is, if it is there, has 1 to 256 characters and no control character among them. */
  lemma UsableMeans(value: Option<string>)
    ensures Usable(value).Some? <==>
            value.Some? && 1 <= |value.value| <= 256 && forall c :: c in value.value ==> !IsControlCharacter(c)
    ensures Usable(value).Some? ==> Usable(value) == value
  {
    if value.Some? {
      assert forall i :: 0 <= i < |value.value| ==> (IsControl(value.value[i]) <==> IsControlCharacter(value.value[i]));
      assert forall c :: c in value.value ==> exists i :: 0 <= i < |value.value| && value.value[i] == c;
    }
  }

  /** Every control character of `out` is one of the text's own. */
  ghost predicate AddsNoControl(out: string, text: string) {
    forall c :: c in out && IsControlCharacter(c) ==> c in text
  }

  lemma EncodedCharIsPlain(c: char)
    ensures forall x :: x in EncodeChar(c) && IsControlCharacter(x) ==> x == c && !(c < ' ')
  {
    if c < ' ' {
      var code := "\\u00" + [LowerHex(c as int / 16), LowerHex(c as int % 16)];
      assert forall d :: 0 <= d < 16 ==> '0' <= LowerHex(d) <= 'f';
      assert code[0] == '\\' && code[1] == 'u' && code[2] == '0' && code[3] == '0';
    }
  }

  lemma {:induction false} EncodedAddsNoControl(value: string)
    ensures AddsNoControl(EncodeString(value), value)
    decreases |value|
  {
    hide EncodeChar, IsControlCharacter;
    if value != "" {
      EncodedCharIsPlain(value[0]);
      EncodedAddsNoControl(value[1..]);
    }
  }

  lemma {:induction false} PiecesAreFromText(text: string, i: nat)
    requires i <= |text|
    ensures forall c :: Ch(c) in Pieces(text, i) ==> c in text
    decreases |text| - i
  {
    hide ReferenceAt;
    if i < |text| {
      PiecesStep(text, i);
      if ReferenceAt(text, i).Some? {
        PiecesAreFromText(text, ReferenceAt(text, i).value);
      } else {
        PiecesAreFromText(text, i + 1);
      }
    }
  }

  lemma {:induction false} SubstitutedFrom(symbols: seq<Symbol>, feed: Feeding, c: char)
    requires c in Substitute(symbols, feed)
    ensures Ch(c) in symbols || exists name :: name in Holes(symbols) && c in feed(name)
    decreases |symbols|
  {
    var rest := symbols[1..];
    if symbols[0].Hole? && c in feed(symbols[0].name) {
      assert symbols[0].name in Holes(symbols);
    } else if symbols[0] != Ch(c) {
      SubstitutedFrom(rest, feed, c);
      assert forall name :: name in Holes(rest) ==> name in Holes(symbols);
    }
  }

  lemma FedAddsNoControl(text: string, values: Values, name: string)
    requires ValueOf(values, name).Some?
    ensures forall c :: c in Fed(text, values)(name) ==> !IsControlCharacter(c)
  {
    hide EncodeString, VariablesInsideJsonStrings, IsControlCharacter, Encoder;
    var value := Chosen(values)(name);
    assert Fed(text, values)(name) == Encoder(text)(value);
    ChosenIsUsable(values, name);
    EncoderAddsNoControl(text, value);
  }

  lemma ChosenIsUsable(values: Values, name: string)
    requires ValueOf(values, name).Some?
    ensures forall c :: c in Chosen(values)(name) ==> !IsControlCharacter(c)
  {
    hide Usable, IsControlCharacter;
    UsableMeans(values[name]);
  }

  lemma EncoderAddsNoControl(text: string, value: string)
    ensures AddsNoControl(Encoder(text)(value), value)
  {
    hide EncodeString, VariablesInsideJsonStrings, IsControlCharacter;
    EncodedAddsNoControl(value);
  }

  /** Whatever the values, a rendered text holds no control character that the template does not hold. */
  lemma ValuesAddNoControl(text: string, values: Values)
    requires Render(text, values).text.Some?
    ensures AddsNoControl(Render(text, values).text.value, text)
  {
    hide Find, Pieces, Substitute, ValueOf, Holes, Fed, IsControlCharacter, References, LookUp, MissingFrom,
         VariablesInsideJsonStrings;
    if Find(text, 0).Some? {
      RenderedMeansUsable(text, values);
      hide Render;
      var symbols, feed := Pieces(text, 0), Fed(text, values);
      PiecesAreFromText(text, 0);
      forall c | c in Substitute(symbols, feed) && IsControlCharacter(c) ensures c in text {
        SubstitutedFrom(symbols, feed, c);
        if Ch(c) !in symbols {
          var name :| name in Holes(symbols) && c in feed(name);
          FedAddsNoControl(text, values, name);
        }
      }
    }
  }

  // ------------------------------------------------------- texts without variables, and broken ones

  /** Here the two characters stand that open a variable. */
  predicate OpensAt(text: string, i: nat) {
    i + 2 <= |text| && text[i..i + 2] == "${"
  }

  /** A text in which `${` does not occur is rendered as it stands, whatever the values. */
  lemma PlainTextStays(text: string, values: Values)
    requires forall i: nat :: !OpensAt(text, i)
    ensures Render(text, values) == Rendered(Some(text), [], None)
  {
    var start := Find(text, 0);
    assert start.Some? ==> OpensAt(text, start.value);
  }

  /** The error of a variable that is never closed shows the text from its opening on, up to 24 characters. */
  lemma {:induction false} UnclosedIsShown(text: string, p: nat)
    requires p <= |text| && References(text, p).Err? && References(text, p).error.NeverCloses?
    ensures exists i: nat :: p <= i && OpensAt(text, i) && ReferenceAt(text, i).None?
              && References(text, p).error.snippet == text[i..if |text| - i < 24 then |text| else i + 24]
    decreases |text| - p
  {
    hide CheckName, ReferenceAt;
    var i := Find(text, p).value;
    assert OpensAt(text, i);
    var end := ReferenceAt(text, i);
    if end.Some? {
      CheckNeverCloses(NameIn(text, i, end.value));
      UnclosedIsShown(text, end.value);
    }
  }

  lemma CheckNeverCloses(name: string)
    ensures CheckName(name).Err? ==> !CheckName(name).error.NeverCloses?
  {
  }
}
