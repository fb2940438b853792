/** Scanner and substitution agree; nothing but values is added; JSON stays JSON. */
module TemplateTheorems {
  import opened Wrappers
  import opened Json
  import opened JsonTheorems
  import opened Lists
  import opened Templates

  // ------------------------------------------------------- scanner and substitution

  function Holes(symbols: seq<Symbol>): seq<string> {
    if symbols == [] then []
    else (if symbols[0].Hole? then [symbols[0].name] else []) + Holes(symbols[1..])
  }

  /** Somewhere `${` is left as plain text. */
  predicate HasStrayOpening(symbols: seq<Symbol>) {
    |symbols| >= 2 && ((symbols[0] == Ch('$') && symbols[1] == Ch('{')) || HasStrayOpening(symbols[1..]))
  }

  predicate AllNamesValid(symbols: seq<Symbol>) {
    symbols == [] || ((symbols[0].Hole? ==> CheckName(symbols[0].name).Ok?) && AllNamesValid(symbols[1..]))
  }

  /** What the substitution would give if every reference stood for itself. */
  function Written(symbols: seq<Symbol>): string {
    Substitute(symbols, name => "${" + name + "}")
  }

  lemma CheckedNameIsKept(name: string)
    ensures CheckName(name).Ok? ==> CheckName(name) == Ok(name)
  {
  }

  lemma ReferencesSkip(text: string, p: nat)
    requires p < |text| && !StartsAt(text, p)
    ensures References(text, p) == References(text, p + 1)
  {
    assert Find(text, p) == Find(text, p + 1);
    hide Find, ReferenceAt, CheckName;
  }

  lemma ReferencesStep(text: string, p: nat)
    requires p < |text| && StartsAt(text, p)
    ensures ReferenceAt(text, p).None? ==> References(text, p).Err?
    ensures ReferenceAt(text, p).Some? ==>
              var name := NameIn(text, p, ReferenceAt(text, p).value);
              var rest := References(text, ReferenceAt(text, p).value);
              References(text, p) == if CheckName(name).Err? then Err(CheckName(name).error) else Prepend([name], rest)
  {
    assert Find(text, p) == Some(p);
    hide Find, ReferenceAt, CheckName;
    if ReferenceAt(text, p).Some? {
      CheckedNameIsKept(NameIn(text, p, ReferenceAt(text, p).value));
    }
  }

  lemma PiecesStep(text: string, p: nat)
    requires p < |text|
    ensures ReferenceAt(text, p).Some? ==>
              Pieces(text, p) == [Hole(NameIn(text, p, ReferenceAt(text, p).value))] +
                Pieces(text, ReferenceAt(text, p).value)
    ensures ReferenceAt(text, p).None? ==> Pieces(text, p) == [Ch(text[p])] + Pieces(text, p + 1)
  {
    hide ReferenceAt;
  }

  lemma FirstPiece(text: string, p: nat)
    requires p < |text|
    ensures Pieces(text, p) != []
    ensures text[p] != '$' ==> Pieces(text, p)[0] == Ch(text[p])
    ensures Pieces(text, p)[0].Ch? ==> Pieces(text, p)[0].c == text[p]
  {
    PiecesStep(text, p);
    assert ReferenceAt(text, p).Some? ==> StartsAt(text, p);
  }

  lemma Cons(x: Symbol, rest: seq<Symbol>)
    ensures Holes([x] + rest) == (if x.Hole? then [x.name] else []) + Holes(rest)
    ensures AllNamesValid([x] + rest) <==> (x.Hole? ==> CheckName(x.name).Ok?) && AllNamesValid(rest)
    ensures HasStrayOpening([x] + rest) <==>
              rest != [] && ((x == Ch('$') && rest[0] == Ch('{')) || HasStrayOpening(rest))
    ensures Written([x] + rest) == (if x.Hole? then "${" + x.name + "}" else [x.c]) + Written(rest)
  {
    hide CheckName;
    assert ([x] + rest)[1..] == rest;
  }

  /**
   The scanner accepts a template exactly when the substitution leaves no `${` as plain text and
   meets only valid names; it then finds the names the substitution visits, in the same order.
   */
  lemma {:induction false} ScannerAndSubstitutionAgree(text: string, p: nat)
    requires p <= |text|
    ensures References(text, p).Ok? <==> !HasStrayOpening(Pieces(text, p)) && AllNamesValid(Pieces(text, p))
    ensures References(text, p).Ok? ==> References(text, p).value == Holes(Pieces(text, p))
    decreases |text| - p
  {
    hide References, Pieces, Holes, HasStrayOpening, AllNamesValid, CheckName, ReferenceAt, Written;
    if p == |text| {
      ScannerAtEnd(text);
    } else {
      PiecesStep(text, p);
      var end := ReferenceAt(text, p);
      if end.Some? {
        ScannerAndSubstitutionAgree(text, end.value);
        ReferencesStep(text, p);
        Cons(Hole(NameIn(text, p, end.value)), Pieces(text, end.value));
        HoleHidesNothing(Hole(NameIn(text, p, end.value)), Pieces(text, end.value));
      } else {
        ScannerAndSubstitutionAgree(text, p + 1);
        Cons(Ch(text[p]), Pieces(text, p + 1));
        if p + 1 < |text| {
          FirstPiece(text, p + 1);
        } else {
          ScannerAtEnd(text);
        }
        StrayIsShort(Pieces(text, p + 1));
        if StartsAt(text, p) {
          ReferencesStep(text, p);
        } else {
          ReferencesSkip(text, p);
        }
      }
    }
  }

  lemma ScannerAtEnd(text: string)
    ensures References(text, |text|) == Ok([]) && Pieces(text, |text|) == []
    ensures Holes([]) == [] && !HasStrayOpening([]) && AllNamesValid([])
  {
  }

  lemma StrayIsShort(symbols: seq<Symbol>)
    ensures HasStrayOpening(symbols) ==> symbols != []
  {
  }

  lemma HoleHidesNothing(x: Symbol, rest: seq<Symbol>)
    requires x.Hole?
    ensures HasStrayOpening([x] + rest) <==> HasStrayOpening(rest)
  {
    Cons(x, rest);
  }

  /** Put back, the pieces are the template: no character is lost, added or moved. */
  lemma {:induction false} PiecesAreTheTemplate(text: string, p: nat)
    requires p <= |text|
    ensures Written(Pieces(text, p)) == text[p..]
    decreases |text| - p
  {
    hide Written, ReferenceAt, Pieces, NameIn;
    if p == |text| {
      assert Pieces(text, p) == [] && Written([]) == "" by {
        ScannerAtEnd(text);
        EmptyIsWritten();
      }
    } else {
      PiecesStep(text, p);
      var end := ReferenceAt(text, p);
      if end.Some? {
        PiecesAreTheTemplate(text, end.value);
        Cons(Hole(NameIn(text, p, end.value)), Pieces(text, end.value));
        ReferenceIsItself(text, p, end.value);
        assert text[p..] == text[p..end.value] + text[end.value..];
      } else {
        PiecesAreTheTemplate(text, p + 1);
        Cons(Ch(text[p]), Pieces(text, p + 1));
      }
    }
  }

  lemma ReferenceIsItself(text: string, start: nat, end: nat)
    requires ReferenceAt(text, start) == Some(end)
    ensures start + 3 <= end <= |text| && text[start..end] == "${" + NameIn(text, start, end) + "}"
  {
    hide NameEnd;
  }

  lemma EmptyIsWritten()
    ensures Written([]) == ""
  {
  }

  // ------------------------------------------------------- missing variables

  /** The variables a template uses without a usable value, each once. */
  ghost predicate ListsMissing(missing: seq<string>, names: seq<string>, resolved: map<string, Option<string>>) {
    && (forall name :: name in missing <==> name in names && name in resolved && resolved[name].None?)
    && (forall i, j :: 0 <= i < j < |missing| ==> missing[i] != missing[j])
  }

  lemma {:induction false} MissingFromLists(names: seq<string>, resolved: map<string, Option<string>>)
    requires forall name :: name in names ==> name in resolved
    requires forall i, j :: 0 <= i < j < |names| ==> names[i] != names[j]
    ensures ListsMissing(MissingFrom(names, resolved), names, resolved)
    decreases |names|
  {
    if names != [] {
      MissingFromLists(names[1..], resolved);
      assert names == [names[0]] + names[1..];
    }
  }

  /** In a well-formed template with variables, what is reported missing is exactly what has no usable value. */
  lemma MissingIsExact(text: string, values: Values)
    requires Find(text, 0).Some? && References(text, 0).Ok?
    ensures var names := Holes(Pieces(text, 0));
            ListsMissing(Render(text, values).missing, names, Resolved(names, values))
    ensures Render(text, values).missing != [] ==> Render(text, values).text.None? && Render(text, values).error.None?
  {
    hide Find, References, Pieces, Holes, LookUp, MissingFrom, Distinct, VariablesInsideJsonStrings, ValueOf;
    ScannerAndSubstitutionAgree(text, 0);
    var names := Holes(Pieces(text, 0));
    DistinctKeepsNames(names);
    MissingFromLists(Distinct(names), Resolved(names, values));
  }

  // ------------------------------------------------------- the rendered text

  /** The raw value of each variable that has one. */
  function Chosen(values: Values): string -> string {
    name => if ValueOf(values, name).Some? then ValueOf(values, name).value else ""
  }

  function Fed(text: string, values: Values): Feeding {
    name => Encoder(text)(Chosen(values)(name))
  }

  lemma {:induction false} LookUpFinds(symbols: seq<Symbol>, resolved: map<string, Option<string>>,
                                       encode: string -> string, feed: Feeding)
    requires forall name :: name in Holes(symbols) ==>
               name in resolved && resolved[name].Some? && feed(name) == encode(resolved[name].value)
    ensures LookUp(symbols, resolved, encode) == Ok(Substitute(symbols, feed))
    decreases |symbols|
  {
    if symbols != [] {
      forall name | name in Holes(symbols[1..]) ensures name in Holes(symbols) {
      }
      LookUpFinds(symbols[1..], resolved, encode, feed);
    }
  }

  /** What `render` gives for a well-formed template with variables, when none is missing. */
  function Expected(text: string, values: Values): Rendered {
    var out := Substitute(Pieces(text, 0), Fed(text, values));
    if |out| > 65536 then Broken(TooLong(|out|)) else Rendered(Some(out), [], None)
  }

  /**
   When no variable is missing every lookup succeeds, and the result is the template's pieces
   with each value, encoded, in the place of its variable.
   */
  lemma RenderedTextIsPiecesAndValues(text: string, values: Values)
    requires Find(text, 0).Some? && References(text, 0).Ok?
    requires forall name :: name in Holes(Pieces(text, 0)) ==> ValueOf(values, name).Some?
    ensures Render(text, values) == Expected(text, values)
  {
    hide Find, References, Pieces, Holes, LookUp, Substitute, MissingFrom, Distinct, VariablesInsideJsonStrings,
         ValueOf, Encoder, Render, Chosen, Expected;
    ScannerAndSubstitutionAgree(text, 0);
    var names := Holes(Pieces(text, 0));
    NothingMissing(names, values);
    LookUpFinds(Pieces(text, 0), Resolved(names, values), Encoder(text), Fed(text, values)) by {
      FedIsResolved(text, values, names);
    }
    RenderUnfolds(text, values);
  }

  lemma NothingMissing(names: seq<string>, values: Values)
    requires forall name :: name in names ==> ValueOf(values, name).Some?
    ensures forall name :: name in Distinct(names) ==> name in Resolved(names, values)
    ensures MissingFrom(Distinct(names), Resolved(names, values)) == []
  {
    hide ValueOf, MissingFrom, Distinct;
    DistinctKeepsNames(names);
    var missing := MissingFrom(Distinct(names), Resolved(names, values));
    MissingFromLists(Distinct(names), Resolved(names, values));
    SomeElement(missing);
  }

  lemma SomeElement(names: seq<string>)
    ensures names == [] || exists name :: name in names
  {
    if names != [] {
      assert names[0] in names;
    }
  }

  lemma FedIsResolved(text: string, values: Values, names: seq<string>)
    requires forall name :: name in names ==> ValueOf(values, name).Some?
    ensures forall name :: name in names ==>
              var resolved := Resolved(names, values);
              name in resolved && resolved[name].Some? && Fed(text, values)(name) == Encoder(text)(resolved[name].value)
  {
    hide ValueOf, Encoder;
    var resolved := Resolved(names, values);
    forall name | name in names
      ensures name in resolved && resolved[name].Some? && Fed(text, values)(name) == Encoder(text)(resolved[name].value)
    {
      assert resolved[name] == ValueOf(values, name);
      assert Chosen(values)(name) == ValueOf(values, name).value;
      assert Fed(text, values)(name) == Encoder(text)(Chosen(values)(name));
    }
  }

  lemma RenderUnfolds(text: string, values: Values)
    requires Find(text, 0).Some? && References(text, 0).Ok?
    requires var names := References(text, 0).value;
             && (forall name :: name in Distinct(names) ==> name in Resolved(names, values))
             && MissingFrom(Distinct(names), Resolved(names, values)) == []
             && LookUp(Pieces(text, 0), Resolved(names, values), Encoder(text)) ==
                  Ok(Substitute(Pieces(text, 0), Fed(text, values)))
    ensures Render(text, values) == Expected(text, values)
  {
    hide Find, References, Pieces, LookUp, Substitute, MissingFrom, Distinct, ValueOf, Encoder, Resolved, Fed;
  }

  lemma {:induction false} ScannerNeverLooksUp(text: string, p: nat)
    requires p <= |text|
    ensures References(text, p).Err? ==> !References(text, p).error.KeyError?
    decreases |text| - p
  {
    hide Find, ReferenceAt, NameIn;
    var start := Find(text, p);
    if start.Some? && ReferenceAt(text, start.value).Some? {
      ScannerNeverLooksUp(text, ReferenceAt(text, start.value).value);
    }
  }

  /** For every text and every values, no lookup inside the substitution fails. */
  lemma NoLookupFails(text: string, values: Values)
    ensures Render(text, values).error.Some? ==> !Render(text, values).error.value.KeyError?
  {
    hide Find, References, Pieces, Holes, LookUp, Substitute, MissingFrom, Distinct, VariablesInsideJsonStrings,
         ValueOf, Encoder;
    if Find(text, 0).Some? {
      ScannerNeverLooksUp(text, 0);
      if References(text, 0).Ok? {
        MissingIsExact(text, values);
        var names := Holes(Pieces(text, 0));
        ScannerAndSubstitutionAgree(text, 0);
        if Render(text, values).missing == [] {
          forall name | name in names ensures ValueOf(values, name).Some? {
            assert name !in Render(text, values).missing;
          }
          RenderedTextIsPiecesAndValues(text, values);
        }
      }
    }
  }

  // ------------------------------------------------------- JSON stays JSON

  lemma {:induction false} SubstituteExpands(symbols: seq<Symbol>, feed: Feeding)
    ensures Chars(Substitute(symbols, feed)) == Expand(symbols, feed)
    decreases |symbols|
  {
    if symbols != [] {
      SubstituteExpands(symbols[1..], feed);
      match symbols[0]
      case Ch(c) => CharsAppend([c], Substitute(symbols[1..], feed));
      case Hole(name) => CharsAppend(feed(name), Substitute(symbols[1..], feed));
    }
  }

  lemma {:induction false} SubstituteOnlyFeeds(symbols: seq<Symbol>, feed: Feeding, other: Feeding)
    requires forall name :: name in Holes(symbols) ==> feed(name) == other(name)
    ensures Substitute(symbols, feed) == Substitute(symbols, other)
    decreases |symbols|
  {
    if symbols != [] {
      forall name | name in Holes(symbols[1..]) ensures name in Holes(symbols) {
      }
      SubstituteOnlyFeeds(symbols[1..], feed, other);
    }
  }

  lemma JudgementsAgree(text: string)
    ensures VariablesInsideJsonStrings(text) <==> JudgedJson(Pieces(text, 0))
  {
    SubstituteExpands(Pieces(text, 0), STAND_IN);
  }

  /** The template's own document, with a hole where each variable stands. */
  function Document(text: string): Option<Json> {
    ParseSymbols(Pieces(text, 0))
  }

  lemma RenderedMeansUsable(text: string, values: Values)
    requires Find(text, 0).Some? && Render(text, values).text.Some?
    ensures References(text, 0).Ok? && Render(text, values) == Expected(text, values)
    ensures forall name :: name in Holes(Pieces(text, 0)) ==> ValueOf(values, name).Some?
  {
    MissingExactlyWhenRendered(text, values);
    RenderedTextIsPiecesAndValues(text, values);
  }

  lemma MissingExactlyWhenRendered(text: string, values: Values)
    requires Find(text, 0).Some? && Render(text, values).text.Some?
    ensures References(text, 0).Ok?
    ensures forall name :: name in Holes(Pieces(text, 0)) ==> ValueOf(values, name).Some?
  {
    hide Find, References, Pieces, Holes, LookUp, MissingFrom, Distinct, VariablesInsideJsonStrings, ValueOf, Encoder;
    MissingIsExact(text, values);
    var names := Holes(Pieces(text, 0));
    forall name | name in names ensures ValueOf(values, name).Some? {
      assert name !in Render(text, values).missing;
    }
  }

  /**
   A template that is a JSON object or array with its variables inside strings, none of them
   completing a `\u` escape, renders to that same document with the raw values in its strings,
   whatever quotes or backslashes they hold.
   */
  lemma RenderedJsonMeansTheDocument(text: string, values: Values)
    requires Find(text, 0).Some? && VariablesInsideJsonStrings(text) && !SplitsEscape(INITIAL, Pieces(text, 0))
    requires Render(text, values).text.Some?
    ensures Document(text).Some? && IsContainer(Document(text).value)
    ensures Parse(Render(text, values).text.value) == Some(FillJson(Raw(Chosen(values)), Document(text).value))
  {
    hide Find, References, Pieces, VariablesInsideJsonStrings, ValueOf, ParseSymbols, Substitute, Expand, FillJson,
         Render, Chosen, Holes, SplitsEscape, Fed, Parse, Document;
    RenderedMeansUsable(text, values);
    JudgementsAgree(text);
    JsonStaysJson(Pieces(text, 0), Chosen(values));
    JsonOutput(text, values);
    ParseMeansSymbols(Substitute(Pieces(text, 0), Encoded(Chosen(values))));
    SubstituteExpands(Pieces(text, 0), Encoded(Chosen(values)));
    assert Document(text) == ParseSymbols(Pieces(text, 0)) by { DocumentMeansSymbols(text); }
  }

  lemma DocumentMeansSymbols(text: string)
    ensures Document(text) == ParseSymbols(Pieces(text, 0))
  {
  }

  lemma ParseMeansSymbols(text: string)
    ensures Parse(text) == ParseSymbols(Chars(text))
  {
  }

  lemma JsonOutput(text: string, values: Values)
    requires VariablesInsideJsonStrings(text)
    ensures Substitute(Pieces(text, 0), Fed(text, values)) == Substitute(Pieces(text, 0), Encoded(Chosen(values)))
  {
    hide VariablesInsideJsonStrings, Pieces, Substitute, ValueOf, EncodeString, Holes;
    SubstituteOnlyFeeds(Pieces(text, 0), Fed(text, values), Encoded(Chosen(values)));
  }

  // ------------------------------------------------------- exactly when JSON can break

  /** Every reference in the template, replaced by the single letter Z. */
  function Shortest(text: string): string {
    Substitute(Pieces(text, 0), Encoded(LETTER_Z))
  }

  /** Some values make `render` put out a text that is not JSON. */
  ghost predicate CanBreak(text: string) {
    exists values: Values :: RendersBroken(text, values)
  }

  ghost predicate RendersBroken(text: string, values: Values) {
    Render(text, values).text.Some? && Parse(Render(text, values).text.value).None?
  }

  function AllZ(names: seq<string>): Values {
    map name | name in names :: Some("Z")
  }

  lemma EncodedIsLonger(value: string)
    requires value != ""
    ensures |EncodeString(value)| >= 1
  {
  }

  lemma ChosenIsSomething(values: Values, name: string)
    requires ValueOf(values, name).Some?
    ensures Chosen(values)(name) != ""
  {
  }

  lemma ZIsOneLetter(name: string)
    ensures Encoded(LETTER_Z)(name) == "Z"
  {
    assert EncodeString("Z") == "Z";
  }

  lemma {:induction false} AnyValueIsAsLong(symbols: seq<Symbol>, values: Values)
    requires forall name :: name in Holes(symbols) ==> ValueOf(values, name).Some?
    ensures |Substitute(symbols, Encoded(LETTER_Z))| <= |Substitute(symbols, Encoded(Chosen(values)))|
    decreases |symbols|
  {
    hide EncodeString, ValueOf, Chosen, Encoded;
    if symbols != [] {
      forall name | name in Holes(symbols[1..]) ensures name in Holes(symbols) {
      }
      AnyValueIsAsLong(symbols[1..], values);
      if symbols[0].Hole? {
        var name := symbols[0].name;
        assert name in Holes(symbols);
        ZIsOneLetter(name);
        LongEnough(values, name);
      }
    }
  }

  lemma LongEnough(values: Values, name: string)
    requires ValueOf(values, name).Some?
    ensures |Encoded(Chosen(values))(name)| >= 1
  {
    hide EncodeString, ValueOf, Chosen;
    ChosenIsSomething(values, name);
    EncodedIsLonger(Chosen(values)(name));
  }

  lemma ZIsUsable(names: seq<string>, name: string)
    requires name in names
    ensures ValueOf(AllZ(names), name) == Some("Z") && Chosen(AllZ(names))(name) == "Z"
  {
  }

  lemma AllZRenders(text: string)
    requires Find(text, 0).Some? && References(text, 0).Ok? && VariablesInsideJsonStrings(text)
    requires |Shortest(text)| <= 65536
    ensures Render(text, AllZ(Holes(Pieces(text, 0)))).text == Some(Shortest(text))
  {
    hide Find, References, Pieces, VariablesInsideJsonStrings, ValueOf, Substitute, Render, Chosen, Holes, AllZ, Fed;
    var names := Holes(Pieces(text, 0));
    var values := AllZ(names);
    forall name | name in names
      ensures ValueOf(values, name).Some? && Encoded(Chosen(values))(name) == Encoded(LETTER_Z)(name)
    {
      ZIsUsable(names, name);
      SameLetter(Chosen(values), name);
    }
    RenderedTextIsPiecesAndValues(text, values);
    JsonOutput(text, values);
    SubstituteOnlyFeeds(Pieces(text, 0), Encoded(Chosen(values)), Encoded(LETTER_Z));
  }

  lemma SameLetter(chosen: string -> string, name: string)
    requires chosen(name) == "Z"
    ensures Encoded(chosen)(name) == Encoded(LETTER_Z)(name)
  {
  }

  /**
   A well-formed template judged JSON can be rendered into something that is not JSON exactly
   when one of its variables completes a `\u` escape (and some rendering is short enough).
   */
  lemma JsonBreaksExactlyWhenAnEscapeIsSplit(text: string)
    requires Find(text, 0).Some? && References(text, 0).Ok? && VariablesInsideJsonStrings(text)
    ensures CanBreak(text) <==> SplitsEscape(INITIAL, Pieces(text, 0)) && |Shortest(text)| <= 65536
  {
    hide Find, References, Pieces, VariablesInsideJsonStrings, ValueOf, Substitute, Render, Chosen, Holes, AllZ,
         SplitsEscape, Parse, Shortest, Fed, FillJson;
    var symbols := Pieces(text, 0);
    if SplitsEscape(INITIAL, symbols) && |Shortest(text)| <= 65536 {
      AllZRenders(text);
      ShortestBreaks(text);
      assert RendersBroken(text, AllZ(Holes(symbols)));
    }
    forall values: Values | RendersBroken(text, values)
      ensures SplitsEscape(INITIAL, symbols) && |Shortest(text)| <= 65536
    {
      BrokenMeansSplit(text, values);
    }
  }

  lemma ShortestBreaks(text: string)
    requires VariablesInsideJsonStrings(text) && SplitsEscape(INITIAL, Pieces(text, 0))
    ensures Parse(Shortest(text)).None?
  {
    hide Pieces, VariablesInsideJsonStrings, Substitute, SplitsEscape, Expand, Finish, Run;
    JudgementsAgree(text);
    SubstituteExpands(Pieces(text, 0), Encoded(LETTER_Z));
    LetterZBreaks(Pieces(text, 0));
  }

  lemma BrokenMeansSplit(text: string, values: Values)
    requires Find(text, 0).Some? && VariablesInsideJsonStrings(text)
    requires RendersBroken(text, values)
    ensures SplitsEscape(INITIAL, Pieces(text, 0)) && |Shortest(text)| <= 65536
  {
    hide Find, References, Pieces, VariablesInsideJsonStrings, ValueOf, Substitute, Render, Chosen, Holes, SplitsEscape,
         Parse, Fed, FillJson;
    RenderedMeansUsable(text, values);
    JsonOutput(text, values);
    AnyValueIsAsLong(Pieces(text, 0), values);
    assert Render(text, values).text.Some?;
    if !SplitsEscape(INITIAL, Pieces(text, 0)) {
      RenderedJsonMeansTheDocument(text, values);
      assert false;
    }
  }
}
