/** What becomes of a rule that is typed in ASCII. */
module WebFilterNames {
  import opened Wrappers
  import opened Texts
  import opened WebFilter
  import opened WebFilterTheorems

  /** A character of a name, good or bad: printable ASCII that is no blank, belongs to no URL and is no star or dot. */
  predicate IsTyped(c: char) {
    '!' <= c <= '~' && c !in "/:@?#*."
  }

  predicate AreTyped(s: string) {
    forall i :: 0 <= i < |s| ==> IsTyped(s[i])
  }

  predicate AreBlanks(s: string) {
    forall i :: 0 <= i < |s| ==> s[i] in " \t\n\r"
  }

  /** One to 63 letters, digits and hyphens, with no hyphen at either end. */
  predicate IsGoodLabel(l: string) {
    && 1 <= |l| <= 63 && l[0] != '-' && l[|l| - 1] != '-'
    && forall i :: 0 <= i < |l| ==> 'a' <= l[i] <= 'z' || 'A' <= l[i] <= 'Z' || '0' <= l[i] <= '9' || l[i] == '-'
  }

  function DotsOf(n: nat): string {
    seq(n, i => '.')
  }

  /** What is relied on of the lower-casing library. */
  ghost predicate LowersAscii(env: Env) {
    forall s :: IsAscii(s) ==> env.lower(s) == LowerAll(s)
  }

  /** A rule as somebody types it: its form, the labels of its name and the dots after it. */
  datatype Rule = Rule(form: string, labels: seq<string>, dots: nat)

  predicate IsTypedRule(r: Rule) {
    && (r.form == "" || r.form == "." || r.form == "*.")
    && r.labels != [] && (forall i :: 0 <= i < |r.labels| ==> AreTyped(r.labels[i]))
    && r.labels[|r.labels| - 1] != "" && (r.form == "" ==> r.labels[0] != "")
  }

  function Name(r: Rule): string
    requires IsTypedRule(r)
  {
    Join(r.labels, '.')
  }

  function Typed(r: Rule): string
    requires IsTypedRule(r)
  {
    r.form + (Name(r) + DotsOf(r.dots))
  }

  lemma StripSurrounded(before: string, t: string, after: string)
    requires t != "" && !IsSpace(t[0]) && !IsSpace(t[|t| - 1]) && AreBlanks(before) && AreBlanks(after)
    ensures Strip(before + t + after) == t
  {
    hide StripLeft, StripRight, IsSpace;
    var s := before + t + after;
    forall i | 0 <= i < |before| ensures IsSpace(s[i]) {
      BlankIsSpace(before[i]);
    }
    StripLeftStarts(s, Space());
    var left := StripLeft(s, Space());
    assert s[|before|] == t[0];
    assert left == t + after;
    forall i | |t| <= i < |left| ensures IsSpace(left[i]) {
      BlankIsSpace(after[i - |t|]);
    }
    StripRightEnds(left, Space());
    assert left[|t| - 1] == t[|t| - 1];
  }

  lemma BlankIsSpace(c: char)
    requires c in " \t\n\r"
    ensures IsSpace(c)
  {
  }

  /** The characters of a joined name, and how it ends. */
  lemma {:induction false} JoinedIsTyped(labels: seq<string>)
    requires labels != [] && forall i :: 0 <= i < |labels| ==> AreTyped(labels[i])
    ensures var s := Join(labels, '.');
            && (forall i :: 0 <= i < |s| ==> IsTyped(s[i]) || s[i] == '.')
            && ('.' in s <==> |labels| > 1)
            && (labels[0] != "" ==> s != "" && IsTyped(s[0]))
            && (labels[|labels| - 1] != "" ==> s != "" && IsTyped(s[|s| - 1]))
    decreases |labels|
  {
    hide IsTyped;
    assert AreTyped(labels[0]);
    DotIsNotTyped();
    if |labels| > 1 {
      JoinedIsTyped(labels[1..]);
      var s, rest := Join(labels, '.'), Join(labels[1..], '.');
      assert s == labels[0] + (['.'] + rest);
      assert s[|labels[0]|] == '.';
    }
  }

  lemma DotIsNotTyped()
    ensures !IsTyped('.')
  {
  }

  lemma TypedIsPlain(c: char)
    requires IsTyped(c) || c == '.'
    ensures c as int < 0x80 && !IsSpace(c) && c !in "/:@?#" && c != '*'
  {
  }

  function LowerEach(labels: seq<string>): (r: seq<string>)
    ensures |r| == |labels|
  {
    seq(|labels|, i requires 0 <= i < |labels| => LowerAll(labels[i]))
  }

  lemma {:induction false} LowerJoins(labels: seq<string>)
    requires labels != []
    ensures LowerAll(Join(labels, '.')) == Join(LowerEach(labels), '.')
    decreases |labels|
  {
    if |labels| > 1 {
      LowerJoins(labels[1..]);
      assert LowerEach(labels)[1..] == LowerEach(labels[1..]);
      var rest := Join(labels[1..], '.');
      assert LowerAll(labels[0] + ['.'] + rest) == LowerAll(labels[0]) + ['.'] + LowerAll(rest);
    }
  }

  lemma LowerTyped(c: char)
    requires IsTyped(c)
    ensures Lower(c) as int < 0x80 && Lower(c) != '.' && Lower(c) != '\n'
    ensures IsLabelChar(Lower(c)) <==> 'a' <= c <= 'z' || 'A' <= c <= 'Z' || '0' <= c <= '9' || c == '-'
    ensures Lower(c) == '-' <==> c == '-'
  {
  }

  /** A lowered label matches exactly when it was good. */
  lemma LabelMatches(l: string)
    requires AreTyped(l)
    ensures IsAscii(LowerAll(l)) && '.' !in LowerAll(l)
    ensures MatchesLabel(LowerAll(l)) <==> IsGoodLabel(l)
  {
    forall i | 0 <= i < |l|
      ensures LowerAll(l)[i] as int < 0x80 && LowerAll(l)[i] != '.' && LowerAll(l)[i] != '\n'
      ensures LowerAll(l)[i] == '-' <==> l[i] == '-'
      ensures IsLabelChar(LowerAll(l)[i]) <==>
              'a' <= l[i] <= 'z' || 'A' <= l[i] <= 'Z' || '0' <= l[i] <= '9' || l[i] == '-'
    {
      LowerTyped(l[i]);
    }
    hide IsTyped, LowerAll, IsLabelChar;
  }

  lemma NameIsStripped(name: string, dots: nat, env: Env)
    requires LowersAscii(env) && name != "" && IsTyped(name[|name| - 1])
    requires forall i :: 0 <= i < |name| ==> IsTyped(name[i]) || name[i] == '.'
    ensures StripRight(env.lower(Strip(name + DotsOf(dots))), Dot()) == LowerAll(name)
  {
    hide StripLeft, StripRight, IsSpace, IsTyped;
    var text := name + DotsOf(dots);
    forall i | 0 <= i < |text| ensures text[i] as int < 0x80 && !IsSpace(text[i]) {
      TypedIsPlain(text[i]);
    }
    StripKeeps(text, Space());
    assert IsAscii(text);
    var lowered := env.lower(text);
    assert lowered == LowerAll(name) + DotsOf(dots);
    LowerTyped(name[|name| - 1]);
    StripRightEnds(lowered, Dot());
    assert lowered[|name| - 1] == Lower(name[|name| - 1]);
  }

  /** A name typed in ASCII: an address, no name, or its lower-case form. */
  lemma HostnameOfTyped(r: Rule, env: Env)
    requires IsTypedRule(r) && LowersAscii(env)
    ensures Hostname(Name(r) + DotsOf(r.dots), env) ==
            if env.isAddress(StripBoth(LowerAll(Name(r)), Bracket())) then Err(IpAddress)
            else if |Name(r)| > 253 || exists i :: 0 <= i < |r.labels| && !IsGoodLabel(r.labels[i]) then Err(NotAName)
            else Ok(LowerAll(Name(r)))
  {
    hide StripLeft, StripRight, StripBoth, Strip, Split, Join, MatchesLabel, IsGoodLabel, EncodeLabels, IsTyped;
    hide LowerAll, LowersAscii;
    JoinedIsTyped(r.labels);
    NameIsStripped(Name(r), r.dots, env);
    LowerJoins(r.labels);
    var lowered := LowerEach(r.labels);
    forall i | 0 <= i < |lowered|
      ensures IsAscii(lowered[i]) && '.' !in lowered[i] && (MatchesLabel(lowered[i]) <==> IsGoodLabel(r.labels[i]))
    {
      LabelMatches(r.labels[i]);
    }
    SplitJoin(lowered, '.');
    AsciiIsKept(lowered, env);
  }

  lemma TypedStrips(r: Rule, before: string, after: string)
    requires IsTypedRule(r) && AreBlanks(before) && AreBlanks(after)
    ensures Strip(before + Typed(r) + after) == Typed(r) && !HasUrlPart(Typed(r))
    ensures '*' !in Name(r) + DotsOf(r.dots)
  {
    hide StripLeft, StripRight, Strip, Join, IsSpace, IsTyped;
    JoinedIsTyped(r.labels);
    var t, rest := Typed(r), Name(r) + DotsOf(r.dots);
    forall i | 0 <= i < |rest| ensures !IsSpace(rest[i]) && rest[i] !in "/:@?#" && rest[i] != '*' {
      TypedIsPlain(rest[i]);
    }
    forall i | 0 <= i < |t| ensures !IsSpace(t[i]) && t[i] !in "/:@?#" {
      if i < |r.form| {
        FormIsPlain(r.form[i]);
      } else {
        assert t[i] == rest[i - |r.form|];
      }
    }
    StripSurrounded(before, t, after);
  }

  lemma FormIsPlain(c: char)
    requires c == '.' || c == '*'
    ensures !IsSpace(c) && c !in "/:@?#"
  {
  }

  /**
   Whatever blanks stand around it and dots after it, a rule typed in ASCII is refused when its
   name spells an address, has more than 253 characters or a label that is not good, or is a
   single label after a star; any other is stored in lower case, in its own form.
   */
  lemma TypedRuleIsStored(r: Rule, before: string, after: string, env: Env)
    requires IsTypedRule(r) && LowersAscii(env) && AreBlanks(before) && AreBlanks(after)
    ensures Normalize(before + Typed(r) + after, env) ==
            if env.isAddress(StripBoth(LowerAll(Name(r)), Bracket())) then Err(IpAddress)
            else if |Name(r)| > 253 || exists i :: 0 <= i < |r.labels| && !IsGoodLabel(r.labels[i]) then Err(NotAName)
            else if r.form == "*." && |r.labels| == 1 then Err(TooWide)
            else Ok(r.form + LowerAll(Name(r)))
  {
    hide Hostname, Strip, StripBoth, HasUrlPart, IsGoodLabel, Join, LowersAscii, DotsOf, IsTyped;
    TypedStrips(r, before, after);
    HostnameOfTyped(r, env);
    JoinedIsTyped(r.labels);
    DotSurvives(Name(r));
    var t, rest := Typed(r), Name(r) + DotsOf(r.dots);
    if r.form == "" {
      assert t == rest && rest[0] == Name(r)[0];
      StartIsNoForm(Name(r)[0]);
      assert r.form + LowerAll(Name(r)) == LowerAll(Name(r));
      assert t[..1][0] == t[0] && (|t| >= 2 ==> t[..2][0] == t[0]);
    } else if r.form == "." {
      assert t[..1] == "." && t[1..] == rest && (|t| >= 2 ==> t[..2][0] == '.');
      assert '*' !in t;
    } else {
      assert t[..2] == "*." && t[2..] == rest;
    }
  }

  lemma StartIsNoForm(c: char)
    requires IsTyped(c)
    ensures c != '.' && c != '*'
  {
  }

  lemma DotSurvives(s: string)
    ensures '.' in LowerAll(s) <==> '.' in s
  {
    forall i | 0 <= i < |s| ensures LowerAll(s)[i] == '.' <==> s[i] == '.' {
    }
    if '.' in s {
      var i :| 0 <= i < |s| && s[i] == '.';
      assert LowerAll(s)[i] == '.';
    }
  }
}
