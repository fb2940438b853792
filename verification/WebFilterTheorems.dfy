/** Deciding a host is walking its label suffixes; stored rules have one form. */
module WebFilterTheorems {
  import opened Wrappers
  import opened Texts
  import opened WebFilter

  // ------------------------------------------------------- rules

  predicate IsName(name: string) {
    name != "" && name[0] != '.' && name[0] != '*'
  }

  /** `*`, `*.name`, `.name` or `name`. */
  predicate IsRule(pattern: string) {
    pattern == STAR ||
    (IsName(NameOf(pattern)) &&
     (pattern == NameOf(pattern) || pattern == "." + NameOf(pattern) || pattern == "*." + NameOf(pattern)))
  }

  ghost predicate AllRules(patterns: seq<string>) {
    forall i :: 0 <= i < |patterns| ==> IsRule(patterns[i])
  }

  lemma NamesOfForms(name: string)
    requires IsName(name)
    ensures NameOf(name) == name && NameOf("." + name) == name && NameOf("*." + name) == name
    ensures IsRule(name) && IsRule("." + name) && IsRule("*." + name)
    ensures name != STAR && "." + name != STAR && "*." + name != STAR
  {
    assert ("*." + name)[..2] == "*." && ("*." + name)[2..] == name;
    assert ("." + name)[..1] == "." && ("." + name)[1..] == name;
    assert !StartsWith("." + name, "*.") && !StartsWith(name, "*.") && !StartsWith(name, ".");
  }

  // ------------------------------------------------------- the walk

  /** A label of the host begins at `i`. */
  predicate LabelStarts(host: string, i: nat) {
    i < |host| && host[i] != '.' && (i == 0 || host[i - 1] == '.')
  }

  /** The rules about the suffix from `i`: exactly the host or its subdomains only, then the whole site. */
  function TriesAt(host: string, i: nat): seq<string>
    requires i <= |host|
  {
    if !LabelStarts(host, i) then []
    else if i == 0 then ["." + host, host]
    else ["*." + host[i..], host[i..]]
  }

  /** Every rule that could match the host: label suffixes from longest to shortest, then `*`. */
  function Tries(host: string, i: nat): seq<string>
    requires i <= |host|
    decreases |host| - i
  {
    if i == |host| then [STAR] else TriesAt(host, i) + Tries(host, i + 1)
  }

  /** The first of these on a list decides, block before allow; a host none of them names is allowed. */
  function Walk(tries: seq<string>, allowlist: set<string>, blocklist: set<string>): Verdict {
    if tries == [] then Verdict(true, None)
    else if tries[0] in blocklist then VerdictOf(Candidate(tries[0], Blocklist))
    else if tries[0] in allowlist then VerdictOf(Candidate(tries[0], Allowlist))
    else Walk(tries[1..], allowlist, blocklist)
  }

  // ------------------------------------------------------- what the walk tries is what matches

  lemma {:induction false} TriesHold(host: string, i: nat, p: string)
    requires i <= |host|
    ensures p in Tries(host, i) <==> p == STAR || exists j :: i <= j < |host| && p in TriesAt(host, j)
    decreases |host| - i
  {
    hide TriesAt;
    if i < |host| {
      TriesHold(host, i + 1, p);
    }
  }

  lemma SiteMatches(name: string, host: string)
    requires IsName(name)
    ensures Matches(name, host) <==> host == name || EndsWith(host, "." + name)
  {
    assert name[..1][0] == name[0];
    assert |name| >= 2 ==> name[..2][0] == name[0];
    hide EndsWith;
  }

  lemma ExactMatches(name: string, host: string)
    requires IsName(name)
    ensures Matches("." + name, host) <==> host == name
  {
    assert ("." + name)[..1] == "." && ("." + name)[..2][0] == '.' && ("." + name)[1..] == name;
    hide EndsWith;
  }

  lemma SubdomainMatches(name: string, host: string)
    requires IsName(name)
    ensures Matches("*." + name, host) <==> EndsWith(host, "." + name)
  {
    assert ("*." + name)[..2] == "*." && "*." + name == "*" + ("." + name);
    assert |"*." + name| > 1;
    hide EndsWith;
  }

  /** How each form of a rule matches. */
  lemma MatchesByForm(name: string, host: string)
    requires IsName(name)
    ensures Matches(name, host) <==> host == name || EndsWith(host, "." + name)
    ensures Matches("." + name, host) <==> host == name
    ensures Matches("*." + name, host) <==> EndsWith(host, "." + name)
  {
    hide Matches, EndsWith;
    SiteMatches(name, host);
    ExactMatches(name, host);
    SubdomainMatches(name, host);
  }

  lemma TriedMatches(host: string, j: nat, p: string)
    requires j < |host| && p in TriesAt(host, j) && '*' !in host
    ensures IsRule(p) && Matches(p, host)
  {
    var name := host[j..];
    NamesOfForms(name);
    MatchesByForm(name, host);
    hide Matches, IsRule, NameOf;
    if j == 0 {
      assert host[0..] == host;
    } else {
      assert host[j - 1..] == "." + name;
    }
  }

  lemma MatchingIsTried(host: string, p: string) returns (j: nat)
    requires IsRule(p) && Matches(p, host) && p != STAR
    ensures j < |host| && p in TriesAt(host, j)
  {
    var name := NameOf(p);
    MatchesByForm(name, host);
    hide Matches, NameOf;
    j := |host| - |name|;
    if host == name {
      assert host[0..] == host;
    }
    if EndsWith(host, "." + name) {
      assert host[j - 1..] == "." + name;
      assert host[j - 1..][1..] == host[j..];
    }
  }

  lemma MatchesAreTries(host: string, p: string)
    requires IsRule(p) && '*' !in host
    ensures Matches(p, host) <==> p in Tries(host, 0)
  {
    hide TriesAt, Matches, IsRule;
    TriesHold(host, 0, p);
    if p == STAR {
      StarMatches(host);
    } else {
      if Matches(p, host) {
        var j := MatchingIsTried(host, p);
      }
      if p in Tries(host, 0) {
        var j :| 0 <= j < |host| && p in TriesAt(host, j);
        TriedMatches(host, j, p);
      }
    }
  }

  lemma StarMatches(host: string)
    ensures Matches(STAR, host)
  {
  }

  // ------------------------------------------------------- the walk goes from most to least specific

  /** The most labels a name tried from `i` on can have. */
  function MostLabels(host: string, i: nat): nat
    requires i <= |host|
  {
    Dots(host[i..]) + if i == 0 || host[i - 1] == '.' then 1 else 0
  }

  lemma MostLabelsFall(host: string, i: nat)
    requires i < |host|
    ensures MostLabels(host, i + 1) <= MostLabels(host, i)
    ensures LabelStarts(host, i) ==> MostLabels(host, i + 1) < MostLabels(host, i)
  {
    assert host[i..][1..] == host[i + 1..];
  }

  predicate AtMost(p: string, labels: nat) {
    p == STAR || (p != "" && SpecificityOf(p).named == 1 && SpecificityOf(p).labels <= labels)
  }

  ghost predicate Falls(tries: seq<string>) {
    && (forall i :: 0 <= i < |tries| ==> tries[i] != "")
    && (forall i, j :: 0 <= i < j < |tries| ==> Above(SpecificityOf(tries[i]), SpecificityOf(tries[j])))
  }

  lemma TriesAtSpecificity(host: string, i: nat)
    requires i < |host| && LabelStarts(host, i) && '*' !in host
    ensures var t, n := TriesAt(host, i), MostLabels(host, i);
            && |t| == 2 && t[0] != "" && t[1] != ""
            && SpecificityOf(t[0]).named == 1 && SpecificityOf(t[0]).labels == n && SpecificityOf(t[0]).kind > 1
            && SpecificityOf(t[1]) == Specificity(1, n, 1)
  {
    NamesOfForms(host[i..]);
    assert host[0..] == host;
  }

  lemma {:induction false} TriesFall(host: string, i: nat)
    requires i <= |host| && '*' !in host
    ensures Falls(Tries(host, i))
    ensures forall k :: 0 <= k < |Tries(host, i)| ==> AtMost(Tries(host, i)[k], MostLabels(host, i))
    decreases |host| - i
  {
    hide TriesAt, MostLabels, SpecificityOf, LabelStarts;
    if i < |host| {
      TriesFall(host, i + 1);
      MostLabelsFall(host, i);
      var here, later := TriesAt(host, i), Tries(host, i + 1);
      if LabelStarts(host, i) {
        TriesAtSpecificity(host, i);
        HeadsFall(here, later, MostLabels(host, i), MostLabels(host, i + 1));
      } else {
        NothingTried(host, i);
        assert here + later == later;
      }
    } else {
      StarIsLowest();
    }
  }

  lemma NothingTried(host: string, i: nat)
    requires i <= |host| && !LabelStarts(host, i)
    ensures TriesAt(host, i) == []
  {
  }

  lemma StarIsLowest()
    ensures Falls([STAR]) && SpecificityOf(STAR) == Specificity(0, 0, 0)
  {
  }

  lemma HeadsFall(here: seq<string>, later: seq<string>, n: nat, m: nat)
    requires |here| == 2 && here[0] != "" && here[1] != ""
    requires SpecificityOf(here[0]).named == 1 && SpecificityOf(here[0]).labels == n && SpecificityOf(here[0]).kind > 1
    requires SpecificityOf(here[1]) == Specificity(1, n, 1)
    requires Falls(later) && m < n && forall k :: 0 <= k < |later| ==> AtMost(later[k], m)
    ensures Falls(here + later)
    ensures forall k :: 0 <= k < |here + later| ==> AtMost((here + later)[k], n)
  {
    StarIsLowest();
    hide SpecificityOf;
    var all := here + later;
    assert all[0] == here[0] && all[1] == here[1] && forall k :: 2 <= k < |all| ==> all[k] == later[k - 2];
    forall k | 2 <= k < |all|
      ensures AtMost(all[k], m) && all[k] != "" && Above(SpecificityOf(here[1]), SpecificityOf(all[k]))
    {
      assert AtMost(later[k - 2], m);
    }
    forall i, j | 2 <= i < j < |all| ensures Above(SpecificityOf(all[i]), SpecificityOf(all[j])) {
      assert Above(SpecificityOf(later[i - 2]), SpecificityOf(later[j - 2]));
    }
  }

  /** Two rules that match one host and are equally specific are the same rule. */
  lemma SameSpecificitySameRule(host: string, p: string, q: string)
    requires IsRule(p) && IsRule(q) && Matches(p, host) && Matches(q, host) && '*' !in host
    ensures p != "" && q != "" && (SpecificityOf(p) == SpecificityOf(q) ==> p == q)
  {
    MatchesAreTries(host, p);
    MatchesAreTries(host, q);
    TriesFall(host, 0);
    hide SpecificityOf, IsRule, Matches, Tries;
    var tries := Tries(host, 0);
    var i :| 0 <= i < |tries| && tries[i] == p;
    var j :| 0 <= j < |tries| && tries[j] == q;
  }

  // ------------------------------------------------------- evaluate refines the walk

  lemma {:induction false} StrongestIsUnbeaten(candidates: seq<Candidate>, c: Candidate)
    requires candidates != [] && (forall i :: 0 <= i < |candidates| ==> candidates[i].pattern != "") && c in candidates
    ensures !Outranks(c, Strongest(candidates))
    decreases |candidates|
  {
    hide SpecificityOf;
    if |candidates| > 1 {
      var before, last := candidates[..|candidates| - 1], candidates[|candidates| - 1];
      assert candidates == before + [last];
      if c in before {
        StrongestIsUnbeaten(before, c);
      }
    }
  }

  function ToSet(patterns: seq<string>): set<string> {
    set p | p in patterns
  }

  /** Where the walk stops. */
  lemma {:induction false} WalkStops(tries: seq<string>, allowlist: set<string>, blocklist: set<string>)
    returns (k: nat)
    ensures k <= |tries|
    ensures forall j :: 0 <= j < k ==> tries[j] !in allowlist && tries[j] !in blocklist
    ensures k == |tries| ==> Walk(tries, allowlist, blocklist) == Verdict(true, None)
    ensures k < |tries| ==> tries[k] in allowlist || tries[k] in blocklist
    ensures k < |tries| ==>
              Walk(tries, allowlist, blocklist) ==
              VerdictOf(Candidate(tries[k], if tries[k] in blocklist then Blocklist else Allowlist))
    decreases |tries|
  {
    if tries == [] || tries[0] in blocklist || tries[0] in allowlist {
      k := 0;
    } else {
      k := WalkStops(tries[1..], allowlist, blocklist);
      k := k + 1;
    }
  }

  lemma CandidatesAreTries(host: string, patterns: seq<string>, source: Source, c: Candidate)
    requires AllRules(patterns) && '*' !in host
    ensures c in Candidates(patterns, host, source) <==>
              c.source == source && c.pattern in patterns && c.pattern in Tries(host, 0)
  {
    hide IsRule, Matches;
    if c.pattern in patterns {
      var i :| 0 <= i < |patterns| && patterns[i] == c.pattern;
      MatchesAreTries(host, c.pattern);
    }
  }

  lemma RulesAreNotEmpty(patterns: seq<string>)
    requires AllRules(patterns)
    ensures NoneEmpty(patterns)
  {
  }

  /**
   For lists of rules, `evaluate` is the walk: the host's label suffixes from longest to
   shortest, at each the exact rule or the subdomain rule, then the site rule, finally `*`, and
   block before allow every time.
   */
  lemma EvaluateIsTheWalk(host: string, allowlist: seq<string>, blocklist: seq<string>)
    requires AllRules(allowlist) && AllRules(blocklist) && '*' !in host
    ensures NoneEmpty(allowlist) && NoneEmpty(blocklist)
    ensures Evaluate(host, allowlist, blocklist) == Walk(Tries(host, 0), ToSet(allowlist), ToSet(blocklist))
  {
    hide SpecificityOf, IsRule, Matches, Tries, Walk, Strongest, Candidates;
    RulesAreNotEmpty(allowlist);
    RulesAreNotEmpty(blocklist);
    var tries := Tries(host, 0);
    var candidates := Candidates(allowlist, host, Allowlist) + Candidates(blocklist, host, Blocklist);
    forall c
      ensures c in candidates <==>
                c.pattern in tries && c.pattern in if c.source == Allowlist then allowlist else blocklist
    {
      CandidatesAreTries(host, allowlist, Allowlist, c);
      CandidatesAreTries(host, blocklist, Blocklist, c);
    }
    TriesFall(host, 0);
    var k := WalkStops(tries, ToSet(allowlist), ToSet(blocklist));
    if k == |tries| {
      NobodyListed(tries, candidates, allowlist, blocklist);
    } else {
      var first := Candidate(tries[k], if tries[k] in blocklist then Blocklist else Allowlist);
      assert first in candidates;
      FirstIsStrongest(tries, k, candidates, allowlist, blocklist, first);
    }
  }

  lemma NobodyListed(tries: seq<string>, candidates: seq<Candidate>, allowlist: seq<string>, blocklist: seq<string>)
    requires forall c :: c in candidates ==>
               c.pattern in tries && c.pattern in if c.source == Allowlist then allowlist else blocklist
    requires forall j :: 0 <= j < |tries| ==> tries[j] !in allowlist && tries[j] !in blocklist
    ensures candidates == []
  {
    SomeCandidate(candidates);
  }

  lemma SomeCandidate(candidates: seq<Candidate>)
    ensures candidates == [] || exists c :: c in candidates
  {
    if candidates != [] {
      assert candidates[0] in candidates;
    }
  }

  lemma FirstIsStrongest(tries: seq<string>, k: nat, candidates: seq<Candidate>, allowlist: seq<string>,
                         blocklist: seq<string>, first: Candidate)
    requires Falls(tries) && k < |tries|
    requires forall c :: c in candidates ==>
               c.pattern in tries && c.pattern in if c.source == Allowlist then allowlist else blocklist
    requires forall j :: 0 <= j < k ==> tries[j] !in allowlist && tries[j] !in blocklist
    requires first.pattern == tries[k] && first.source == (if tries[k] in blocklist then Blocklist else Allowlist) &&
             first in candidates
    ensures (forall i :: 0 <= i < |candidates| ==> candidates[i].pattern != "") && Strongest(candidates) == first
  {
    hide SpecificityOf, Strongest;
    forall i | 0 <= i < |candidates| ensures candidates[i].pattern != "" {
      assert candidates[i] in candidates;
    }
    var best := Strongest(candidates);
    StrongestIsUnbeaten(candidates, first);
    assert best in candidates;
    var j :| 0 <= j < |tries| && tries[j] == best.pattern;
  }

  // ------------------------------------------------------- what follows

  /** Order and repetition of the lists never matter. */
  lemma OnlyTheRulesMatter(host: string, allow1: seq<string>, block1: seq<string>, allow2: seq<string>,
                           block2: seq<string>)
    requires AllRules(allow1) && AllRules(block1) && AllRules(allow2) && AllRules(block2) && '*' !in host
    requires (forall p :: p in allow1 <==> p in allow2) && forall p :: p in block1 <==> p in block2
    ensures NoneEmpty(allow1) && NoneEmpty(block1) && NoneEmpty(allow2) && NoneEmpty(block2)
    ensures Evaluate(host, allow1, block1) == Evaluate(host, allow2, block2)
  {
    hide Evaluate, IsRule, Tries, Walk;
    EvaluateIsTheWalk(host, allow1, block1);
    EvaluateIsTheWalk(host, allow2, block2);
    assert ToSet(allow1) == ToSet(allow2) && ToSet(block1) == ToSet(block2);
  }

  lemma {:induction false} WalkIsMonotone(tries: seq<string>, allow1: set<string>, block1: set<string>,
                                          allow2: set<string>, block2: set<string>)
    requires allow1 <= allow2 && block2 <= block1
    ensures Walk(tries, allow1, block1).allowed ==> Walk(tries, allow2, block2).allowed
    decreases |tries|
  {
    if tries != [] {
      WalkIsMonotone(tries[1..], allow1, block1, allow2, block2);
    }
  }

  /** More allow rules never block an allowed host; more block rules never free a blocked one. */
  lemma RulesNeverBackfire(host: string, allowlist: seq<string>, blocklist: seq<string>, moreAllow: seq<string>,
                           moreBlock: seq<string>)
    requires AllRules(allowlist) && AllRules(blocklist) && AllRules(moreAllow) && AllRules(moreBlock) && '*' !in host
    ensures NoneEmpty(allowlist) && NoneEmpty(blocklist) && NoneEmpty(allowlist + moreAllow) &&
            NoneEmpty(blocklist + moreBlock)
    ensures Evaluate(host, allowlist, blocklist).allowed ==> Evaluate(host, allowlist + moreAllow, blocklist).allowed
    ensures !Evaluate(host, allowlist, blocklist).allowed ==> !Evaluate(host, allowlist, blocklist + moreBlock).allowed
  {
    hide Evaluate, IsRule, Tries, Walk;
    assert AllRules(allowlist + moreAllow) && AllRules(blocklist + moreBlock);
    EvaluateIsTheWalk(host, allowlist, blocklist);
    EvaluateIsTheWalk(host, allowlist + moreAllow, blocklist);
    EvaluateIsTheWalk(host, allowlist, blocklist + moreBlock);
    var tries, a, b := Tries(host, 0), ToSet(allowlist), ToSet(blocklist);
    WalkIsMonotone(tries, a, b, ToSet(allowlist + moreAllow), b);
    WalkIsMonotone(tries, a, ToSet(blocklist + moreBlock), a, b);
  }

  // ------------------------------------------------------- the stored form

  /** Characters a stored name is made of. */
  predicate IsNameChar(c: char) {
    IsLabelChar(c) || c == '.'
  }

  predicate IsPlain(s: string) {
    forall i :: 0 <= i < |s| ==> IsNameChar(s[i])
  }

  /** What is relied on of the libraries: lower case stays, and no line break or non-ASCII comes out of nothing. */
  ghost predicate Sane(env: Env) {
    && (forall s :: IsPlain(s) ==> env.lower(s) == s)
    && (forall s :: '\n' !in s ==> '\n' !in env.lower(s))
    && (forall s :: IsAscii(s) ==> IsAscii(env.lower(s)))
    && (forall s :: '\n' !in s && env.idna(s).Some? ==> '\n' !in env.idna(s).value)
  }

  ghost predicate StoredName(name: string) {
    && IsPlain(name) && |name| <= 253
    && (forall i :: 0 <= i < |Split(name, '.')| ==> IsLabel(Split(name, '.')[i]))
  }

  /** Rules as they are stored. */
  ghost predicate StoredRule(pattern: string) {
    || pattern == STAR
    || (IsRule(pattern) && StoredName(NameOf(pattern)) && (StartsWith(pattern, "*.") ==> '.' in NameOf(pattern)))
  }

  lemma {:induction false} JoinedIsPlain(parts: seq<string>)
    requires parts != [] && forall i :: 0 <= i < |parts| ==> IsLabel(parts[i])
    ensures IsPlain(Join(parts, '.'))
    ensures var s := Join(parts, '.'); s != "" && IsLabelChar(s[0]) && IsLabelChar(s[|s| - 1])
    decreases |parts|
  {
    assert IsLabel(parts[0]);
    if |parts| > 1 {
      JoinedIsPlain(parts[1..]);
    }
  }

  lemma {:induction false} NoBreakInParts(s: string, at: char)
    ensures forall i :: 0 <= i < |Split(s, at)| ==> forall c :: c in Split(s, at)[i] ==> c in s
    decreases |s|
  {
    if s != "" {
      NoBreakInParts(s[1..], at);
      assert s == [s[0]] + s[1..];
      var rest := Split(s[1..], at);
      assert forall c :: c in rest[0] ==> c in s[1..];
    }
  }

  lemma {:induction false} EncodedHasNoBreak(labels: seq<string>, env: Env)
    requires Sane(env) && EncodeLabels(labels, env).Some?
    requires forall i :: 0 <= i < |labels| ==> '\n' !in labels[i]
    ensures |EncodeLabels(labels, env).value| == |labels|
    ensures forall i :: 0 <= i < |labels| ==> '\n' !in EncodeLabels(labels, env).value[i]
    ensures (forall i :: 0 <= i < |labels| ==> IsAscii(labels[i])) ==> EncodeLabels(labels, env).value == labels
    decreases |labels|
  {
    if labels != [] {
      EncodedHasNoBreak(labels[1..], env);
    }
  }

  lemma {:induction false} AsciiIsKept(labels: seq<string>, env: Env)
    requires forall i :: 0 <= i < |labels| ==> IsAscii(labels[i])
    ensures EncodeLabels(labels, env) == Some(labels)
    decreases |labels|
  {
    if labels != [] {
      AsciiIsKept(labels[1..], env);
      assert [labels[0]] + labels[1..] == labels;
    }
  }

  lemma LabelsHaveNoBreak(part: string)
    requires MatchesLabel(part) && '\n' !in part
    ensures IsLabel(part) && '.' !in part
  {
    assert part != "" ==> part[|part| - 1] in part;
  }

  lemma StrippedHasNoBreak(text: string)
    requires '\n' !in text
    ensures '\n' !in Strip(text)
  {
    hide StripLeft, StripRight;
    StripLeftStarts(text, Space());
    StripRightEnds(StripLeft(text, Space()), Space());
  }

  /** A host name that is accepted is made of valid labels. */
  lemma HostnameIsStored(text: string, env: Env)
    requires Sane(env) && '\n' !in text && Hostname(text, env).Ok?
    ensures StoredName(Hostname(text, env).value) && IsName(Hostname(text, env).value)
  {
    hide StripLeft, StripRight, Split, Join, EncodeLabels, MatchesLabel, IsLabel, Sane, Strip;
    StrippedHasNoBreak(text);
    var lowered := env.lower(Strip(text));
    assert '\n' !in lowered by { SaneLower(env, Strip(text)); }
    StripRightEnds(lowered, Dot());
    var name := StripRight(lowered, Dot());
    NoBreakInParts(name, '.');
    EncodedHasNoBreak(Split(name, '.'), env);
    var labels := EncodeLabels(Split(name, '.'), env).value;
    forall i | 0 <= i < |labels| ensures IsLabel(labels[i]) && '.' !in labels[i] {
      LabelsHaveNoBreak(labels[i]);
    }
    SplitJoin(labels, '.');
    JoinedIsPlain(labels);
  }

  lemma SaneLower(env: Env, s: string)
    requires Sane(env) && '\n' !in s
    ensures '\n' !in env.lower(s)
  {
  }

  lemma UrlPartHasBreak(text: string)
    requires !HasUrlPart(text)
    ensures '\n' !in text
  {
    forall i | 0 <= i < |text| ensures text[i] != '\n' {
      assert !IsSpace(text[i]);
    }
  }

  /** Whatever is accepted is a stored rule, so the lists `evaluate` sees hold rules only. */
  lemma NormalizedIsStored(pattern: string, env: Env)
    requires Sane(env) && Normalize(pattern, env).Ok?
    ensures StoredRule(Normalize(pattern, env).value) && IsRule(Normalize(pattern, env).value)
  {
    hide Hostname, Strip, HasUrlPart, Sane, StoredName;
    var text := Strip(pattern);
    if text != STAR {
      UrlPartHasBreak(text);
      if StartsWith(text, "*.") {
        HostnameIsStored(text[2..], env);
        NamesOfForms(Hostname(text[2..], env).value);
      } else if StartsWith(text, ".") && '*' !in text {
        HostnameIsStored(text[1..], env);
        NamesOfForms(Hostname(text[1..], env).value);
        StartsOnce(Hostname(text[1..], env).value);
      } else {
        HostnameIsStored(text, env);
        NamesOfForms(Hostname(text, env).value);
        StartsOnce(Hostname(text, env).value);
      }
    }
  }

  lemma StartsOnce(name: string)
    requires IsName(name)
    ensures !StartsWith("." + name, "*.") && !StartsWith(name, "*.") && !StartsWith(name, ".")
  {
    assert ("." + name)[..2][0] == '.' && name[..1][0] == name[0];
    assert |name| >= 2 ==> name[..2][0] == name[0];
  }

  // ------------------------------------------------------- normalising twice

  lemma PlainStaysPlain(name: string, env: Env)
    requires StoredName(name) && IsName(name) && Sane(env)
    ensures Strip(name) == name && env.lower(name) == name && StripRight(name, Dot()) == name &&
            StripBoth(name, Bracket()) == name
  {
    hide StripLeft, StripRight, IsLabel, Split, Join;
    JoinSplit(name, '.');
    assert forall i :: 0 <= i < |Split(name, '.')| ==> IsLabel(Split(name, '.')[i]);
    JoinedIsPlain(Split(name, '.'));
    StripKeeps(name, Space());
    StripKeeps(name, Bracket());
    LastIsKept(name);
  }

  lemma LastIsKept(name: string)
    requires name != "" && name[|name| - 1] != '.'
    ensures StripRight(name, Dot()) == name
  {
  }

  lemma LabelIsAscii(part: string)
    requires IsLabel(part)
    ensures IsAscii(part) && MatchesLabel(part)
  {
  }

  /** A stored name is its own host name, unless it spells an address. */
  lemma StoredHostname(name: string, env: Env)
    requires StoredName(name) && IsName(name) && Sane(env)
    ensures Hostname(name, env) == if env.isAddress(name) then Err(IpAddress) else Ok(name)
  {
    hide StripLeft, StripRight, IsLabel, Split, Join, MatchesLabel, Sane, EncodeLabels, Strip, StripBoth;
    PlainStaysPlain(name, env);
    var labels := Split(name, '.');
    forall i | 0 <= i < |labels| ensures IsAscii(labels[i]) && MatchesLabel(labels[i]) {
      LabelIsAscii(labels[i]);
    }
    AsciiIsKept(labels, env);
    JoinSplit(name, '.');
  }

  lemma StoredHasNoUrlPart(name: string, prefix: string)
    requires IsPlain(name) && (prefix == "" || prefix == "." || prefix == "*.")
    ensures !HasUrlPart(prefix + name)
  {
    var text := prefix + name;
    forall i | 0 <= i < |text| ensures !(text[i] in "/:@?#" || IsSpace(text[i])) {
      assert i >= |prefix| ==> IsNameChar(name[i - |prefix|]);
    }
  }

  lemma StoredStrips(name: string, prefix: string)
    requires StoredName(name) && IsName(name) && (prefix == "" || prefix == "." || prefix == "*.")
    ensures Strip(prefix + name) == prefix + name && '*' !in name
  {
    hide StripBoth;
    var text := prefix + name;
    assert IsNameChar(name[|name| - 1]) && IsNameChar(name[0]);
    StripKeeps(text, Space());
    forall i | 0 <= i < |name| ensures name[i] != '*' {
      assert IsNameChar(name[i]);
    }
  }

  /** Normalising a stored rule again gives it back, unless its name spells an address. */
  lemma StoredNormalizes(pattern: string, env: Env)
    requires StoredRule(pattern) && Sane(env)
    ensures Normalize(pattern, env) ==
              if pattern != STAR && env.isAddress(NameOf(pattern)) then Err(IpAddress) else Ok(pattern)
  {
    hide Hostname, Strip, HasUrlPart, Sane, StoredName;
    if pattern == STAR {
      StarStrips();
    } else {
      var name := NameOf(pattern);
      NamesOfForms(name);
      StartsOnce(name);
      StoredHostname(name, env);
      var prefix := if pattern == name then "" else if pattern == "." + name then "." else "*.";
      assert pattern == prefix + name;
      StoredStrips(name, prefix);
      StoredIsPlain(name);
      StoredHasNoUrlPart(name, prefix);
      assert pattern == "*." + name ==> pattern[..2] == "*." && pattern[2..] == name;
      assert pattern == "." + name ==> pattern[..1] == "." && pattern[1..] == name;
    }
  }

  lemma StarStrips()
    ensures Strip(STAR) == STAR
  {
    StripKeeps(STAR, Space());
  }

  lemma StoredIsPlain(name: string)
    requires StoredName(name)
    ensures IsPlain(name)
  {
  }

  /**
   Normalising twice is normalising once exactly when the stored name is not an address: the
   address check sees the name before IDNA turns it into ASCII.
   */
  lemma NormalizesOnceUnlessAnAddress(pattern: string, env: Env)
    requires Sane(env) && Normalize(pattern, env).Ok?
    ensures var rule := Normalize(pattern, env).value;
            Normalize(rule, env) == Ok(rule) <==> rule == STAR || !env.isAddress(NameOf(rule))
  {
    hide Normalize, StoredRule, Sane;
    NormalizedIsStored(pattern, env);
    StoredNormalizes(Normalize(pattern, env).value, env);
  }

  lemma {:induction false} PartsAreAscii(s: string, at: char)
    requires IsAscii(s)
    ensures forall i :: 0 <= i < |Split(s, at)| ==> IsAscii(Split(s, at)[i])
    decreases |s|
  {
    if s != "" {
      PartsAreAscii(s[1..], at);
    }
  }

  lemma AsciiHostnameIsNoAddress(text: string, env: Env)
    requires Sane(env) && IsAscii(text) && '\n' !in text && Hostname(text, env).Ok?
    ensures !env.isAddress(Hostname(text, env).value)
  {
    hide StripLeft, StripRight, Split, Join, EncodeLabels, MatchesLabel, IsLabel, StripBoth;
    StripIsAPiece(text);
    var lowered := env.lower(Strip(text));
    StripRightEnds(lowered, Dot());
    var name := StripRight(lowered, Dot());
    PartsAreAscii(name, '.');
    AsciiIsKept(Split(name, '.'), env);
    JoinSplit(name, '.');
    HostnameIsStored(text, env);
    PlainStaysPlain(name, env);
  }

  lemma StripIsAPiece(text: string)
    ensures IsAscii(text) ==> IsAscii(Strip(text))
  {
    hide StripLeft, StripRight;
    StripLeftStarts(text, Space());
    StripRightEnds(StripLeft(text, Space()), Space());
  }

  /** For patterns typed in ASCII, normalising is idempotent. */
  lemma AsciiNormalizesOnce(pattern: string, env: Env)
    requires Sane(env) && IsAscii(pattern) && Normalize(pattern, env).Ok?
    ensures Normalize(Normalize(pattern, env).value, env) == Normalize(pattern, env)
  {
    NormalizesOnceUnlessAnAddress(pattern, env);
    hide Hostname, Strip, HasUrlPart, Sane, StoredName;
    var text := Strip(pattern);
    StripIsAPiece(pattern);
    if text != STAR {
      UrlPartHasBreak(text);
      var rest := if StartsWith(text, "*.") then text[2..]
                  else if StartsWith(text, ".") && '*' !in text then text[1..]
                  else text;
      HostnameIsStored(rest, env);
      NamesOfForms(Hostname(rest, env).value);
      AsciiHostnameIsNoAddress(rest, env);
    }
  }

  // ------------------------------------------------------- an address that slips in

  /** Four full-width digits, which IDNA encodes as ASCII ones. */
  const WIDE: seq<string> := ["\U{FF11}", "\U{FF12}", "\U{FF13}", "\U{FF14}"]
  const NARROW: seq<string> := ["1", "2", "3", "4"]

  /** Full-width digits have no lower case, IDNA encodes each as its ASCII digit, and only those are an address. */
  ghost predicate Narrows(env: Env) {
    && env.lower(Join(WIDE, '.')) == Join(WIDE, '.')
    && (forall i :: 0 <= i < 4 ==> env.idna(WIDE[i]) == Some(NARROW[i]))
    && env.isAddress(Join(NARROW, '.')) && !env.isAddress(Join(WIDE, '.'))
  }

  lemma {:induction false} WideEncodes(i: nat, env: Env)
    requires i <= 4 && Narrows(env)
    ensures EncodeLabels(WIDE[i..], env) == Some(NARROW[i..])
    decreases 4 - i
  {
    hide Join;
    if i == 4 {
      assert WIDE[i..] == [] && NARROW[i..] == [];
    } else {
      assert WIDE[i][0] as int >= 0x80;
      WideEncodes(i + 1, env);
      assert WIDE[i..][0] == WIDE[i] && WIDE[i..][1..] == WIDE[i + 1..];
      assert [NARROW[i]] + NARROW[i + 1..] == NARROW[i..];
    }
  }

  lemma WideJoins()
    ensures Join(WIDE, '.') == "\U{FF11}.\U{FF12}.\U{FF13}.\U{FF14}" && Join(NARROW, '.') == "1.2.3.4"
  {
    assert WIDE[1..][1..] == WIDE[2..] && WIDE[2..][1..] == WIDE[3..];
    assert NARROW[1..][1..] == NARROW[2..] && NARROW[2..][1..] == NARROW[3..];
    assert Join(WIDE[2..], '.') == "\U{FF13}.\U{FF14}" && Join(NARROW[2..], '.') == "3.4";
    assert Join(WIDE[1..], '.') == "\U{FF12}.\U{FF13}.\U{FF14}" && Join(NARROW[1..], '.') == "2.3.4";
  }

  /** The exception is real: four full-width digits are stored as an address, which is refused when stored again. */
  lemma AddressSlipsIn(env: Env)
    requires Sane(env) && Narrows(env)
    ensures Normalize("\U{FF11}.\U{FF12}.\U{FF13}.\U{FF14}", env) == Ok("1.2.3.4")
    ensures Normalize("1.2.3.4", env) == Err(IpAddress)
  {
    WideIsAccepted(env);
    hide Normalize, Join, EncodeLabels, Split, Sane, Hostname, StoredRule;
    NormalizedIsStored(Join(WIDE, '.'), env);
    assert NameOf("1.2.3.4") == "1.2.3.4" by { PlainNameOf(); }
    StoredNormalizes("1.2.3.4", env);
    WideJoins();
  }

  lemma PlainNameOf()
    ensures NameOf("1.2.3.4") == "1.2.3.4"
  {
    NamesOfForms("1.2.3.4");
  }

  lemma WideStrips()
    ensures var text := Join(WIDE, '.');
            Strip(text) == text && StripRight(text, Dot()) == text && StripBoth(text, Bracket()) == text &&
              text != Join(NARROW, '.')
  {
    WideJoins();
    hide Join, StripLeft, StripRight, StripBoth;
    var text := Join(WIDE, '.');
    StripKeeps(text, Space());
    StripKeeps(text, Bracket());
    LastIsKept(text);
    assert text[0] != '1';
  }

  lemma WideHostname(env: Env)
    requires Narrows(env)
    ensures Hostname(Join(WIDE, '.'), env) == Ok("1.2.3.4")
  {
    assert AllLabels(NARROW);
    hide Join, EncodeLabels, Split, Strip, StripRight, StripBoth, AllLabels;
    WideStrips();
    WideEncodes(0, env);
    WideJoins();
    assert WIDE[0..] == WIDE && NARROW[0..] == NARROW;
    SplitJoin(WIDE, '.');
  }

  lemma WideIsAccepted(env: Env)
    requires Narrows(env)
    ensures Normalize(Join(WIDE, '.'), env) == Ok("1.2.3.4")
  {
    WideHostname(env);
    WideJoins();
    hide Join, Hostname, StripLeft, StripRight;
    StripKeeps(Join(WIDE, '.'), Space());
  }
}
