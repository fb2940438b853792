/** Web-filter rules: their stored form, and which rule decides a host. */
module WebFilter {
  import opened Wrappers
  import opened Lists
  import opened Texts

  datatype RuleError = EmptyName | IpAddress | NotAName | NotNameOnly | TooWide | StrayStar

  /** Lower-casing, IDNA encoding and address recognition, which Python's libraries do. */
  datatype Env = Env(lower: string -> string, idna: string -> Option<string>, isAddress: string -> bool)

  const STAR := "*"

  // ------------------------------------------------------------------ stored form

  predicate IsAscii(s: string) {
    forall i :: 0 <= i < |s| ==> s[i] as int < 0x80
  }

  predicate IsLabelChar(c: char) {
    'a' <= c <= 'z' || '0' <= c <= '9' || c == '-'
  }

  predicate IsLabel(part: string) {
    && 1 <= |part| <= 63
    && (forall i :: 0 <= i < |part| ==> IsLabelChar(part[i]))
    && part[0] != '-' && part[|part| - 1] != '-'
  }

  /** The label expression; its `$` also matches before a final line break. */
  predicate MatchesLabel(part: string) {
    IsLabel(part) || (part != "" && part[|part| - 1] == '\n' && IsLabel(part[..|part| - 1]))
  }

  function EncodeLabels(labels: seq<string>, env: Env): Option<seq<string>> {
    if labels == [] then Some([])
    else
      var first := if IsAscii(labels[0]) then Some(labels[0]) else env.idna(labels[0]);
      var rest := EncodeLabels(labels[1..], env);
      if first.Some? && rest.Some? then Some([first.value] + rest.value) else None
  }

  function Dot(): char -> bool {
    c => c == '.'
  }

  function Bracket(): char -> bool {
    c => c == '[' || c == ']'
  }

  predicate AllLabels(labels: seq<string>) {
    forall i :: 0 <= i < |labels| ==> MatchesLabel(labels[i])
  }

  /** `_hostname` */
  function Hostname(text: string, env: Env): Result<string, RuleError> {
    var name := StripRight(env.lower(Strip(text)), Dot());
    if name == "" then Err(EmptyName)
    else if env.isAddress(StripBoth(name, Bracket())) then Err(IpAddress)
    else
      var labels := EncodeLabels(Split(name, '.'), env);
      if labels.None? || labels.value == [] then Err(NotAName)
      else
        var asciiName := Join(labels.value, '.');
        if |asciiName| > 253 || !AllLabels(labels.value) then Err(NotAName) else Ok(asciiName)
  }

  /** Anything that belongs to a URL rather than a name. `://` needs no case of its own. */
  predicate HasUrlPart(text: string) {
    exists i :: 0 <= i < |text| && (text[i] in "/:@?#" || IsSpace(text[i]))
  }

  /** `normalize` */
  function Normalize(pattern: string, env: Env): Result<string, RuleError> {
    var text := Strip(pattern);
    if text == STAR then Ok(STAR)
    else if HasUrlPart(text) then Err(NotNameOnly)
    else if StartsWith(text, "*.") then
      var suffix :- Hostname(text[2..], env);
      if '.' !in suffix then Err(TooWide) else Ok("*." + suffix)
    else if StartsWith(text, ".") && '*' !in text then
      var name :- Hostname(text[1..], env);
      Ok("." + name)
    else if '*' in text then Err(StrayStar)
    else Hostname(text, env)
  }

  /** Every rule's stored form, or the first rule's error. */
  function AllNormalized(patterns: seq<string>, env: Env): Result<seq<string>, RuleError> {
    if patterns == [] then Ok([])
    else
      var before :- AllNormalized(patterns[..|patterns| - 1], env);
      var last :- Normalize(patterns[|patterns| - 1], env);
      Ok(before + [last])
  }

  lemma {:induction false} FirstBadStays(patterns: seq<string>, env: Env, i: nat)
    requires i <= |patterns|
    ensures AllNormalized(patterns[..i], env).Err? ==> AllNormalized(patterns, env) == AllNormalized(patterns[..i], env)
    decreases |patterns|
  {
    hide Normalize;
    if i == |patterns| {
      assert patterns[..i] == patterns;
    } else {
      var shorter := patterns[..|patterns| - 1];
      assert shorter[..i] == patterns[..i];
      FirstBadStays(shorter, env, i);
    }
  }

  /** `normalize_all`: `seen` is the insertion-ordered dictionary's keys. */
  method NormalizeAll(patterns: seq<string>, env: Env) returns (r: Result<seq<string>, RuleError>)
    ensures AllNormalized(patterns, env).Err? ==> r == Err(AllNormalized(patterns, env).error)
    ensures AllNormalized(patterns, env).Ok? ==> r == Ok(Distinct(AllNormalized(patterns, env).value))
  {
    hide Normalize, DistinctBy, SeenBy;
    var seen: seq<string> := [];
    ghost var all: seq<string> := [];
    DistinctOfNothing<string, string>(Self);
    for i := 0 to |patterns|
      invariant AllNormalized(patterns[..i], env) == Ok(all) && seen == Distinct(all)
    {
      assert patterns[..i + 1][..i] == patterns[..i];
      FirstBadStays(patterns, env, i + 1);
      var rule := Normalize(patterns[i], env);
      if rule.Err? {
        return Err(rule.error);
      }
      DistinctSnoc(all, rule.value, Self);
      DistinctSees(all, Self, rule.value);
      SeenIsElement(all, rule.value);
      SeenIsElement(seen, rule.value);
      if rule.value !in seen {
        seen := seen + [rule.value];
      }
      all := all + [rule.value];
    }
    assert patterns[..|patterns|] == patterns;
    return Ok(seen);
  }

  // ------------------------------------------------------------------ deciding

  function RemovePrefix(text: string, prefix: string): string {
    if StartsWith(text, prefix) then text[|prefix|..] else text
  }

  /** `name_of` */
  function NameOf(pattern: string): string {
    RemovePrefix(RemovePrefix(pattern, "*."), ".")
  }

  /** `_matches` */
  predicate Matches(pattern: string, host: string) {
    if pattern == STAR then true
    else if StartsWith(pattern, "*.") then EndsWith(host, pattern[1..])
    else if StartsWith(pattern, ".") then host == pattern[1..]
    else host == pattern || EndsWith(host, "." + pattern)
  }

  function Dots(s: string): nat {
    if s == "" then 0 else (if s[0] == '.' then 1 else 0) + Dots(s[1..])
  }

  datatype Specificity = Specificity(named: int, labels: int, kind: int)

  /** `_specificity`, of patterns that are not empty. */
  function SpecificityOf(pattern: string): Specificity
    requires pattern != ""
  {
    if pattern == STAR then Specificity(0, 0, 0)
    else Specificity(1, Dots(NameOf(pattern)) + 1, if pattern[0] == '.' then 3 else if pattern[0] == '*' then 2 else 1)
  }

  /** Tuple order. */
  predicate Above(a: Specificity, b: Specificity) {
    a.named > b.named || (a.named == b.named && (a.labels > b.labels || (a.labels == b.labels && a.kind > b.kind)))
  }

  datatype Source = Allowlist | Blocklist

  datatype Candidate = Candidate(pattern: string, source: Source)

  /** No list of rules, and so no list of candidates, holds an empty pattern. */
  predicate NoneEmpty(patterns: seq<string>) {
    forall i :: 0 <= i < |patterns| ==> patterns[i] != ""
  }

  function Candidates(patterns: seq<string>, host: string, source: Source): (r: seq<Candidate>)
    ensures forall c :: c in r <==> c.source == source && c.pattern in patterns && Matches(c.pattern, host)
  {
    if patterns == [] then []
    else (if Matches(patterns[0], host) then [Candidate(patterns[0], source)] else []) +
           Candidates(patterns[1..], host, source)
  }

  /** The key `max` compares: specificity, then being on the blocklist. */
  predicate Outranks(a: Candidate, b: Candidate)
    requires a.pattern != "" && b.pattern != ""
  {
    var sa, sb := SpecificityOf(a.pattern), SpecificityOf(b.pattern);
    Above(sa, sb) || (sa == sb && a.source == Blocklist && b.source == Allowlist)
  }

  /** `max`: the first of the candidates that nothing outranks. */
  function Strongest(candidates: seq<Candidate>): (best: Candidate)
    requires candidates != [] && forall i :: 0 <= i < |candidates| ==> candidates[i].pattern != ""
    ensures best in candidates
  {
    if |candidates| == 1 then candidates[0]
    else
      var before, last := Strongest(candidates[..|candidates| - 1]), candidates[|candidates| - 1];
      if Outranks(last, before) then last else before
  }

  datatype Verdict = Verdict(allowed: bool, decidedBy: Option<Candidate>)

  function VerdictOf(c: Candidate): Verdict {
    Verdict(c.source == Allowlist, Some(c))
  }

  /** `evaluate` */
  function Evaluate(host: string, allowlist: seq<string>, blocklist: seq<string>): Verdict
    requires NoneEmpty(allowlist) && NoneEmpty(blocklist)
  {
    var candidates := Candidates(allowlist, host, Allowlist) + Candidates(blocklist, host, Blocklist);
    if candidates == [] then Verdict(true, None) else VerdictOf(Strongest(candidates))
  }
}
