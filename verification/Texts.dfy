/** Python string helpers shared by the text-handling modules. */
module Texts {
  /** The characters `str.strip` removes and `\s` matches. */
  predicate IsSpace(c: char) {
    var code := c as int;
    || 0x09 <= code <= 0x0D
    || 0x1C <= code <= 0x20
    || code == 0x85 || code == 0xA0 || code == 0x1680
    || 0x2000 <= code <= 0x200A
    || code == 0x2028 || code == 0x2029 || code == 0x202F || code == 0x205F || code == 0x3000
  }

  /** `str.lstrip`, `str.rstrip` and `str.strip` for one kind of character. */
  function StripLeft(s: string, drop: char -> bool): string {
    if s != "" && drop(s[0]) then StripLeft(s[1..], drop) else s
  }

  function StripRight(s: string, drop: char -> bool): string {
    if s != "" && drop(s[|s| - 1]) then StripRight(s[..|s| - 1], drop) else s
  }

  function StripBoth(s: string, drop: char -> bool): string {
    StripRight(StripLeft(s, drop), drop)
  }

  function Space(): char -> bool {
    c => IsSpace(c)
  }

  /** `str.strip()` */
  function Strip(s: string): string {
    StripBoth(s, Space())
  }

  /** What is left begins and ends with something else, and is a piece of the original. */
  lemma {:induction false} StripRightEnds(s: string, drop: char -> bool)
    ensures var r := StripRight(s, drop);
            |r| <= |s| && r == s[..|r|] && (r != "" ==> !drop(r[|r| - 1])) && forall i :: |r| <= i < |s| ==> drop(s[i])
    decreases |s|
  {
    if s != "" && drop(s[|s| - 1]) {
      StripRightEnds(s[..|s| - 1], drop);
    }
  }

  lemma {:induction false} StripLeftStarts(s: string, drop: char -> bool)
    ensures var r := StripLeft(s, drop);
            |r| <= |s| && r == s[|s| - |r|..] && (r != "" ==> !drop(r[0])) && forall i :: 0 <= i < |s| - |r| ==>
              drop(s[i])
    decreases |s|
  {
    if s != "" && drop(s[0]) {
      StripLeftStarts(s[1..], drop);
    }
  }

  lemma StripBothEnds(s: string, drop: char -> bool)
    ensures var r := StripBoth(s, drop);
            r != "" ==> !drop(r[0]) && !drop(r[|r| - 1])
  {
    hide StripLeft, StripRight;
    StripLeftStarts(s, drop);
    StripRightEnds(StripLeft(s, drop), drop);
  }

  /** Nothing is stripped exactly when neither end is strippable. */
  lemma StripKeeps(s: string, drop: char -> bool)
    ensures StripBoth(s, drop) == s <==> s == "" || (!drop(s[0]) && !drop(s[|s| - 1]))
  {
    StripBothEnds(s, drop);
  }

  /** `str.lower` of ASCII; no other character lower-cases to an ASCII letter these modules look for. */
  function Lower(c: char): char {
    if 'A' <= c <= 'Z' then (c as int + 32) as char else c
  }

  function LowerAll(s: string): (r: string)
    ensures |r| == |s|
  {
    seq(|s|, i requires 0 <= i < |s| => Lower(s[i]))
  }

  /** How Python orders strings. */
  function CodePoints(s: string): (k: seq<int>)
    ensures |k| == |s|
  {
    seq(|s|, i requires 0 <= i < |s| => s[i] as int)
  }

  lemma CodePointsDiffer(a: string, b: string)
    requires CodePoints(a) == CodePoints(b)
    ensures a == b
  {
    assert |a| == |b|;
    forall i | 0 <= i < |a| ensures a[i] == b[i] {
      assert CodePoints(a)[i] == CodePoints(b)[i];
    }
  }

  predicate StartsWith(text: string, prefix: string) {
    |prefix| <= |text| && text[..|prefix|] == prefix
  }

  predicate EndsWith(text: string, suffix: string) {
    |suffix| <= |text| && text[|text| - |suffix|..] == suffix
  }

  /** `str.replace` of one character by another. */
  function Replace(text: string, what: char, with: char): (r: string)
    ensures |r| == |text|
  {
    seq(|text|, i requires 0 <= i < |text| => if text[i] == what then with else text[i])
  }

  /** `str.split` on one character: always at least one part. */
  function Split(s: string, at: char): (parts: seq<string>)
    ensures |parts| >= 1
  {
    if s == "" then [""]
    else
      var rest := Split(s[1..], at);
      if s[0] == at then [""] + rest else [[s[0]] + rest[0]] + rest[1..]
  }

  /** `str.join` of one character. */
  function Join(parts: seq<string>, with: char): string
    requires parts != []
  {
    if |parts| == 1 then parts[0] else parts[0] + [with] + Join(parts[1..], with)
  }

  lemma {:induction false} SplitWhole(part: string, at: char)
    requires at !in part
    ensures Split(part, at) == [part]
    decreases |part|
  {
    if part != "" {
      SplitWhole(part[1..], at);
      assert [part[0]] + part[1..] == part && [part[1..]][1..] == [];
    }
  }

  lemma {:induction false} SplitFirst(part: string, rest: string, at: char)
    requires at !in part
    ensures Split(part + [at] + rest, at) == [part] + Split(rest, at)
    decreases |part|
  {
    var s := part + [at] + rest;
    if part == "" {
      assert s[1..] == rest;
    } else {
      assert s[0] == part[0] && s[1..] == part[1..] + [at] + rest;
      SplitFirst(part[1..], rest, at);
      var parts := [part[1..]] + Split(rest, at);
      assert parts[1..] == Split(rest, at) && [part[0]] + part[1..] == part;
    }
  }

  lemma {:induction false} SplitJoin(parts: seq<string>, at: char)
    requires parts != [] && forall i :: 0 <= i < |parts| ==> at !in parts[i]
    ensures Split(Join(parts, at), at) == parts
    decreases |parts|
  {
    hide Split;
    if |parts| == 1 {
      SplitWhole(parts[0], at);
    } else {
      SplitJoin(parts[1..], at);
      SplitFirst(parts[0], Join(parts[1..], at), at);
    }
  }

  lemma {:induction false} JoinSplit(s: string, at: char)
    ensures Join(Split(s, at), at) == s
    decreases |s|
  {
    if s != "" {
      JoinSplit(s[1..], at);
      var rest := Split(s[1..], at);
      if s[0] == at {
        assert ([""] + rest)[1..] == rest;
        assert "" + [at] + Join(rest, at) == s;
      } else if |rest| > 1 {
        var parts := [[s[0]] + rest[0]] + rest[1..];
        assert parts[1..] == rest[1..];
        assert Join(parts, at) == ([s[0]] + rest[0]) + [at] + Join(rest[1..], at);
        assert Join(rest, at) == rest[0] + [at] + Join(rest[1..], at);
      } else {
        assert ([[s[0]] + rest[0]] + rest[1..]) == [[s[0]] + rest[0]];
      }
    }
  }
}
