/** Which manifests the rewrite refuses for their strings. */
module ManifestRefusals {
  import opened Wrappers
  import opened Bytes
  import opened StringPools
  import opened Axml
  import opened ManifestRewrite

  predicate StandsAt(strings: seq<string>, s: string, i: nat) {
    i < |strings| && strings[i] == s
  }

  /** The pool holds this whole string at one place, and at no other. */
  ghost predicate StandsOnce(strings: seq<string>, s: string) {
    exists i: nat :: StandsAt(strings, s, i) && forall j: nat :: StandsAt(strings, s, j) ==> j == i
  }

  lemma {:induction false} NoneStand(strings: seq<string>, s: string)
    ensures Count(strings, s) == 0 <==> forall i: nat :: !StandsAt(strings, s, i)
    decreases |strings|
  {
    if strings != [] {
      NoneStand(strings[1..], s);
      assert forall i: nat :: StandsAt(strings[1..], s, i) <==> StandsAt(strings, s, i + 1);
      assert forall i: nat :: i > 0 && StandsAt(strings, s, i) ==> StandsAt(strings[1..], s, i - 1);
      assert strings[0] == s ==> StandsAt(strings, s, 0);
    }
  }

  lemma {:induction false} CountMeans(strings: seq<string>, s: string)
    ensures Count(strings, s) == 1 <==> StandsOnce(strings, s)
    decreases |strings|
  {
    if strings != [] {
      var rest := strings[1..];
      assert forall i: nat :: StandsAt(rest, s, i) <==> StandsAt(strings, s, i + 1);
      assert forall i: nat :: i > 0 && StandsAt(strings, s, i) ==> StandsAt(rest, s, i - 1);
      if strings[0] == s {
        NoneStand(rest, s);
        assert StandsAt(strings, s, 0);
      } else {
        CountMeans(rest, s);
        hide Count;
        if StandsOnce(rest, s) {
          var i: nat :| StandsAt(rest, s, i) && forall j: nat :: StandsAt(rest, s, j) ==> j == i;
          assert StandsAt(strings, s, i + 1);
        }
        if StandsOnce(strings, s) {
          var i: nat :| StandsAt(strings, s, i) && forall j: nat :: StandsAt(strings, s, j) ==> j == i;
          assert StandsAt(rest, s, i - 1);
        }
      }
    }
  }

  /** Something, the part, and something again. */
  ghost predicate IsPartOf(part: string, whole: string) {
    exists before, after :: whole == before + part + after
  }

  lemma ContainsMeans(whole: string, part: string)
    ensures Contains(whole, part) <==> IsPartOf(part, whole)
  {
    if Contains(whole, part) {
      var i :| 0 <= i <= |whole| && OccursAt(whole, part, i);
      assert whole == whole[..i] + part + whole[i + |part|..];
    }
    if before, after :| whole == before + part + after {
      assert OccursAt(whole, part, |before|);
    }
  }

  const PACKAGE := "com.taksolutions.atlaslink.template"

  /** The template's package stands as part of another string. */
  ghost predicate StraysIn(strings: seq<string>) {
    exists s :: s in strings && s != PACKAGE && IsPartOf(PACKAGE, s)
  }

  lemma StrayMeans(strings: seq<string>)
    ensures NamesPackageElsewhere(strings) <==> StraysIn(strings)
  {
    forall s ensures Contains(s, PACKAGE) <==> IsPartOf(PACKAGE, s) {
      ContainsMeans(s, PACKAGE);
    }
    hide Contains, IsPartOf;
  }

  /**
   Of a readable manifest: it is refused if some placeholder does not stand exactly once in the
   pool, then if the package stands inside another string, and for these reasons only then.
   */
  lemma RefusedForItsStrings(data: bytes, replacements: Replacements, version: nat)
    requires |data| >= 8 && U16At(data, 0) == RES_XML && StrictPool(data, U16At(data, 2)).Ok?
    ensures var strings := StrictPool(data, U16At(data, 2)).value.strings;
            var once, r := forall s :: s in replacements ==>
                  StandsOnce(strings, s), Rewritten(data, replacements, version);
            && (r == Err(NotExactlyOnce) <==> !once)
            && (r == Err(StrayPackage) <==> once && StraysIn(strings))
            && (r.Ok? ==> once && !StraysIn(strings))
  {
    hide U16At, StrictPool, Encoded, FindVersionCode, Reassembled, ReplaceAll, Count, Contains, NamesPackageElsewhere,
         StandsOnce, StraysIn;
    var strings := StrictPool(data, U16At(data, 2)).value.strings;
    StrayMeans(strings);
    forall s ensures Count(strings, s) == 1 <==> StandsOnce(strings, s) {
      CountMeans(strings, s);
    }
    SearchErrs(Slice(data, U16At(data, 2) + StrictPool(data, U16At(data, 2)).value.chunkSize, |data|), 0, strings, []);
  }

  /** The search for versionCode has errors of its own. */
  lemma {:induction false} SearchErrs(chunks: bytes, position: nat, strings: seq<string>, ids: seq<nat>)
    ensures var found := FindVersionCode(chunks, position, strings, ids);
            found.Err? ==> found.error != NotExactlyOnce && found.error != StrayPackage
    decreases |chunks| - position
  {
    hide U16At, U32At, ReadIds, FindAttribute;
    if position + 8 <= |chunks| {
      var kind, header, size := U16At(chunks, position), U16At(chunks, position + 2), U32At(chunks, position + 4);
      if kind == RES_XML_RESOURCE_MAP && ReadIds(chunks, position, header, size).Ok? && size > 0 {
        SearchErrs(chunks, position + size, strings, ReadIds(chunks, position, header, size).value);
      } else if size > 0 {
        SearchErrs(chunks, position + size, strings, ids);
      }
      if position + header + 14 <= |chunks| {
        AttributeErrs(chunks, position + header + U16At(chunks, position + header + 8),
                      U16At(chunks, position + header + 10), 0, U16At(chunks, position + header + 12), ids);
      }
    }
  }

  lemma {:induction false} AttributeErrs(chunks: bytes, at: nat, size: nat, i: nat, count: nat, ids: seq<nat>)
    ensures var found := FindAttribute(chunks, at, size, i, count, ids);
            found.Err? ==> found.error != NotExactlyOnce && found.error != StrayPackage
    decreases count - i
  {
    hide AttributeBase, U32At, Byte;
    if i < count {
      AttributeErrs(chunks, at, size, i + 1, count, ids);
    }
  }
}
