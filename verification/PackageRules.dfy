/** Which manifests a package may have. */
module PackageRules {
  import opened Wrappers
  import opened Texts
  import opened MissionPackage

  /** The element has this attribute, and without the blanks around it, it is this text. */
  predicate Says(e: Element, name: string, text: string) {
    name in e.attrs && Strip(e.attrs[name]) == text
  }

  predicate IsParameter(e: Element, key: string) {
    e.tag == "Parameter" && Says(e, "name", key)
  }

  /** The last parameter of this name gives it this value; without one its value is empty. */
  ghost predicate Gives(children: seq<Element>, key: string, value: string) {
    exists i :: 0 <= i < |children| && IsLastParameter(children, key, i)
                && value == if "value" in children[i].attrs then children[i].attrs["value"] else ""
  }

  predicate IsLastParameter(children: seq<Element>, key: string, i: nat) {
    i < |children| && IsParameter(children[i], key) && forall j :: i < j < |children| ==> !IsParameter(children[j], key)
  }

  /** Which of the children the first with this tag is. */
  predicate IsFirst(children: seq<Element>, tag: string, i: nat) {
    i < |children| && children[i].tag == tag && forall j :: 0 <= j < i ==> children[j].tag != tag
  }

  /** The manifest: its root, its version, its name and uid, and an entry for every row. */
  ghost predicate IsAcceptable(root: Element) {
    && root.tag == "MissionPackageManifest" && Says(root, "version", "2")
    && exists i: nat, j: nat :: IsFirst(root.children, "Configuration", i) && IsFirst(root.children, "Contents", j)
         && (exists name :: name != "" && Gives(root.children[i].children, "name", name))
         && (exists uid :: uid != "" && Gives(root.children[i].children, "uid", uid))
         && forall row :: row in root.children[j].children && row.tag == "Content" ==>
              "zipEntry" in row.attrs && Strip(row.attrs["zipEntry"]) != ""
  }

  /** The name ends in `.cot`, in letters of any case. */
  predicate IsNamedCot(name: string) {
    var k := |name| - 4;
    k >= 0 && name[k] == '.' && name[k + 1] in "cC" && name[k + 2] in "oO" && name[k + 3] in "tT"
  }

  /** Overlays are the rows that are neither ignored nor events, by mark or by name. */
  lemma OverlaysAre(row: PackageContent)
    ensures row.IsOverlay() <==> !row.ignore && !row.markedCot && !IsNamedCot(row.zipEntry)
  {
    var lower := LowerAll(row.zipEntry);
    if |lower| >= 4 {
      var k := |lower| - 4;
      assert lower[k..] == [lower[k], lower[k + 1], lower[k + 2], lower[k + 3]];
    }
  }

  lemma TextMeans(e: Element, name: string, text: string)
    requires text != ""
    ensures TextAttr(e, name) == text <==> Says(e, name, text)
  {
    StripKeeps("", Space());
  }

  lemma {:induction false} ParametersMean(children: seq<Element>, key: string, value: string)
    requires key != ""
    ensures key in ParametersOf(children) && ParametersOf(children)[key] == value <==> Gives(children, key, value)
    decreases |children|
  {
    hide IsParameter;
    if children != [] {
      var before, last := children[..|children| - 1], children[|children| - 1];
      ParametersMean(before, key, value);
      LastCounts(children, key, value);
      ParameterMeans(last, key);
    }
  }

  lemma ParameterMeans(e: Element, key: string)
    requires key != ""
    ensures IsParameter(e, key) <==> e.tag == "Parameter" && TextAttr(e, "name") == key
  {
    TextMeans(e, "name", key);
  }

  lemma LastCounts(children: seq<Element>, key: string, value: string)
    requires children != []
    ensures var before, last := children[..|children| - 1], children[|children| - 1];
            Gives(children, key, value) <==>
            if IsParameter(last, key) then value == Attr(last, "value") else Gives(before, key, value)
  {
    hide IsParameter;
    var n := |children| - 1;
    var before := children[..n];
    if IsParameter(children[n], key) {
      assert IsLastParameter(children, key, n);
    } else {
      forall i: nat | i < n ensures IsLastParameter(children, key, i) <==> IsLastParameter(before, key, i) {
        assert before[i] == children[i];
        assert forall j :: i < j < n ==> before[j] == children[j];
      }
    }
  }

  lemma {:induction false} FirstMeans(children: seq<Element>, tag: string, i: nat)
    ensures FindChild(children, tag) == Some(i) <==> IsFirst(children, tag, i)
    decreases |children|
  {
    if children != [] && children[0].tag != tag && i > 0 {
      FirstMeans(children[1..], tag, i - 1);
      if IsFirst(children[1..], tag, i - 1) {
        assert forall j :: 0 < j < i ==> children[j] == children[1..][j - 1];
      }
    }
  }

  lemma EntryMeans(row: Element)
    ensures TextAttr(row, "zipEntry") != "" <==> "zipEntry" in row.attrs && Strip(row.attrs["zipEntry"]) != ""
  {
    StripKeeps("", Space());
  }

  lemma {:induction false} RowsMean(children: seq<Element>)
    ensures RowsOf(children).Ok? <==>
            forall row :: row in children && row.tag == "Content" ==>
              "zipEntry" in row.attrs && Strip(row.attrs["zipEntry"]) != ""
    decreases |children|
  {
    hide RowOf, Strip;
    if children != [] {
      var before, last := children[..|children| - 1], children[|children| - 1];
      RowsMean(before);
      assert children == before + [last];
      EntryMeans(last);
    }
  }

  lemma PresentMeans(children: seq<Element>)
    ensures Absent(ParametersOf(children)) == [] <==>
            (exists name :: name != "" && Gives(children, "name", name)) &&
            (exists uid :: uid != "" && Gives(children, "uid", uid))
  {
    NonEmptyMeans(children, "name");
    NonEmptyMeans(children, "uid");
    hide Gives, ParametersOf;
  }

  lemma NonEmptyMeans(children: seq<Element>, key: string)
    requires key != ""
    ensures key in ParametersOf(children) && ParametersOf(children)[key] != "" <==>
            exists value :: value != "" && Gives(children, key, value)
  {
    hide Gives, ParametersOf;
    var found := ParametersOf(children);
    if key in found {
      ParametersMean(children, key, found[key]);
    }
    forall value | value != "" && Gives(children, key, value) ensures key in found && found[key] == value {
      ParametersMean(children, key, value);
    }
  }

  /** A manifest is accepted exactly when it is acceptable. */
  lemma AcceptedExactlyWhen(root: Element, place: Place, present: set<string>)
    ensures InspectedRoot(root, place, present).Ok? <==> IsAcceptable(root)
  {
    hide ParametersOf, RowsOf, MissingFrom, TextAttr, FindChild, IsFirst, Gives, Says;
    TextMeans(root, "version", "2");
    forall tag, i: nat ensures FindChild(root.children, tag) == Some(i) <==> IsFirst(root.children, tag, i) {
      FirstMeans(root.children, tag, i);
    }
    var configuration, contents := FindChild(root.children, "Configuration"), FindChild(root.children, "Contents");
    if configuration.Some? && contents.Some? {
      PresentMeans(root.children[configuration.value].children);
      RowsMean(root.children[contents.value].children);
    }
  }

  // ------------------------------------------------------- the parameters of a built package

  /** Each key is given once, with no blanks around it, as in a dictionary. */
  ghost predicate AreEntries(parameters: seq<Parameter>) {
    && (forall i :: 0 <= i < |parameters| ==> parameters[i].key != "" && Strip(parameters[i].key) == parameters[i].key)
    && (forall i, j :: 0 <= i < j < |parameters| ==> parameters[i].key != parameters[j].key)
  }

  lemma RestApart(extra: seq<Parameter>)
    requires AreEntries(extra) && extra != []
    ensures AreEntries(extra[1..]) && forall p :: p in extra[1..] ==> p.key != extra[0].key
    ensures forall p :: p in extra <==> p == extra[0] || p in extra[1..]
  {
    hide Strip;
    forall p | p in extra[1..] ensures p.key != extra[0].key {
      var i :| 0 <= i < |extra| - 1 && extra[1..][i] == p;
      assert extra[i + 1] == p;
    }
    assert extra == [extra[0]] + extra[1..];
  }

  lemma FirstApart(first: Parameter, rest: seq<Parameter>)
    requires AreEntries(rest) && first.key != "" && Strip(first.key) == first.key
    requires forall p :: p in rest ==> p.key != first.key
    ensures AreEntries([first] + rest)
  {
    hide Strip;
    assert forall i :: 0 <= i < |rest| ==> rest[i] in rest;
  }

  lemma {:induction false} OthersAre(extra: seq<Parameter>)
    requires AreEntries(extra)
    ensures forall p :: p in Others(extra) <==> p in extra && p.key != "uid" && p.key != "name"
    ensures AreEntries(Others(extra))
    decreases |extra|
  {
    hide Strip;
    if extra != [] {
      RestApart(extra);
      OthersAre(extra[1..]);
      assert extra[0].key != "" && Strip(extra[0].key) == extra[0].key;
      hide AreEntries;
      FirstApart(extra[0], Others(extra[1..]));
      assert [] + Others(extra[1..]) == Others(extra[1..]);
    }
  }

  lemma {:induction false} OverrideIs(extra: seq<Parameter>, key: string, value: string)
    requires AreEntries(extra)
    ensures forall p :: p in extra && p.key == key ==> Override(extra, key, value) == p.value
    ensures (forall p :: p in extra ==> p.key != key) ==> Override(extra, key, value) == value
    decreases |extra|
  {
    if extra != [] {
      RestApart(extra);
      OverrideIs(extra[1..], key, value);
      hide AreEntries;
      assert extra[0] in extra;
    }
  }

  /** The tree's parameters say what the dictionary says. */
  lemma EntriesAreGiven(parameters: seq<Parameter>, key: string, value: string)
    requires AreEntries(parameters) && key != ""
    ensures Gives(ParameterElements(parameters), key, value) <==> Parameter(key, value) in parameters
  {
    hide Strip;
    var children := ParameterElements(parameters);
    forall i: nat | i < |children| ensures IsLastParameter(children, key, i) <==> parameters[i].key == key {
    }
    if Parameter(key, value) in parameters {
      var i: nat :| i < |parameters| && parameters[i] == Parameter(key, value);
      assert IsLastParameter(children, key, i);
    }
  }

  lemma NamesStrip()
    ensures Strip("uid") == "uid" && Strip("name") == "name"
  {
    StripKeeps("uid", Space());
    StripKeeps("name", Space());
  }

  lemma AllAre(name: string, uid: string, extra: seq<Parameter>)
    requires AreEntries(extra)
    ensures AreEntries(AllParameters(name, uid, extra))
    ensures forall p :: p in AllParameters(name, uid, extra) <==>
              || p in extra
              || (p == Parameter("uid", uid) && forall q :: q in extra ==> q.key != "uid")
              || (p == Parameter("name", name) && forall q :: q in extra ==> q.key != "name")
  {
    hide Strip;
    NamesStrip();
    OthersAre(extra);
    OverrideIs(extra, "uid", uid);
    OverrideIs(extra, "name", name);
    hide Others, Override, AreEntries;
    var rest, all := Others(extra), AllParameters(name, uid, extra);
    FirstApart(all[1], rest);
    FirstApart(all[0], [all[1]] + rest);
    assert all == [all[0]] + ([all[1]] + rest);
  }

  /** A built manifest gives every parameter of the caller's, and the package's own name and uid where they do not. */
  lemma BuiltParametersAre(name: string, uid: string, extra: seq<Parameter>, key: string, value: string)
    requires AreEntries(extra) && key != ""
    ensures var found := ParametersOf(ParameterElements(AllParameters(name, uid, extra)));
            key in found && found[key] == value <==>
            || Parameter(key, value) in extra
            || (key == "uid" && value == uid && forall q :: q in extra ==> q.key != "uid")
            || (key == "name" && value == name && forall q :: q in extra ==> q.key != "name")
  {
    hide ParametersOf, ParameterElements, AllParameters, AreEntries, Gives;
    AllAre(name, uid, extra);
    EntriesAreGiven(AllParameters(name, uid, extra), key, value);
    ParametersMean(ParameterElements(AllParameters(name, uid, extra)), key, value);
  }
}
