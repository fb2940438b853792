/** Setting visibility keeps the package; a built package is read back. */
module MissionPackageTheorems {
  import opened Wrappers
  import opened Bytes
  import opened Texts
  import opened MissionPackage

  // ------------------------------------------------------- one row

  lemma {:induction false} FindParameterAppend(children: seq<Element>, last: Element, key: string)
    ensures FindParameter(children + [last], key) ==
            if FindParameter(children, key).Some? then FindParameter(children, key)
            else if last.tag == "Parameter" && TextAttr(last, "name") == key then Some(|children|)
            else None
    decreases |children|
  {
    hide TextAttr;
    if children == [] {
      assert ([] + [last])[1..] == [];
    } else {
      assert (children + [last])[0] == children[0] && (children + [last])[1..] == children[1..] + [last];
      FindParameterAppend(children[1..], last, key);
    }
  }

  /** Only tags and names decide which parameter is found. */
  lemma {:induction false} FindParameterAgrees(a: seq<Element>, b: seq<Element>, key: string)
    requires |a| == |b| && forall i :: 0 <= i < |a| ==>
               a[i].tag == b[i].tag && TextAttr(a[i], "name") == TextAttr(b[i], "name")
    ensures FindParameter(a, key) == FindParameter(b, key)
    decreases |a|
  {
    hide TextAttr;
    if a != [] {
      assert forall i :: 0 <= i < |a| - 1 ==> a[1..][i] == a[i + 1] && b[1..][i] == b[i + 1];
      FindParameterAgrees(a[1..], b[1..], key);
    }
  }

  lemma AddedName(key: string, value: string)
    requires key == "visible"
    ensures var added := Element("Parameter", map["name" := key, "value" := value], "", "", []);
            TextAttr(added, "name") == key
  {
    StripKeeps(key, Space());
  }

  /** How the children of a row with a new parameter look. */
  lemma AddedChildren(row: Element, value: string, before: string)
    ensures var r := AddParameter(row, "visible", value, before);
            var n := |row.children|;
            && |r.children| == n + 1 && r.tag == row.tag && r.attrs == row.attrs && r.tail == row.tail
            && (forall i :: 0 <= i < n ==>
                r.children[i].tag == row.children[i].tag && r.children[i].attrs == row.children[i].attrs)
            && r.children[n].tag == "Parameter" && r.children[n].attrs == map["name" := "visible", "value" := value]
  {
  }

  /** What setting a row's visibility does to the row as ATAK reads it. */
  lemma SetRowReads(row: Element, visible: bool, before: string)
    ensures var r := SetRow(row, ValueFor(visible), before);
            && r.tag == row.tag && r.tail == row.tail
            && TextAttr(r, "zipEntry") == TextAttr(row, "zipEntry")
            && RowOf(r) == if row.tag == "Content" && RowOf(row).IsOverlay() then RowOf(row).(visible := visible)
              else RowOf(row)
  {
    var value := ValueFor(visible);
    if row.tag == "Content" && RowOf(row).IsOverlay() {
      var r, at := SetRow(row, value, before), FindParameter(row.children, "visible");
      hide FindParameter, EndsWith, LowerAll, StripBoth;
      if at.None? {
        AddedRow(row, value, before);
      } else {
        SetAtNames(row, at.value, value);
        FindParameterAgrees(r.children, row.children, "visible");
        FindParameterAgrees(r.children, row.children, "isCoT");
        CotIsNotVisible(row.children);
      }
    }
  }

  lemma CotIsNotVisible(children: seq<Element>)
    ensures FindParameter(children, "isCoT").Some? ==>
              FindParameter(children, "isCoT") != FindParameter(children, "visible")
  {
  }

  lemma AddedRow(row: Element, value: string, before: string)
    requires FindParameter(row.children, "visible").None?
    ensures var r := AddParameter(row, "visible", value, before);
            var n := |row.children|;
            && |r.children| == n + 1
            && FindParameter(r.children, "visible") == Some(n)
            && FindParameter(r.children, "isCoT") == FindParameter(row.children, "isCoT")
            && r.attrs == row.attrs && r.tag == row.tag && r.tail == row.tail
            && (forall i :: 0 <= i < n ==> r.children[i].attrs == row.children[i].attrs)
            && r.children[n].attrs == map["name" := "visible", "value" := value]
  {
    hide StripBoth;
    var r, n := AddParameter(row, "visible", value, before), |row.children|;
    AddedChildren(row, value, before);
    hide AddParameter, FindParameter;
    AddedName("visible", value);
    var front := r.children[..n];
    assert r.children == front + [r.children[n]];
    forall i | 0 <= i < n
      ensures front[i].tag == row.children[i].tag && TextAttr(front[i], "name") == TextAttr(row.children[i], "name")
    {
      assert front[i] == r.children[i];
    }
    FindParameterAgrees(front, row.children, "visible");
    FindParameterAgrees(front, row.children, "isCoT");
    FindParameterAppend(front, r.children[n], "visible");
    FindParameterAppend(front, r.children[n], "isCoT");
  }

  lemma SetAtTwice(row: Element, at: nat, a: string, b: string)
    requires FindParameter(row.children, "visible") == Some(at)
    ensures FindParameter(SetAt(row, at, a).children, "visible") == Some(at)
    ensures SetAt(SetAt(row, at, a), at, b) == SetAt(row, at, b)
  {
    var r := SetAt(row, at, a);
    hide FindParameter, StripBoth;
    SetAtNames(row, at, a);
    FindParameterAgrees(r.children, row.children, "visible");
    var p := row.children[at];
    assert p.attrs["value" := a]["value" := b] == p.attrs["value" := b];
  }

  lemma SetAtNames(row: Element, at: nat, a: string)
    requires at < |row.children|
    ensures var r := SetAt(row, at, a);
            |r.children| == |row.children| && forall i :: 0 <= i < |row.children| ==>
              (r.children[i].tag == row.children[i].tag &&
               TextAttr(r.children[i], "name") == TextAttr(row.children[i], "name"))
  {
    hide StripBoth;
  }

  /** A later setting replaces an earlier one completely. */
  lemma SetRowTwice(row: Element, first: bool, second: bool, before: string)
    ensures SetRow(SetRow(row, ValueFor(first), before), ValueFor(second), before) ==
              SetRow(row, ValueFor(second), before)
  {
    hide RowOf, FindParameter, SetAt, AddParameter;
    var a, b := ValueFor(first), ValueFor(second);
    if row.tag == "Content" && RowOf(row).IsOverlay() {
      SetRowReads(row, first, before);
      StillOverlay(row, first);
      var at := FindParameter(row.children, "visible");
      if at.None? {
        AddedRow(row, a, before);
        AddedTwice(row, a, b, before);
      } else {
        SetAtTwice(row, at.value, a, b);
      }
    }
  }

  lemma StillOverlay(row: Element, visible: bool)
    ensures RowOf(row).(visible := visible).IsOverlay() <==> RowOf(row).IsOverlay()
  {
  }

  lemma AddedTwice(row: Element, a: string, b: string, before: string)
    ensures var r, n := AddParameter(row, "visible", a, before), |row.children|;
            && |r.children| == n + 1
            && SetAt(r, n, b) == AddParameter(row, "visible", b, before)
  {
    assert map["name" := "visible", "value" := a]["value" := b] == map["name" := "visible", "value" := b];
  }

  // ------------------------------------------------------- all rows

  /** The rows as they are read after the overlays are set. */
  function Shown(rows: seq<PackageContent>, visible: bool): (r: seq<PackageContent>)
    ensures |r| == |rows|
  {
    seq(|rows|, i requires 0 <= i < |rows| => ShownRow(rows[i], visible))
  }

  /** The rows read after the overlays are set, from the rows read before. */
  function ReadShown(read: Result<seq<PackageContent>, PackageError>,
                     visible: bool): Result<seq<PackageContent>, PackageError> {
    if read.Err? then read else Ok(Shown(read.value, visible))
  }

  function ShownRow(row: PackageContent, visible: bool): PackageContent {
    if row.IsOverlay() then row.(visible := visible) else row
  }

  lemma OneMoreRow(before: seq<Element>, after: seq<Element>, last: Element, updated: Element, visible: bool)
    requires RowsOf(after) == ReadShown(RowsOf(before), visible)
    requires updated.tag == last.tag && TextAttr(updated, "zipEntry") == TextAttr(last, "zipEntry")
    requires last.tag == "Content" ==> RowOf(updated) == ShownRow(RowOf(last), visible)
    ensures RowsOf(after + [updated]) == ReadShown(RowsOf(before + [last]), visible)
  {
    hide RowOf, TextAttr, RowsOf, Shown, ShownRow;
    RowsSnoc(before, last);
    RowsSnoc(after, updated);
    if RowsOf(before).Ok? {
      ShownSnoc(RowsOf(before).value, RowOf(last), visible);
    }
  }

  lemma {:induction false} SetRowsRead(text: string, rows: seq<Element>, visible: bool)
    ensures RowsOf(SetRows(text, rows, ValueFor(visible))) == ReadShown(RowsOf(rows), visible)
    decreases |rows|
  {
    hide SetRow, RowOf, TextAttr, RowsOf, Shown, ReadShown, SetRows, ShownRow, Before, ValueFor;
    var value := ValueFor(visible);
    if rows == [] {
      NoRows(visible);
      NoRowsSet(text, value);
    } else {
      var n := |rows| - 1;
      var updated := SetRow(rows[n], value, Before(text, rows, n));
      SetRowsRead(text, rows[..n], visible);
      SetRowShows(rows[n], visible, Before(text, rows, n));
      SetRowsSnoc(text, rows, value);
      assert rows == rows[..n] + [rows[n]];
      OneMoreRow(rows[..n], SetRows(text, rows[..n], value), rows[n], updated, visible);
    }
  }

  lemma SetRowShows(row: Element, visible: bool, before: string)
    ensures var r := SetRow(row, ValueFor(visible), before);
            && r.tag == row.tag && TextAttr(r, "zipEntry") == TextAttr(row, "zipEntry")
            && (row.tag == "Content" ==> RowOf(r) == ShownRow(RowOf(row), visible))
  {
    hide SetRow, RowOf, TextAttr;
    SetRowReads(row, visible, before);
  }

  lemma NoRowsSet(text: string, value: string)
    ensures SetRows(text, [], value) == []
  {
  }

  lemma SetRowsSnoc(text: string, rows: seq<Element>, value: string)
    requires rows != []
    ensures var n := |rows| - 1;
            SetRows(text, rows, value) == SetRows(text, rows[..n], value) +
              [SetRow(rows[n], value, Before(text, rows, n))]
  {
    hide SetRow;
  }

  lemma NoRows(visible: bool)
    ensures RowsOf([]) == Ok([]) && ReadShown(RowsOf([]), visible) == Ok([])
  {
  }

  lemma RowsSnoc(rows: seq<Element>, last: Element)
    ensures RowsOf(rows + [last]) ==
            if RowsOf(rows).Err? || last.tag != "Content" then RowsOf(rows)
            else if TextAttr(last, "zipEntry") == "" then Err(RowWithoutEntry)
            else Ok(RowsOf(rows).value + [RowOf(last)])
  {
    hide RowOf, TextAttr;
    assert (rows + [last])[..|rows|] == rows;
  }

  lemma ShownSnoc(rows: seq<PackageContent>, row: PackageContent, visible: bool)
    ensures Shown(rows + [row], visible) == Shown(rows, visible) + [ShownRow(row, visible)]
  {
    hide ShownRow;
  }

  lemma RowIsSet(text: string, rows: seq<Element>, value: string, i: nat)
    requires i < |rows|
    ensures SetRows(text, rows, value)[i] == SetRow(rows[i], value, Before(text, rows, i))
  {
    hide SetRow;
  }

  lemma BeforeStays(text: string, rows: seq<Element>, visible: bool, i: nat)
    requires i < |rows|
    ensures Before(text, SetRows(text, rows, ValueFor(visible)), i) == Before(text, rows, i)
  {
    hide SetRow, RowOf, TextAttr, SetRows;
    if i > 0 {
      RowIsSet(text, rows, ValueFor(visible), i - 1);
      SetRowReads(rows[i - 1], visible, Before(text, rows, i - 1));
    }
  }

  lemma SetRowsTwice(text: string, rows: seq<Element>, first: bool, second: bool)
    ensures SetRows(text, SetRows(text, rows, ValueFor(first)), ValueFor(second)) ==
              SetRows(text, rows, ValueFor(second))
  {
    hide SetRow, SetRows, Before, ValueFor;
    var once := SetRows(text, rows, ValueFor(first));
    var twice, direct := SetRows(text, once, ValueFor(second)), SetRows(text, rows, ValueFor(second));
    forall i | 0 <= i < |rows| ensures twice[i] == direct[i] {
      RowIsSet(text, rows, ValueFor(first), i);
      RowIsSet(text, once, ValueFor(second), i);
      RowIsSet(text, rows, ValueFor(second), i);
      BeforeStays(text, rows, first, i);
      SetRowTwice(rows[i], first, second, Before(text, rows, i));
    }
  }

  // ------------------------------------------------------- the whole manifest

  lemma {:induction false} FindChildAgrees(a: seq<Element>, b: seq<Element>, tag: string)
    requires |a| == |b| && forall i :: 0 <= i < |a| ==> a[i].tag == b[i].tag
    ensures FindChild(a, tag) == FindChild(b, tag)
    decreases |a|
  {
    if a != [] {
      assert forall i :: 0 <= i < |a| - 1 ==> a[1..][i] == a[i + 1] && b[1..][i] == b[i + 1];
      FindChildAgrees(a[1..], b[1..], tag);
    }
  }

  lemma SetRootChildren(root: Element, value: string)
    ensures var r := SetRoot(root, value);
            && r.tag == root.tag && r.attrs == root.attrs && |r.children| == |root.children|
            && FindChild(r.children, "Contents") == FindChild(root.children, "Contents")
            && FindChild(r.children, "Configuration") == FindChild(root.children, "Configuration")
            && (forall i :: 0 <= i < |root.children| && FindChild(root.children, "Contents") != Some(i) ==>
                r.children[i] == root.children[i])
            && (FindChild(root.children, "Contents").Some? ==>
                  var i := FindChild(root.children, "Contents").value;
                  r.children[i].text == root.children[i].text &&
                  r.children[i].children == SetRows(root.children[i].text, root.children[i].children, value))
  {
    var r := SetRoot(root, value);
    hide SetRows, FindChild;
    FindChildAgrees(r.children, root.children, "Contents");
    FindChildAgrees(r.children, root.children, "Configuration");
  }

  lemma DifferentTags(children: seq<Element>)
    ensures FindChild(children, "Configuration").Some? ==>
              FindChild(children, "Configuration") != FindChild(children, "Contents")
  {
  }

  lemma {:induction false} ShownMisses(rows: seq<PackageContent>, visible: bool, base: string, present: set<string>)
    ensures MissingFrom(Shown(rows, visible), base, present) == MissingFrom(rows, base, present)
    decreases |rows|
  {
    hide Slashes;
    if rows != [] {
      assert Shown(rows, visible)[1..] == Shown(rows[1..], visible);
      ShownMisses(rows[1..], visible, base, present);
    }
  }

  /** The package read from the new manifest: only overlays' visibility differs. */
  function Reset(p: DataPackage, visible: bool): DataPackage {
    p.(contents := Shown(p.contents, visible))
  }

  lemma SetRootReads(root: Element, visible: bool, place: Place, present: set<string>)
    requires InspectedRoot(root, place, present).Ok?
    ensures InspectedRoot(SetRoot(root, ValueFor(visible)), place, present) ==
              Ok(Reset(InspectedRoot(root, place, present).value, visible))
  {
    hide FindChild, SetRows, RowsOf, ParametersOf, MissingFrom, SetRoot, StripBoth, Shown, ShownRow;
    SetRootChildren(root, ValueFor(visible));
    DifferentTags(root.children);
    var contents := root.children[FindChild(root.children, "Contents").value];
    SetRowsRead(contents.text, contents.children, visible);
    ShownMisses(RowsOf(contents.children).value, visible, place.base, present);
  }

  lemma SetRootTwice(root: Element, first: bool, second: bool)
    ensures SetRoot(SetRoot(root, ValueFor(first)), ValueFor(second)) == SetRoot(root, ValueFor(second))
  {
    var at := FindChild(root.children, "Contents");
    SetRootChildren(root, ValueFor(first));
    hide SetRows, FindChild;
    if at.Some? {
      var e := root.children[at.value];
      SetRowsTwice(e.text, e.children, first, second);
    }
  }

  // ------------------------------------------------------- the archive

  /** Every entry keeps its name, place and meta-data, and its data unless it is the manifest. */
  ghost predicate OnlyManifestChanges(before: seq<Entry>, after: seq<Entry>, path: string, manifest: bytes) {
    && |after| == |before|
    && forall i :: 0 <= i < |before| ==>
         && after[i].name == before[i].name && after[i].meta == before[i].meta
         && after[i].payload == if before[i].name == path then Some(manifest) else before[i].payload
  }

  lemma {:induction false} CopiedChangesOnlyManifest(entries: seq<Entry>, path: string, manifest: bytes)
    requires CopiedEntries(entries, path, manifest).Some?
    ensures OnlyManifestChanges(entries, CopiedEntries(entries, path, manifest).value, path, manifest)
    decreases |entries|
  {
    if entries != [] {
      CopiedChangesOnlyManifest(entries[..|entries| - 1], path, manifest);
    }
  }

  lemma {:induction false} SameNamesSameManifest(a: seq<Entry>, b: seq<Entry>)
    requires |a| == |b| && forall i :: 0 <= i < |a| ==> a[i].name == b[i].name
    ensures FindManifest(a) == FindManifest(b)
    decreases |a|
  {
    hide Slashes, EndsWith;
    if a != [] {
      assert forall i :: 0 <= i < |a| - 1 ==> a[1..][i] == a[i + 1] && b[1..][i] == b[i + 1];
      SameNamesSameManifest(a[1..], b[1..]);
    }
  }

  lemma SameNamesPresent(a: seq<Entry>, b: seq<Entry>)
    requires |a| == |b| && forall i :: 0 <= i < |a| ==> a[i].name == b[i].name
    ensures Names(a) == Names(b)
  {
    hide Slashes;
    forall n ensures n in Names(a) <==> n in Names(b) {
      if n in Names(a) {
        var i :| 0 <= i < |a| && Slashes(a[i].name) == n;
        assert Slashes(b[i].name) == n;
      }
      if n in Names(b) {
        var i :| 0 <= i < |b| && Slashes(b[i].name) == n;
        assert Slashes(a[i].name) == n;
      }
    }
  }

  lemma {:induction false} ManifestIsRead(before: seq<Entry>, after: seq<Entry>, path: string, manifest: bytes)
    requires OnlyManifestChanges(before, after, path, manifest) && ReadEntry(before, path).Some?
    ensures ReadEntry(after, path) == Some(manifest)
    decreases |before|
  {
    if before != [] && before[|before| - 1].name != path {
      ManifestIsRead(before[..|before| - 1], after[..|after| - 1], path, manifest);
    }
  }

  /** The libraries give back what they were given, for this manifest and this archive. */
  ghost predicate LibrariesKeep(env: Env, root: Element, entries: seq<Entry>) {
    env.parse(env.serialise(root)) == Some(root) && env.unzip(env.zip(entries)) == Some(entries)
  }

  lemma SetManifest(entries: seq<Entry>, visible: bool, env: Env)
    requires ManifestOf(entries, env).Ok? && SetEntries(entries, visible, env).Ok?
    ensures var place, was := ManifestOf(entries, env).value.0, ManifestOf(entries, env).value.1;
            var root := SetRoot(was, ValueFor(visible));
            var after := SetEntries(entries, visible, env).value;
            && OnlyManifestChanges(entries, after, place.path, env.serialise(root))
            && Names(after) == Names(entries)
            && (|env.serialise(root)| <= MAX_MANIFEST_BYTES && env.parse(env.serialise(root)) == Some(root) ==>
                  ManifestOf(after, env) == Ok((place, root)))
            && (|env.serialise(root)| > MAX_MANIFEST_BYTES ==> ManifestOf(after, env) == Err(ImplausiblyLarge))
  {
    hide FindManifest, ReadEntry, SetRoot, Names, CopiedEntries;
    var place, root := ManifestOf(entries, env).value.0, SetRoot(ManifestOf(entries, env).value.1, ValueFor(visible));
    var manifest := env.serialise(root);
    CopiedChangesOnlyManifest(entries, place.path, manifest);
    var after := SetEntries(entries, visible, env).value;
    SameNamesSameManifest(after, entries);
    SameNamesPresent(after, entries);
    ManifestIsRead(entries, after, place.path, manifest);
  }

  /**
   Inspecting the result again gives the same name, uid, base directory, parameters and rows, with
   every overlay's visibility as asked and every other row untouched; in the archive only the
   manifest's own data changed.
   */
  lemma VisibilityKeepsThePackage(data: bytes, visible: bool, env: Env)
    requires WithVisibility(data, visible, env).Ok?
    requires var entries := Opened(data, env).value;
             LibrariesKeep(env, SetRoot(ManifestOf(entries, env).value.1, ValueFor(visible)),
                           SetEntries(entries, visible, env).value)
    ensures var result, entries := WithVisibility(data, visible, env).value, Opened(data, env).value;
            && Inspected(result, env) == Ok(Reset(Inspected(data, env).value, visible))
            && Opened(result, env).Ok?
            && OnlyManifestChanges(entries, Opened(result, env).value, Inspected(data, env).value.manifestPath,
                                   env.serialise(SetRoot(ManifestOf(entries, env).value.1, ValueFor(visible))))
  {
    hide FindManifest, ReadEntry, SetRoot, Names, CopiedEntries, InspectedRoot, ManifestOf, SetEntries, Shown,
         HasOverlay;
    var entries := Opened(data, env).value;
    var place, root := ManifestOf(entries, env).value.0, ManifestOf(entries, env).value.1;
    SetManifest(entries, visible, env);
    SetRootReads(root, visible, place, Names(entries));
    PathIsPlace(root, place, Names(entries));
  }

  lemma PathIsPlace(root: Element, place: Place, present: set<string>)
    ensures InspectedRoot(root, place, present).Ok? ==>
              InspectedRoot(root, place, present).value.manifestPath == place.path
  {
    hide RowsOf, ParametersOf, MissingFrom, FindChild, StripBoth;
  }

  /** How the Content page summarises a package's overlays. */
  lemma VisibilityIsUniform(p: DataPackage, visible: bool)
    ensures forall i :: 0 <= i < |p.contents| && Reset(p, visible).contents[i].IsOverlay() ==>
              Reset(p, visible).contents[i].visible == visible
    ensures forall i :: 0 <= i < |p.contents| ==>
              (Reset(p, visible).contents[i].IsOverlay() <==> p.contents[i].IsOverlay()) &&
              Reset(p, visible).contents[i].(visible := p.contents[i].visible) == p.contents[i]
  {
  }

  lemma {:induction false} CopiedTwice(entries: seq<Entry>, path: string, first: bytes, second: bytes)
    requires CopiedEntries(entries, path, first).Some?
    ensures CopiedEntries(CopiedEntries(entries, path, first).value, path, second) ==
              CopiedEntries(entries, path, second)
    decreases |entries|
  {
    if entries != [] {
      var n := |entries| - 1;
      var once := CopiedEntries(entries, path, first).value;
      CopiedTwice(entries[..n], path, first, second);
      assert once[..|once| - 1] == CopiedEntries(entries[..n], path, first).value;
    }
  }

  /** Setting visibility twice gives, byte for byte, what setting it once the second way gives. */
  lemma LaterVisibilityWins(data: bytes, first: bool, second: bool, env: Env)
    requires WithVisibility(data, first, env).Ok?
    requires var entries := Opened(data, env).value;
             LibrariesKeep(env, SetRoot(ManifestOf(entries, env).value.1, ValueFor(first)),
                           SetEntries(entries, first, env).value)
    ensures WithVisibility(WithVisibility(data, first, env).value, second, env) == WithVisibility(data, second, env)
  {
    hide Inspected, SetRoot, Names, CopiedEntries, Shown, HasOverlay, ManifestOf, SetEntries;
    VisibilityKeepsThePackage(data, first, env);
    ResetHasOverlay(Inspected(data, env).value, first);
    InspectedIsOpened(data, env);
    InspectedIsOpened(WithVisibility(data, first, env).value, env);
    SetEntriesTwice(Opened(data, env).value, first, second, env);
  }

  lemma InspectedIsOpened(data: bytes, env: Env)
    requires Inspected(data, env).Ok?
    ensures Opened(data, env).Ok? && ManifestOf(Opened(data, env).value, env).Ok?
    ensures ManifestOf(Opened(data, env).value, env).value.0.path == Inspected(data, env).value.manifestPath
  {
    hide ManifestOf, InspectedRoot, Names;
    var found := ManifestOf(Opened(data, env).value, env);
    PathIsPlace(found.value.1, found.value.0, Names(Opened(data, env).value));
  }

  lemma SetEntriesTwice(entries: seq<Entry>, first: bool, second: bool, env: Env)
    requires ManifestOf(entries, env).Ok? && SetEntries(entries, first, env).Ok?
    requires var root := SetRoot(ManifestOf(entries, env).value.1, ValueFor(first));
             env.parse(env.serialise(root)) == Some(root) && ManifestOf(SetEntries(entries, first, env).value, env).Ok?
    ensures SetEntries(SetEntries(entries, first, env).value, second, env) == SetEntries(entries, second, env)
  {
    hide FindManifest, ReadEntry, SetRoot, Names, CopiedEntries, ManifestOf;
    SetManifest(entries, first, env);
    var place, root := ManifestOf(entries, env).value.0, ManifestOf(entries, env).value.1;
    SetRootTwice(root, first, second);
    CopiedTwice(entries, place.path, env.serialise(SetRoot(root, ValueFor(first))),
                env.serialise(SetRoot(root, ValueFor(second))));
  }

  lemma ResetHasOverlay(p: DataPackage, visible: bool)
    ensures HasOverlay(Reset(p, visible).contents) <==> HasOverlay(p.contents)
  {
    VisibilityIsUniform(p, visible);
  }

  // ------------------------------------------------------- white space

  /** The white space of an element: after its opening tag, and after each child. */
  function Gaps(e: Element): (gaps: seq<string>)
    ensures |gaps| == 1 + |e.children|
  {
    [e.text] + seq(|e.children|, i requires 0 <= i < |e.children| => e.children[i].tail)
  }

  /** A parameter added after others stands like its neighbour, and the closing tag stays where it was. */
  lemma AddedParameterIsIndented(row: Element, key: string, value: string, before: string)
    ensures var was, now, n := Gaps(row), Gaps(AddParameter(row, key, value, before)), |row.children|;
            && (n > 0 ==> now == was[..n] + [was[n - 1], was[n]])
            && (n == 0 && IsIndent(before) ==> now == [before + "  ", before])
            && (n == 0 && !IsIndent(before) ==> now == [row.text, ""])
  {
    hide IsIndent;
  }
}
