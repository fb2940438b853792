/** What `inspect` makes of a package written elsewhere, in any folder of its archive. */
module FolderPackages {
  import opened Wrappers
  import opened Bytes
  import opened Lists
  import opened Texts
  import opened MissionPackage
  import opened MissionPackageTheorems

  // ------------------------------------------------------- rows

  /** A row as its author wrote it: its entry, and the texts of what it says about it, if it does. */
  datatype Row = Row(entry: string, ignore: Option<string>, visible: Option<string>, cot: Option<string>)

  function ParameterOf(key: string, value: string): Element {
    Element("Parameter", map["name" := key, "value" := value], "", "", [])
  }

  function WrittenRow(r: Row): Element {
    Element("Content",
            if r.ignore.Some? then map["zipEntry" := r.entry, "ignore" := r.ignore.value]
              else map["zipEntry" := r.entry],
            "", "",
            (if r.visible.Some? then [ParameterOf("visible", r.visible.value)] else []) +
            (if r.cot.Some? then [ParameterOf("isCoT", r.cot.value)] else []))
  }

  /** The word true, in whatever case. */
  predicate SaysTrue(s: string) {
    |s| == 4 && s[0] in "tT" && s[1] in "rR" && s[2] in "uU" && s[3] in "eE"
  }

  /** Ignored when the text says true, with white space around it or not; visible unless it is exactly `false`. */
  function MeantRow(r: Row): PackageContent {
    PackageContent(r.entry, r.ignore.Some? && SaysTrue(Strip(r.ignore.value)), r.visible != Some("false"),
                   r.cot.Some? && SaysTrue(r.cot.value))
  }

  lemma TrueMeans(s: string)
    ensures IsTrue(s) <==> SaysTrue(s)
  {
    var t := LowerAll(s);
    assert "true" == ['t', 'r', 'u', 'e'];
    assert |s| == 4 ==> t == [Lower(s[0]), Lower(s[1]), Lower(s[2]), Lower(s[3])];
    assert forall c: char :: c in "tT" <==> Lower(c) == 't';
    assert forall c: char :: c in "rR" <==> Lower(c) == 'r';
    assert forall c: char :: c in "uU" <==> Lower(c) == 'u';
    assert forall c: char :: c in "eE" <==> Lower(c) == 'e';
  }

  lemma FindAfter(key: string, value: string, rest: seq<Element>, wanted: string)
    ensures FindParameter([], wanted) == None
    ensures FindParameter([ParameterOf(key, value)] + rest, wanted) ==
            if Strip(key) == wanted then Some(0)
            else if FindParameter(rest, wanted).Some? then Some(FindParameter(rest, wanted).value + 1) else None
  {
    hide StripBoth;
    var all := [ParameterOf(key, value)] + rest;
    assert all[0] == ParameterOf(key, value) && all[1..] == rest;
    assert all[0].tag == "Parameter" && TextAttr(all[0], "name") == Strip(key);
    hide ParameterOf, TextAttr;
  }

  lemma ParametersFound(r: Row)
    ensures var children := WrittenRow(r).children;
            && FindParameter(children, "visible") == (if r.visible.Some? then Some(0) else None)
            && FindParameter(children, "isCoT") ==
               (if r.cot.Some? then Some(if r.visible.Some? then 1 else 0) else None)
  {
    StripKeeps("visible", Space());
    StripKeeps("isCoT", Space());
    hide StripBoth, FindParameter;
    var visible, cot := if r.visible.Some? then r.visible.value else "", if r.cot.Some? then r.cot.value else "";
    var last := if r.cot.Some? then [ParameterOf("isCoT", cot)] else [];
    assert [ParameterOf("isCoT", cot)] + [] == [ParameterOf("isCoT", cot)] && [] + last == last;
    FindAfter("isCoT", cot, [], "isCoT");
    FindAfter("isCoT", cot, [], "visible");
    FindAfter("visible", visible, last, "isCoT");
    FindAfter("visible", visible, last, "visible");
  }

  /** A written row is read as it is meant. */
  lemma RowReads(r: Row)
    requires Strip(r.entry) == r.entry
    ensures RowOf(WrittenRow(r)) == MeantRow(r) && TextAttr(WrittenRow(r), "zipEntry") == r.entry
  {
    ParametersFound(r);
    if r.ignore.Some? {
      TrueMeans(Strip(r.ignore.value));
    }
    if r.cot.Some? {
      TrueMeans(r.cot.value);
    }
    NothingStripped();
    hide StripBoth, FindParameter, SaysTrue;
  }

  lemma NothingStripped()
    ensures Strip("") == "" && !IsTrue("")
  {
    StripKeeps("", Space());
  }

  lemma {:induction false} RowsRead(rows: seq<Row>, children: seq<Element>)
    requires |children| == |rows| && forall i :: 0 <= i < |rows| ==> children[i] == WrittenRow(rows[i])
    requires forall i :: 0 <= i < |rows| ==> rows[i].entry != "" && Strip(rows[i].entry) == rows[i].entry
    ensures RowsOf(children) == Ok(MeantRows(rows))
    decreases |rows|
  {
    hide RowOf, TextAttr, StripBoth, RowsOf, MeantRow;
    if rows == [] {
      assert children == [] && MeantRows(rows) == [];
      NoRows(true);
    } else {
      var n := |rows| - 1;
      RowsRead(rows[..n], children[..n]);
      assert children == children[..n] + [children[n]];
      RowsSnoc(children[..n], children[n]);
      RowReads(rows[n]);
      assert WrittenRow(rows[n]).tag == "Content";
      assert MeantRows(rows) == MeantRows(rows[..n]) + [MeantRow(rows[n])];
    }
  }

  function MeantRows(rows: seq<Row>): (r: seq<PackageContent>)
    ensures |r| == |rows|
  {
    seq(|rows|, i requires 0 <= i < |rows| => MeantRow(rows[i]))
  }

  // ------------------------------------------------------- what is missing

  /** No entry of the archive lies at the row's place, seen from the package's folder. */
  ghost predicate IsMissing(row: PackageContent, base: string, entries: seq<Entry>) {
    !row.ignore && forall i :: 0 <= i < |entries| ==> Slashes(entries[i].name) != Slashes(base + row.zipEntry)
  }

  function EntriesOf(rows: seq<PackageContent>): (r: seq<string>)
    ensures |r| == |rows|
  {
    seq(|rows|, i requires 0 <= i < |rows| => rows[i].zipEntry)
  }

  /** Exactly the rows that are missing. */
  ghost predicate MissingAt(rows: seq<PackageContent>, base: string, entries: seq<Entry>, picks: seq<nat>) {
    forall i :: 0 <= i < |rows| ==> (i in picks <==> IsMissing(rows[i], base, entries))
  }

  lemma MissingSnoc(rows: seq<PackageContent>, last: PackageContent, base: string, present: set<string>)
    ensures MissingFrom(rows + [last], base, present) ==
            MissingFrom(rows, base, present) +
            if !last.ignore && Slashes(base + last.zipEntry) !in present then [last.zipEntry] else []
    decreases |rows|
  {
    hide Slashes;
    if rows == [] {
      assert ([] + [last])[1..] == [];
    } else {
      assert (rows + [last])[1..] == rows[1..] + [last];
      MissingSnoc(rows[1..], last, base, present);
    }
  }

  /** The missing rows, in order and each as often as the manifest names it. */
  lemma {:induction false} MissingMeans(rows: seq<PackageContent>, base: string, entries: seq<Entry>)
    returns (picks: seq<nat>)
    ensures PicksFrom(MissingFrom(rows, base, Names(entries)), EntriesOf(rows), picks)
    ensures MissingAt(rows, base, entries, picks)
    decreases |rows|
  {
    hide Slashes, IsMissing, Names, MissingFrom, PicksFrom;
    if rows == [] {
      picks := [];
      NothingPicked(rows, base, Names(entries));
    } else {
      var before, last := rows[..|rows| - 1], rows[|rows| - 1];
      assert rows == before + [last] && EntriesOf(rows) == EntriesOf(before) + [last.zipEntry];
      var kept := MissingMeans(before, base, entries);
      MissingSnoc(before, last, base, Names(entries));
      LooksForEntry(last, base, entries);
      hide EntriesOf;
      picks := PickNext(MissingFrom(before, base, Names(entries)), EntriesOf(before), kept, last.zipEntry,
                        IsMissing(last, base, entries));
      assert forall i :: 0 <= i < |before| ==> rows[i] == before[i];
    }
  }

  lemma NothingPicked(rows: seq<PackageContent>, base: string, present: set<string>)
    requires rows == []
    ensures PicksFrom(MissingFrom(rows, base, present), EntriesOf(rows), [])
  {
  }

  lemma LooksForEntry(row: PackageContent, base: string, entries: seq<Entry>)
    ensures IsMissing(row, base, entries) <==> !row.ignore && Slashes(base + row.zipEntry) !in Names(entries)
  {
    hide Slashes;
  }

  // ------------------------------------------------------- the package

  /** A package as its author wrote it. */
  datatype Package = Package(name: string, uid: string, rows: seq<Row>)

  function WrittenRows(rows: seq<Row>): (r: seq<Element>)
    ensures |r| == |rows|
  {
    seq(|rows|, i requires 0 <= i < |rows| => WrittenRow(rows[i]))
  }

  function WrittenManifest(p: Package): Element {
    Element("MissionPackageManifest", map["version" := "2"], "", "",
            [Element("Configuration", map[], "", "", [ParameterOf("uid", p.uid), ParameterOf("name", p.name)]),
             Element("Contents", map[], "", "", WrittenRows(p.rows))])
  }

  predicate IsWritable(p: Package) {
    && p.name != "" && p.uid != ""
    && forall i :: 0 <= i < |p.rows| ==> p.rows[i].entry != "" && Strip(p.rows[i].entry) == p.rows[i].entry
  }

  /** The first entry that ends in the manifest's name lies in folder `base` of the archive. */
  predicate ManifestLies(entries: seq<Entry>, k: nat, base: string) {
    && k < |entries| && Slashes(entries[k].name) == base + "MANIFEST/manifest.xml"
    && forall i :: 0 <= i < k ==> !EndsWith(Slashes(entries[i].name), "MANIFEST/manifest.xml")
  }

  lemma {:induction false} ManifestIsFound(entries: seq<Entry>, k: nat, base: string)
    requires ManifestLies(entries, k, base)
    ensures FindManifest(entries) == Some(Place(entries[k].name, base))
    decreases |entries|
  {
    hide Slashes;
    if k == 0 {
      var name := Slashes(entries[0].name);
      assert name[|base|..] == MANIFEST_NAME && name[..|base|] == base;
    } else {
      ManifestIsFound(entries[1..], k - 1, base);
    }
  }

  lemma ConfigurationReads(p: Package)
    ensures var read := ParametersOf([ParameterOf("uid", p.uid), ParameterOf("name", p.name)]);
            read == map["uid" := p.uid, "name" := p.name]
  {
    StripKeeps("uid", Space());
    StripKeeps("name", Space());
    hide StripBoth;
    var children := [ParameterOf("uid", p.uid), ParameterOf("name", p.name)];
    assert children[..1] == [ParameterOf("uid", p.uid)] && children[..1][..0] == [];
    assert ParametersOf(children[..1]) == map["uid" := p.uid];
  }

  lemma ManifestReads(p: Package, place: Place, present: set<string>)
    requires IsWritable(p)
    ensures InspectedRoot(WrittenManifest(p), place, present) ==
            Ok(DataPackage(p.name, p.uid, place.base, place.path, MeantRows(p.rows),
                           MissingFrom(MeantRows(p.rows), place.base, present), map["uid" := p.uid, "name" := p.name]))
  {
    ChildrenAre(p);
    StripKeeps("2", Space());
    ConfigurationReads(p);
    hide StripBoth, ParametersOf, RowsOf, MissingFrom, FindChild, WrittenRow, MeantRow, ParameterOf;
    RowsRead(p.rows, WrittenManifest(p).children[1].children);
  }

  lemma ChildrenAre(p: Package)
    requires IsWritable(p)
    ensures var children := WrittenManifest(p).children;
            FindChild(children, "Configuration") == Some(0) && FindChild(children, "Contents") == Some(1)
  {
    var children := WrittenManifest(p).children;
    hide WrittenRow, ParameterOf;
    assert children[1..][0] == children[1];
  }

  /**
   A package in any folder of its archive: `inspect` gives its name, its uid, its folder and its
   rows as their author meant them, and as missing exactly the rows that are not ignored and for
   which no entry lies at their place under that folder, in the manifest's order.
   */
  lemma FolderPackageIsRead(p: Package, entries: seq<Entry>, k: nat, base: string, env: Env)
    requires IsWritable(p) && ManifestLies(entries, k, base)
    requires |entries| <= 10000 && |env.zip(entries)| <= 2 * 1024 * 1024 * 1024
    requires LibrariesKeep(env, WrittenManifest(p), entries)
    requires ReadEntry(entries, entries[k].name) == Some(env.serialise(WrittenManifest(p)))
    requires |env.serialise(WrittenManifest(p))| <= 4 * 1024 * 1024
    ensures var r := Inspected(env.zip(entries), env);
            && r.Ok? && r.value.name == p.name && r.value.uid == p.uid && r.value.baseDirectory == base
            && r.value.manifestPath == entries[k].name && r.value.contents == MeantRows(p.rows)
            && exists picks :: PicksFrom(r.value.missing, EntriesOf(MeantRows(p.rows)), picks)
                               && MissingAt(MeantRows(p.rows), base, entries, picks)
  {
    hide ManifestLies, ReadEntry, FindManifest, InspectedRoot, MissingFrom, PicksFrom, MissingAt, IsWritable,
         WrittenManifest;
    assert k < |entries| by { LiesInside(entries, k, base); }
    ManifestIsFound(entries, k, base);
    ManifestReads(p, Place(entries[k].name, base), Names(entries));
    var picks := MissingMeans(MeantRows(p.rows), base, entries);
  }

  /** What is refused before the manifest's rows are read, in the order of the checks. */
  lemma RefusedForItsSize(data: bytes, env: Env)
    ensures var r, entries := Inspected(data, env), env.unzip(data);
            if |data| > 2 * 1024 * 1024 * 1024 then r == Err(TooLarge)
            else if entries.None? then r == Err(NotAZip)
            else if |entries.value| > 10000 then r == Err(TooManyEntries)
            else
              (forall path, manifest :: FindManifest(entries.value) == Some(path) &&
                  ReadEntry(entries.value, path.path) == Some(manifest) && |manifest| > 4 * 1024 * 1024
                  ==> r == Err(ImplausiblyLarge))
  {
  }

  lemma LiesInside(entries: seq<Entry>, k: nat, base: string)
    requires ManifestLies(entries, k, base)
    ensures k < |entries|
  {
  }
}
