/** ATAK data packages: reading one, building one, and setting its overlays' visibility. */
module MissionPackage {
  import opened Wrappers
  import opened Bytes
  import opened Texts

  /** An XML element as ElementTree holds it; absent text is empty text. */
  datatype Element = Element(tag: string, attrs: map<string, string>, text: string, tail: string,
                             children: seq<Element>)

  /** What `_copy_info` copies of a zip entry besides its name. */
  datatype Meta = Meta(dateTime: int, compressType: int, externalAttr: int, createSystem: int, comment: bytes)

  /** A zip entry; None when its data cannot be read back. */
  datatype Entry = Entry(name: string, meta: Meta, payload: Option<bytes>)

  /** The zip and XML libraries, and `str.upper`. `text` writes a manifest built by hand. */
  datatype Env = Env(
    unzip: bytes -> Option<seq<Entry>>,
    zip: seq<Entry> -> bytes,
    parse: bytes -> Option<Element>,
    serialise: Element -> bytes,
    upper: string -> string)

  datatype PackageError =
    | TooLarge | NotAZip | TooManyEntries | NoManifest | ImplausiblyLarge | Unreadable | NotXml | WrongRoot
    | NoVersion | WrongVersion | NoConfiguration | NoContents | MissingParameters(names: seq<string>) | RowWithoutEntry
    | NothingToSet | NoName | NoFiles | UnusableName(entry: string) | Repeated(entry: string)
    | InManifestDirectory(entry: string)

  const MANIFEST_DIR := "MANIFEST/"
  const MANIFEST_NAME := "MANIFEST/manifest.xml"
  const ROOT := "MissionPackageManifest"
  const MANIFEST_VERSION := "2"
  const MAX_PACKAGE_BYTES: nat := 2 * 1024 * 1024 * 1024
  const MAX_MANIFEST_BYTES: nat := 4 * 1024 * 1024
  const MAX_ENTRIES: nat := 10000

  datatype PackageContent = PackageContent(zipEntry: string, ignore: bool, visible: bool, markedCot: bool) {
    predicate IsCot() {
      markedCot || EndsWith(LowerAll(zipEntry), ".cot")
    }

    predicate IsOverlay() {
      !ignore && !IsCot()
    }
  }

  datatype DataPackage = DataPackage(
    name: string,
    uid: string,
    baseDirectory: string,
    manifestPath: string,
    contents: seq<PackageContent>,
    missing: seq<string>,
    parameters: map<string, string>)

  // ------------------------------------------------------------------ elements

  function Attr(e: Element, name: string): string {
    if name in e.attrs then e.attrs[name] else ""
  }

  /** `_text_attr` */
  function TextAttr(e: Element, name: string): string {
    Strip(Attr(e, name))
  }

  /** `find`: where the first child with this tag is. */
  function FindChild(children: seq<Element>, tag: string): (i: Option<nat>)
    ensures i.Some? ==> i.value < |children| && children[i.value].tag == tag
  {
    if children == [] then None
    else if children[0].tag == tag then Some(0)
    else
      var rest := FindChild(children[1..], tag);
      if rest.None? then None else Some(rest.value + 1)
  }

  /** `_content_parameter`: where the first `Parameter` child with this name is. */
  function FindParameter(children: seq<Element>, key: string): (i: Option<nat>)
    ensures i.Some? ==> i.value < |children| && children[i.value].tag == "Parameter"
    ensures i.Some? ==> TextAttr(children[i.value], "name") == key
  {
    if children == [] then None
    else if children[0].tag == "Parameter" && TextAttr(children[0], "name") == key then Some(0)
    else
      var rest := FindParameter(children[1..], key);
      if rest.None? then None else Some(rest.value + 1)
  }

  function IsTrue(s: string): bool {
    LowerAll(s) == "true"
  }

  /** `_content_row` */
  function ContentRow(row: Element, entry: string): PackageContent {
    var visible, cot := FindParameter(row.children, "visible"), FindParameter(row.children, "isCoT");
    PackageContent(
      entry,
      IsTrue(Strip(Attr(row, "ignore"))),
      visible.None? || !("value" in row.children[visible.value].attrs) ||
        row.children[visible.value].attrs["value"] != "false",
      cot.Some? && IsTrue(Attr(row.children[cot.value], "value")))
  }

  /** The row as `inspect` and `with_visibility` read it. */
  function RowOf(row: Element): PackageContent {
    ContentRow(row, TextAttr(row, "zipEntry"))
  }

  // ------------------------------------------------------------------ reading

  function ParametersOf(children: seq<Element>): map<string, string> {
    if children == [] then map[]
    else
      var before, last := ParametersOf(children[..|children| - 1]), children[|children| - 1];
      if last.tag == "Parameter" && TextAttr(last, "name") != "" then
        before[TextAttr(last, "name") := Attr(last, "value")]
      else before
  }

  /** `_parameters` */
  method ReadParameters(configuration: Element) returns (found: map<string, string>)
    ensures found == ParametersOf(configuration.children)
  {
    var children := configuration.children;
    found := map[];
    for i := 0 to |children|
      invariant found == ParametersOf(children[..i])
    {
      assert children[..i + 1][..i] == children[..i];
      if children[i].tag == "Parameter" {
        var key := TextAttr(children[i], "name");
        if key != "" {
          found := found[key := Attr(children[i], "value")];
        }
      }
    }
    assert children[..|children|] == children;
  }

  /** Every `Content` child's row, unless one names no entry. */
  function RowsOf(children: seq<Element>): Result<seq<PackageContent>, PackageError> {
    if children == [] then Ok([])
    else
      var before :- RowsOf(children[..|children| - 1]);
      var last := children[|children| - 1];
      if last.tag != "Content" then Ok(before)
      else if TextAttr(last, "zipEntry") == "" then Err(RowWithoutEntry)
      else Ok(before + [RowOf(last)])
  }

  lemma {:induction false} BadRowStays(children: seq<Element>, i: nat)
    requires i <= |children|
    ensures RowsOf(children[..i]).Err? ==> RowsOf(children) == RowsOf(children[..i])
    decreases |children|
  {
    hide TextAttr, RowOf;
    if i == |children| {
      assert children[..i] == children;
    } else {
      var shorter := children[..|children| - 1];
      assert shorter[..i] == children[..i];
      BadRowStays(shorter, i);
    }
  }

  method ReadRows(contents: Element) returns (r: Result<seq<PackageContent>, PackageError>)
    ensures r == RowsOf(contents.children)
  {
    hide TextAttr, ContentRow;
    var children := contents.children;
    var rows: seq<PackageContent> := [];
    for i := 0 to |children|
      invariant RowsOf(children[..i]) == Ok(rows)
    {
      assert children[..i + 1][..i] == children[..i];
      BadRowStays(children, i + 1);
      if children[i].tag == "Content" {
        var entry := TextAttr(children[i], "zipEntry");
        if entry == "" {
          return Err(RowWithoutEntry);
        }
        rows := rows + [ContentRow(children[i], entry)];
      }
    }
    assert children[..|children|] == children;
    return Ok(rows);
  }

  function Slashes(name: string): string {
    Replace(name, '\\', '/')
  }

  function Names(entries: seq<Entry>): set<string> {
    set i | 0 <= i < |entries| :: Slashes(entries[i].name)
  }

  /** The rows whose entry is not in the zip, of those not ignored. */
  function MissingFrom(rows: seq<PackageContent>, base: string, present: set<string>): seq<string> {
    if rows == [] then []
    else
      (if !rows[0].ignore && Slashes(base + rows[0].zipEntry) !in present then [rows[0].zipEntry] else [])
      + MissingFrom(rows[1..], base, present)
  }

  datatype Place = Place(path: string, base: string)

  /** `_find_manifest`: the first entry that ends in the manifest's name. */
  function FindManifest(entries: seq<Entry>): Option<Place> {
    if entries == [] then None
    else
      var name := Slashes(entries[0].name);
      if EndsWith(name, MANIFEST_NAME) then Some(Place(entries[0].name, name[..|name| - |MANIFEST_NAME|]))
      else FindManifest(entries[1..])
  }

  /** `archive.read(name)`: the last entry of that name. */
  function ReadEntry(entries: seq<Entry>, name: string): Option<bytes> {
    if entries == [] then None
    else
      var last := entries[|entries| - 1];
      if last.name == name then last.payload else ReadEntry(entries[..|entries| - 1], name)
  }

  /** The parameters a manifest must give a value. */
  function Absent(parameters: map<string, string>): seq<string> {
    (if "name" in parameters && parameters["name"] != "" then [] else ["name"]) +
    (if "uid" in parameters && parameters["uid"] != "" then [] else ["uid"])
  }

  /** What a parsed manifest says. Two different parameters are there, so the later count of two never fails. */
  function InspectedRoot(root: Element, place: Place, present: set<string>): Result<DataPackage, PackageError> {
    if root.tag != ROOT then Err(WrongRoot)
    else if TextAttr(root, "version") == "" then Err(NoVersion)
    else if TextAttr(root, "version") != MANIFEST_VERSION then Err(WrongVersion)
    else
      var configuration, contents := FindChild(root.children, "Configuration"), FindChild(root.children, "Contents");
      if configuration.None? then Err(NoConfiguration)
      else if contents.None? then Err(NoContents)
      else
        var parameters := ParametersOf(root.children[configuration.value].children);
        if Absent(parameters) != [] then Err(MissingParameters(Absent(parameters)))
        else
          var rows :- RowsOf(root.children[contents.value].children);
          Ok(DataPackage(
            if "name" in parameters then parameters["name"] else "",
            if "uid" in parameters then parameters["uid"] else "",
            place.base, place.path, rows, MissingFrom(rows, place.base, present), parameters))
  }

  /** The manifest's tree, and where it is. */
  function ManifestOf(entries: seq<Entry>, env: Env): Result<(Place, Element), PackageError> {
    if |entries| > MAX_ENTRIES then Err(TooManyEntries)
    else
      var place := FindManifest(entries);
      if place.None? then Err(NoManifest)
      else
        var raw := ReadEntry(entries, place.value.path);
        if raw.None? then Err(Unreadable)
        else if |raw.value| > MAX_MANIFEST_BYTES then Err(ImplausiblyLarge)
        else
          var root := env.parse(raw.value);
          if root.None? then Err(NotXml) else Ok((place.value, root.value))
  }

  function InspectedEntries(entries: seq<Entry>, env: Env): Result<DataPackage, PackageError> {
    var found :- ManifestOf(entries, env);
    InspectedRoot(found.1, found.0, Names(entries))
  }

  function Opened(data: bytes, env: Env): Result<seq<Entry>, PackageError> {
    if |data| > MAX_PACKAGE_BYTES then Err(TooLarge)
    else
      var entries := env.unzip(data);
      if entries.None? then Err(NotAZip) else Ok(entries.value)
  }

  /** What `inspect` reads. */
  function Inspected(data: bytes, env: Env): Result<DataPackage, PackageError> {
    var entries :- Opened(data, env);
    InspectedEntries(entries, env)
  }

  /** `inspect` */
  method Inspect(data: bytes, env: Env) returns (r: Result<DataPackage, PackageError>)
    ensures r == Inspected(data, env)
  {
    hide ParametersOf, RowsOf, MissingFrom, FindManifest, ReadEntry, TextAttr, Names, FindChild;
    var entries := Opened(data, env);
    if entries.Err? {
      return Err(entries.error);
    }
    var found := ManifestOf(entries.value, env);
    if found.Err? {
      return Err(found.error);
    }
    var root, place := found.value.1, found.value.0;
    if root.tag != ROOT {
      return Err(WrongRoot);
    }
    var version := TextAttr(root, "version");
    if version == "" {
      return Err(NoVersion);
    }
    if version != MANIFEST_VERSION {
      return Err(WrongVersion);
    }
    var configuration, contents := FindChild(root.children, "Configuration"), FindChild(root.children, "Contents");
    if configuration.None? {
      return Err(NoConfiguration);
    }
    if contents.None? {
      return Err(NoContents);
    }
    var parameters := ReadParameters(root.children[configuration.value]);
    if Absent(parameters) != [] {
      return Err(MissingParameters(Absent(parameters)));
    }
    var rows := ReadRows(root.children[contents.value]);
    if rows.Err? {
      return Err(rows.error);
    }
    var missing := MissingFrom(rows.value, place.base, Names(entries.value));
    assert "name" in parameters && "uid" in parameters;
    return Ok(DataPackage(parameters["name"], parameters["uid"], place.base, place.path, rows.value, missing,
                          parameters));
  }

  // ------------------------------------------------------------------ visibility

  function Blank(): char -> bool {
    c => c == ' ' || c == '\t' || c == '\r'
  }

  /** The row's indentation, when it is a line break and spaces. */
  predicate IsIndent(before: string) {
    StripBoth(before, Blank()) == "\n"
  }

  /** `_add_parameter`, with the value set. */
  function AddParameter(row: Element, key: string, value: string, before: string): Element {
    var n := |row.children|;
    var added := Element("Parameter", map["name" := key, "value" := value], "", "", []);
    if n > 0 then
      var last := row.children[n - 1];
      var moved := last.(tail := if n > 1 then row.children[n - 2].tail else row.text);
      row.(children := row.children[..n - 1] + [moved, added.(tail := last.tail)])
    else if IsIndent(before) then row.(text := before + "  ", children := [added.(tail := before)])
    else row.(children := [added])
  }

  /** `parameter.set("value", …)` on one child. */
  function SetAt(row: Element, at: nat, value: string): Element
    requires at < |row.children|
  {
    var parameter := row.children[at];
    row.(children := row.children[at := parameter.(attrs := parameter.attrs["value" := value])])
  }

  /** The row with its visibility set, if it is an overlay. */
  function SetRow(row: Element, value: string, before: string): Element {
    if row.tag != "Content" || !RowOf(row).IsOverlay() then row
    else
      var visible := FindParameter(row.children, "visible");
      if visible.None? then AddParameter(row, "visible", value, before) else SetAt(row, visible.value, value)
  }

  /** The white space before a row. */
  function Before(text: string, rows: seq<Element>, i: nat): string
    requires i < |rows|
  {
    if i == 0 then text else rows[i - 1].tail
  }

  function SetRows(text: string, rows: seq<Element>, value: string): (r: seq<Element>)
    ensures |r| == |rows|
  {
    seq(|rows|, i requires 0 <= i < |rows| => SetRow(rows[i], value, Before(text, rows, i)))
  }

  /** The manifest's `Contents` element, changed in place. */
  class ContentsElement {
    var text: string
    var rows: seq<Element>

    constructor (contents: Element)
      ensures text == contents.text && rows == contents.children
    {
      text, rows := contents.text, contents.children;
    }

    /** The loop of `with_visibility`. */
    method SetVisible(value: string)
      modifies this`rows
      ensures rows == SetRows(text, old(rows), value)
    {
      hide SetRow;
      ghost var was := rows;
      for index := 0 to |rows|
        invariant |rows| == |was|
        invariant forall i :: 0 <= i < index ==> rows[i] == SetRow(was[i], value, Before(text, was, i))
        invariant forall i :: index <= i < |rows| ==> rows[i] == was[i]
      {
        TailStays(was, index, value, text);
        var before := if index > 0 then rows[index - 1].tail else text;
        rows := rows[index := SetRow(rows[index], value, before)];
      }
    }
  }

  lemma TailStays(was: seq<Element>, index: nat, value: string, text: string)
    requires index < |was|
    ensures index > 0 ==> SetRow(was[index - 1], value, Before(text, was, index - 1)).tail == was[index - 1].tail
  {
  }

  function SetRoot(root: Element, value: string): Element {
    var contents := FindChild(root.children, "Contents");
    if contents.None? then root
    else
      var e := root.children[contents.value];
      root.(children := root.children[contents.value := e.(children := SetRows(e.text, e.children, value))])
  }

  /** Every entry copied, the manifest's replaced; None when one cannot be read. */
  function CopiedEntries(entries: seq<Entry>, path: string, manifest: bytes): Option<seq<Entry>> {
    if entries == [] then Some([])
    else
      var before, last := CopiedEntries(entries[..|entries| - 1], path, manifest), entries[|entries| - 1];
      var payload := if last.name == path then Some(manifest) else last.payload;
      if before.None? || payload.None? then None else Some(before.value + [last.(payload := payload)])
  }

  function HasOverlay(rows: seq<PackageContent>): bool {
    exists i :: 0 <= i < |rows| && rows[i].IsOverlay()
  }

  function ValueFor(visible: bool): string {
    if visible then "true" else "false"
  }

  /** The new manifest and entries of a package whose overlays are set. */
  function SetEntries(entries: seq<Entry>, visible: bool, env: Env): Result<seq<Entry>, PackageError> {
    var found :- ManifestOf(entries, env);
    var copied := CopiedEntries(entries, found.0.path, env.serialise(SetRoot(found.1, ValueFor(visible))));
    if copied.None? then Err(Unreadable) else Ok(copied.value)
  }

  /** What `with_visibility` returns. */
  function WithVisibility(data: bytes, visible: bool, env: Env): Result<bytes, PackageError> {
    var package :- Inspected(data, env);
    if !HasOverlay(package.contents) then Err(NothingToSet)
    else
      var entries :- Opened(data, env);
      var updated :- SetEntries(entries, visible, env);
      var rewritten := env.zip(updated);
      var checked :- Inspected(rewritten, env);
      Ok(rewritten)
  }

  /** `with_visibility` */
  method SetVisibility(data: bytes, visible: bool, env: Env) returns (r: Result<bytes, PackageError>)
    ensures r == WithVisibility(data, visible, env)
  {
    hide InspectedEntries, CopiedEntries, HasOverlay, SetRows, FindChild, ManifestOf;
    var package := Inspect(data, env);
    if package.Err? {
      return Err(package.error);
    }
    if !HasOverlay(package.value.contents) {
      return Err(NothingToSet);
    }
    var entries := Opened(data, env);
    InspectedHasManifest(entries.value, env);
    var found := ManifestOf(entries.value, env);
    var root := found.value.1;
    var at := FindChild(root.children, "Contents");
    if at.Some? {
      var contents := new ContentsElement(root.children[at.value]);
      contents.SetVisible(ValueFor(visible));
      root := root.(children := root.children[at.value := root.children[at.value].(children := contents.rows)]);
    }
    var manifest := env.serialise(root);
    var copied := CopyEntries(entries.value, found.value.0.path, manifest);
    if copied.None? {
      return Err(Unreadable);
    }
    var rewritten := env.zip(copied.value);
    var checked := Inspect(rewritten, env);
    if checked.Err? {
      return Err(checked.error);
    }
    return Ok(rewritten);
  }

  lemma InspectedHasManifest(entries: seq<Entry>, env: Env)
    ensures InspectedEntries(entries, env).Ok? ==> ManifestOf(entries, env).Ok?
  {
  }

  method CopyEntries(entries: seq<Entry>, path: string, manifest: bytes) returns (r: Option<seq<Entry>>)
    ensures r == CopiedEntries(entries, path, manifest)
  {
    var copied: seq<Entry> := [];
    for i := 0 to |entries|
      invariant CopiedEntries(entries[..i], path, manifest) == Some(copied)
    {
      assert entries[..i + 1][..i] == entries[..i];
      var payload := if entries[i].name == path then Some(manifest) else entries[i].payload;
      if payload.None? {
        UnreadableStays(entries, path, manifest, i + 1);
        return None;
      }
      copied := copied + [entries[i].(payload := payload)];
    }
    assert entries[..|entries|] == entries;
    return Some(copied);
  }

  lemma {:induction false} UnreadableStays(entries: seq<Entry>, path: string, manifest: bytes, i: nat)
    requires i <= |entries| && CopiedEntries(entries[..i], path, manifest).None?
    ensures CopiedEntries(entries, path, manifest).None?
    decreases |entries|
  {
    if i == |entries| {
      assert entries[..i] == entries;
    } else {
      var shorter := entries[..|entries| - 1];
      assert shorter[..i] == entries[..i];
      UnreadableStays(shorter, path, manifest, i);
    }
  }

  // ------------------------------------------------------------------ building

  function Slash(): char -> bool {
    c => c == '/'
  }

  function UsableParts(parts: seq<string>): seq<string> {
    if parts == [] then []
    else (if parts[0] == "" || parts[0] == "." || parts[0] == ".." then [] else [parts[0]]) + UsableParts(parts[1..])
  }

  /** `_safe_entry` */
  function SafeEntry(name: string, env: Env): Result<string, PackageError> {
    var parts := UsableParts(Split(StripLeft(Strip(Slashes(name)), Slash()), '/'));
    if parts == [] then Err(UnusableName(name))
    else
      var safe := Join(parts, '/');
      if StartsWith(env.upper(safe), MANIFEST_DIR) then Err(InManifestDirectory(safe)) else Ok(safe)
  }

  datatype File = File(name: string, payload: bytes)

  /** Every file under its safe name, or the first that has none or repeats one. */
  function SafeFiles(files: seq<File>, env: Env): Result<seq<File>, PackageError> {
    if files == [] then Ok([])
    else
      var before :- SafeFiles(files[..|files| - 1], env);
      var last := files[|files| - 1];
      var safe :- SafeEntry(last.name, env);
      if exists i :: 0 <= i < |before| && before[i].name == safe then Err(Repeated(safe))
      else Ok(before + [File(safe, last.payload)])
  }

  lemma {:induction false} BadFileStays(files: seq<File>, env: Env, i: nat)
    requires i <= |files|
    ensures SafeFiles(files[..i], env).Err? ==> SafeFiles(files, env) == SafeFiles(files[..i], env)
    decreases |files|
  {
    hide SafeEntry;
    if i == |files| {
      assert files[..i] == files;
    } else {
      var shorter := files[..|files| - 1];
      assert shorter[..i] == files[..i];
      BadFileStays(shorter, env, i);
    }
  }

  /** The naming loop of `build`. */
  method NameFiles(files: seq<File>, env: Env) returns (r: Result<seq<File>, PackageError>)
    ensures r == SafeFiles(files, env)
  {
    hide SafeEntry;
    var seen: set<string> := {};
    var entries: seq<File> := [];
    for i := 0 to |files|
      invariant SafeFiles(files[..i], env) == Ok(entries)
      invariant forall n :: n in seen <==> exists k :: 0 <= k < |entries| && entries[k].name == n
    {
      assert files[..i + 1][..i] == files[..i];
      BadFileStays(files, env, i + 1);
      var safe := SafeEntry(files[i].name, env);
      if safe.Err? {
        return Err(safe.error);
      }
      if safe.value in seen {
        return Err(Repeated(safe.value));
      }
      ghost var was := entries;
      seen := seen + {safe.value};
      entries := entries + [File(safe.value, files[i].payload)];
      assert forall k :: 0 <= k < |was| ==> entries[k] == was[k];
      assert entries[|was|].name == safe.value;
    }
    assert files[..|files|] == files;
    return Ok(entries);
  }

  datatype Parameter = Parameter(key: string, value: string)

  function ParameterElement(p: Parameter, tail: string): Element {
    Element("Parameter", map["name" := p.key, "value" := p.value], "", tail, [])
  }

  function ContentElement(entry: string, tail: string): Element {
    Element("Content", map["ignore" := "false", "zipEntry" := entry], "", tail, [])
  }

  function ParameterElements(parameters: seq<Parameter>): (r: seq<Element>)
    ensures |r| == |parameters|
  {
    seq(|parameters|, i requires 0 <= i < |parameters| =>
      ParameterElement(parameters[i], if i + 1 < |parameters| then "\n    " else "\n  "))
  }

  function ContentElements(files: seq<File>): (r: seq<Element>)
    ensures |r| == |files|
  {
    seq(|files|, i requires 0 <= i < |files| =>
      ContentElement(files[i].name, if i + 1 < |files| then "\n    " else "\n  "))
  }

  /** A key's value in the caller's own parameters, else the package's. */
  function Override(extra: seq<Parameter>, key: string, value: string): string {
    if extra == [] then value
    else if extra[0].key == key then extra[0].value
    else Override(extra[1..], key, value)
  }

  function Others(extra: seq<Parameter>): seq<Parameter> {
    if extra == [] then []
    else (if extra[0].key == "uid" || extra[0].key == "name" then [] else [extra[0]]) + Others(extra[1..])
  }

  /** `{"uid": …, "name": …, **extra}`, in the dictionary's order. */
  function AllParameters(name: string, uid: string, extra: seq<Parameter>): seq<Parameter> {
    [Parameter("uid", Override(extra, "uid", uid)), Parameter("name", Override(extra, "name", name))] + Others(extra)
  }

  /** The tree of the manifest `_manifest_xml` writes. */
  function BuiltRoot(name: string, uid: string, files: seq<File>, extra: seq<Parameter>): Element {
    var configuration := Element("Configuration", map[], "\n    ", "\n  ",
                                 ParameterElements(AllParameters(name, uid, extra)));
    var contents := Element("Contents", map[], if files == [] then "\n  " else "\n    ", "\n", ContentElements(files));
    Element(ROOT, map["version" := MANIFEST_VERSION], "\n  ", "", [configuration, contents])
  }

  function FreshMeta(now: int): Meta {
    Meta(now, 8, 0x1800000, 3, [])
  }

  function FileEntries(files: seq<File>, now: int): (r: seq<Entry>)
    ensures |r| == |files|
  {
    seq(|files|, i requires 0 <= i < |files| => Entry(files[i].name, FreshMeta(now), Some(files[i].payload)))
  }

  /** The entries of a new package: the manifest, then the files. */
  function BuiltEntries(name: string, files: seq<File>, uid: string, extra: seq<Parameter>, now: int, env: Env):
    Result<seq<Entry>, PackageError>
  {
    if Strip(name) == "" then Err(NoName)
    else if files == [] then Err(NoFiles)
    else
      var safe :- SafeFiles(files, env);
      var manifest := env.serialise(BuiltRoot(Strip(name), uid, safe, extra));
      Ok([Entry(MANIFEST_NAME, FreshMeta(now), Some(manifest))] + FileEntries(safe, now))
  }

  /** `build`, with the caller's parameters in their dictionary's order. */
  method Build(name: string, files: seq<File>, uid: string, extra: seq<Parameter>, now: int, env: Env)
    returns (r: Result<bytes, PackageError>)
    ensures BuiltEntries(name, files, uid, extra, now, env).Err? ==>
              r == Err(BuiltEntries(name, files, uid, extra, now, env).error)
    ensures BuiltEntries(name, files, uid, extra, now, env).Ok? ==>
              r == Ok(env.zip(BuiltEntries(name, files, uid, extra, now, env).value))
  {
    hide SafeFiles, Strip, BuiltRoot, FreshMeta;
    var title := Strip(name);
    if title == "" {
      return Err(NoName);
    }
    if files == [] {
      return Err(NoFiles);
    }
    var safe := NameFiles(files, env);
    if safe.Err? {
      return Err(safe.error);
    }
    var archive := [Entry(MANIFEST_NAME, FreshMeta(now),
                          Some(env.serialise(BuiltRoot(title, uid, safe.value, extra))))];
    ghost var first := archive;
    for i := 0 to |safe.value|
      invariant archive == first + FileEntries(safe.value[..i], now)
    {
      archive := archive + [Entry(safe.value[i].name, FreshMeta(now), Some(safe.value[i].payload))];
    }
    assert safe.value[..|safe.value|] == safe.value;
    return Ok(env.zip(archive));
  }
}
