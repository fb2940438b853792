/** What `inspect` makes of a package `build` has made. */
module BuiltPackages {
  import opened Wrappers
  import opened Bytes
  import opened Texts
  import opened MissionPackage
  import opened MissionPackageTheorems

  /** The row of a file: neither ignored, hidden nor marked as a map item. */
  function PlainRow(name: string): PackageContent {
    PackageContent(Strip(name), false, true, false)
  }

  function PlainRows(files: seq<File>): (r: seq<PackageContent>)
    ensures |r| == |files|
  {
    seq(|files|, i requires 0 <= i < |files| => PlainRow(files[i].name))
  }

  ghost predicate NamesSomething(files: seq<File>) {
    forall i :: 0 <= i < |files| ==> Strip(files[i].name) != ""
  }

  predicate IsPlainContent(e: Element, name: string) {
    e.tag == "Content" && e.attrs == map["ignore" := "false", "zipEntry" := name] && e.children == []
  }

  lemma PlainContentReads(e: Element, name: string)
    requires IsPlainContent(e, name)
    ensures TextAttr(e, "zipEntry") == Strip(name) && RowOf(e) == PlainRow(name)
  {
    StripKeeps("false", Space());
    hide StripBoth;
    assert LowerAll("false") == "false" && LowerAll("")  == "";
  }

  lemma {:induction false} PlainRowsRead(children: seq<Element>, files: seq<File>)
    requires |children| == |files| && forall i :: 0 <= i < |files| ==> IsPlainContent(children[i], files[i].name)
    ensures NamesSomething(files) ==> RowsOf(children) == Ok(PlainRows(files))
    ensures !NamesSomething(files) ==> RowsOf(children) == Err(RowWithoutEntry)
    decreases |files|
  {
    hide RowOf, TextAttr, Strip, RowsOf;
    if files == [] {
      assert children == [];
      NoRows(true);
      assert PlainRows(files) == [];
    } else {
      var n := |files| - 1;
      PlainRowsRead(children[..n], files[..n]);
      assert children == children[..n] + [children[n]];
      RowsSnoc(children[..n], children[n]);
      PlainContentReads(children[n], files[n].name);
      assert forall i :: 0 <= i < n ==> files[..n][i] == files[i];
      if NamesSomething(files[..n]) {
        assert PlainRows(files) == PlainRows(files[..n]) + [PlainRow(files[n].name)];
      }
    }
  }

  // ------------------------------------------------------- parameters

  /** The value of the last parameter whose key, stripped, is this one. */
  function LastNamed(parameters: seq<Parameter>, key: string): Option<string> {
    if parameters == [] then None
    else
      var last := parameters[|parameters| - 1];
      if Strip(last.key) == key then Some(last.value) else LastNamed(parameters[..|parameters| - 1], key)
  }

  /** What a package's own parameter ends up as: a padded spelling of its key comes last and wins. */
  function ReadAs(extra: seq<Parameter>, key: string, value: string): string {
    var padded := LastNamed(Others(extra), key);
    if padded.Some? then padded.value else Override(extra, key, value)
  }

  /** The caller's own parameters leave the name and the uid alone. */
  ghost predicate KeepsIdentity(extra: seq<Parameter>) {
    forall i :: 0 <= i < |extra| ==> Strip(extra[i].key) != "name" && Strip(extra[i].key) != "uid"
  }

  lemma {:induction false} IdentityIsKept(extra: seq<Parameter>, key: string, value: string)
    requires KeepsIdentity(extra) && (key == "name" || key == "uid")
    ensures Override(extra, key, value) == value && KeepsIdentity(Others(extra))
    decreases |extra|
  {
    StripKeeps(key, Space());
    hide StripBoth;
    if extra != [] {
      IdentityIsKept(extra[1..], key, value);
    }
  }

  lemma {:induction false} NobodyNamed(parameters: seq<Parameter>, key: string)
    requires forall i :: 0 <= i < |parameters| ==> Strip(parameters[i].key) != key
    ensures LastNamed(parameters, key).None?
    decreases |parameters|
  {
    hide StripBoth;
    if parameters != [] {
      NobodyNamed(parameters[..|parameters| - 1], key);
    }
  }

  /** Parameters that leave name and uid alone do not change what is read. */
  lemma OthersChangeNothing(extra: seq<Parameter>, key: string, value: string)
    requires KeepsIdentity(extra) && (key == "name" || key == "uid")
    ensures ReadAs(extra, key, value) == value
  {
    hide StripBoth;
    IdentityIsKept(extra, key, value);
    NobodyNamed(Others(extra), key);
  }

  lemma {:induction false} LastNamedAppend(first: seq<Parameter>, rest: seq<Parameter>, key: string)
    ensures LastNamed(first + rest, key) ==
            if LastNamed(rest, key).Some? then LastNamed(rest, key) else LastNamed(first, key)
    decreases |rest|
  {
    hide StripBoth;
    if rest == [] {
      assert first + rest == first;
    } else {
      assert (first + rest)[..|first + rest| - 1] == first + rest[..|rest| - 1];
      LastNamedAppend(first, rest[..|rest| - 1], key);
    }
  }

  lemma ParametersSnoc(children: seq<Element>, last: Element)
    ensures ParametersOf(children + [last]) ==
            if last.tag == "Parameter" && TextAttr(last, "name") != ""
            then ParametersOf(children)[TextAttr(last, "name") := Attr(last, "value")] else ParametersOf(children)
  {
    hide TextAttr;
    assert (children + [last])[..|children|] == children;
  }

  /** This element writes this parameter. */
  predicate Writes(e: Element, p: Parameter) {
    e.tag == "Parameter" && e.attrs == map["name" := p.key, "value" := p.value]
  }

  /** Reading written parameters gives each key its last value. */
  lemma {:induction false} LastNamedIsRead(children: seq<Element>, parameters: seq<Parameter>, key: string)
    requires |children| == |parameters| && forall i :: 0 <= i < |children| ==> Writes(children[i], parameters[i])
    requires key != ""
    ensures var read, last := ParametersOf(children), LastNamed(parameters, key);
            (key in read <==> last.Some?) && (key in read ==> read[key] == last.value)
    decreases |children|
  {
    hide StripBoth, ParametersOf;
    if children == [] {
      NothingIsRead(children);
    } else {
      var n := |children| - 1;
      assert children == children[..n] + [children[n]];
      ParametersSnoc(children[..n], children[n]);
      LastNamedIsRead(children[..n], parameters[..n], key);
    }
  }

  lemma NothingIsRead(children: seq<Element>)
    requires children == []
    ensures ParametersOf(children) == map[]
  {
  }

  lemma OwnParameters(name: string, uid: string)
    ensures LastNamed([Parameter("uid", uid), Parameter("name", name)], "uid") == Some(uid)
    ensures LastNamed([Parameter("uid", uid), Parameter("name", name)], "name") == Some(name)
  {
    StripKeeps("uid", Space());
    StripKeeps("name", Space());
    hide StripBoth;
    var own := [Parameter("uid", uid), Parameter("name", name)];
    assert own[..1] == [Parameter("uid", uid)];
  }

  lemma BuiltParameters(name: string, uid: string, extra: seq<Parameter>)
    ensures var p := ParametersOf(ParameterElements(AllParameters(name, uid, extra)));
            "uid" in p && p["uid"] == ReadAs(extra, "uid", uid) && "name" in p &&
              p["name"] == ReadAs(extra, "name", name)
  {
    hide StripBoth, Others, Override, ParametersOf, LastNamed;
    var all := AllParameters(name, uid, extra);
    var children := ParameterElements(all);
    var ownUid, ownName := Override(extra, "uid", uid), Override(extra, "name", name);
    OwnParameters(ownName, ownUid);
    LastNamedAppend([Parameter("uid", ownUid), Parameter("name", ownName)], Others(extra), "uid");
    LastNamedAppend([Parameter("uid", ownUid), Parameter("name", ownName)], Others(extra), "name");
    LastNamedIsRead(children, all, "uid");
    LastNamedIsRead(children, all, "name");
  }

  // ------------------------------------------------------- the manifest and the archive

  function Summary(name: string, uid: string, files: seq<File>, extra: seq<Parameter>,
                   present: set<string>): DataPackage {
    DataPackage(ReadAs(extra, "name", name), ReadAs(extra, "uid", uid), "", MANIFEST_NAME, PlainRows(files),
                MissingFrom(PlainRows(files), "", present),
                ParametersOf(ParameterElements(AllParameters(name, uid, extra))))
  }

  /** The identifying parameters read as empty. */
  function Unnamed(name: string, uid: string, extra: seq<Parameter>): seq<string> {
    (if ReadAs(extra, "name", name) == "" then ["name"] else []) +
      (if ReadAs(extra, "uid", uid) == "" then ["uid"] else [])
  }

  /** What `inspect` makes of a built manifest. */
  ghost function Reading(name: string, uid: string, files: seq<File>, extra: seq<Parameter>, present: set<string>)
    : Result<DataPackage, PackageError>
  {
    if Unnamed(name, uid, extra) != [] then Err(MissingParameters(Unnamed(name, uid, extra)))
    else if !NamesSomething(files) then Err(RowWithoutEntry)
    else Ok(Summary(name, uid, files, extra, present))
  }

  lemma BuiltRootReads(name: string, uid: string, files: seq<File>, extra: seq<Parameter>, present: set<string>)
    ensures InspectedRoot(BuiltRoot(name, uid, files, extra), Place(MANIFEST_NAME, ""), present) ==
            Reading(name, uid, files, extra, present)
  {
    var root := BuiltRoot(name, uid, files, extra);
    assert FindChild(root.children, "Configuration") == Some(0) && FindChild(root.children, "Contents") == Some(1) by {
      assert root.children[1..][0] == root.children[1];
    }
    StripKeeps("2", Space());
    BuiltParameters(name, uid, extra);
    hide StripBoth, ParametersOf, RowsOf, MissingFrom, FindChild, ParameterElements, AllParameters, ReadAs;
    PlainRowsRead(root.children[1].children, files);
  }

  lemma {:induction false} SafeFilesAreSafe(files: seq<File>, env: Env)
    requires SafeFiles(files, env).Ok?
    ensures |SafeFiles(files, env).value| == |files|
    ensures forall i :: 0 <= i < |files| ==>
              SafeEntry(files[i].name, env) == Ok(SafeFiles(files, env).value[i].name) &&
              SafeFiles(files, env).value[i].payload == files[i].payload
    ensures forall i, j :: 0 <= i < j < |files| ==>
              SafeFiles(files, env).value[i].name != SafeFiles(files, env).value[j].name
    decreases |files|
  {
    hide SafeEntry;
    if files != [] {
      SafeFilesAreSafe(files[..|files| - 1], env);
    }
  }

  lemma SafeIsNotManifest(name: string, env: Env)
    requires SafeEntry(name, env).Ok? && StartsWith(env.upper(MANIFEST_NAME), MANIFEST_DIR)
    ensures SafeEntry(name, env).value != MANIFEST_NAME
  {
    hide StripBoth, StripLeft, Split, Join, UsableParts, StartsWith;
  }

  lemma {:induction false} FirstIsRead(entries: seq<Entry>)
    requires entries != [] && entries[0].name == MANIFEST_NAME && forall i :: 0 < i < |entries| ==>
               entries[i].name != MANIFEST_NAME
    ensures ReadEntry(entries, MANIFEST_NAME) == entries[0].payload
    decreases |entries|
  {
    if |entries| > 1 {
      FirstIsRead(entries[..|entries| - 1]);
    }
  }

  lemma FirstIsManifest(entries: seq<Entry>)
    requires entries != [] && entries[0].name == MANIFEST_NAME
    ensures FindManifest(entries) == Some(Place(MANIFEST_NAME, ""))
  {
    assert Slashes(MANIFEST_NAME) == MANIFEST_NAME;
    assert MANIFEST_NAME[0..] == MANIFEST_NAME && MANIFEST_NAME[..0] == "";
  }

  /** Every row names its own file. */
  ghost predicate RowsNameFiles(rows: seq<PackageContent>, files: seq<File>) {
    |rows| == |files| && forall i :: 0 <= i < |rows| ==> rows[i].zipEntry == files[i].name
  }

  /** No safe name begins or ends with white space. */
  ghost predicate AllStripped(files: seq<File>) {
    forall i :: 0 <= i < |files| ==> Strip(files[i].name) == files[i].name
  }

  /** The package is within the limits `inspect` sets. */
  predicate Fits(entries: seq<Entry>, manifest: bytes, env: Env) {
    |entries| <= 10000 && |manifest| <= 4 * 1024 * 1024 && |env.zip(entries)| <= 2 * 1024 * 1024 * 1024
  }

  lemma {:induction false} NothingMissing(rows: seq<PackageContent>, present: set<string>)
    requires forall i :: 0 <= i < |rows| ==> Slashes("" + rows[i].zipEntry) in present
    ensures MissingFrom(rows, "", present) == []
    decreases |rows|
  {
    hide Slashes;
    if rows != [] {
      NothingMissing(rows[1..], present);
    }
  }

  lemma {:induction false} SafeFilesExactlyWhen(files: seq<File>, env: Env)
    ensures SafeFiles(files, env).Ok? <==> NamesApart(files, env)
    decreases |files|
  {
    hide SafeEntry;
    if files != [] {
      var before, last := files[..|files| - 1], files[|files| - 1];
      SafeFilesExactlyWhen(before, env);
      if SafeFiles(before, env).Ok? {
        SafeFilesAreSafe(before, env);
      }
    }
  }

  /** Every file has a safe name, and no two have the same. */
  ghost predicate NamesApart(files: seq<File>, env: Env) {
    && (forall i :: 0 <= i < |files| ==> SafeEntry(files[i].name, env).Ok?)
    && (forall i, j :: 0 <= i < j < |files| ==> SafeEntry(files[i].name, env) != SafeEntry(files[j].name, env))
  }

  /**
   A package is built exactly when it has a name and files, each with a safe name of its own, and
   then holds the manifest and every file's own bytes under its safe name, in order.
   */
  lemma PackageHoldsItsFiles(name: string, files: seq<File>, uid: string, extra: seq<Parameter>, now: int, env: Env)
    ensures var r := BuiltEntries(name, files, uid, extra, now, env);
            && (r.Ok? <==> Strip(name) != "" && files != [] && NamesApart(files, env))
            && (r.Ok? ==>
                  && |r.value| == 1 + |files| && r.value[0].name == "MANIFEST/manifest.xml"
                  && forall i :: 0 <= i < |files| ==>
                       r.value[1 + i].payload == Some(files[i].payload) &&
                       SafeEntry(files[i].name, env) == Ok(r.value[1 + i].name))
  {
    hide SafeFiles, SafeEntry, Strip, BuiltRoot, FreshMeta, NamesApart;
    SafeFilesExactlyWhen(files, env);
    if SafeFiles(files, env).Ok? {
      SafeFilesAreSafe(files, env);
    }
  }

  /** The libraries give back what `build` gives them, and the package is within the limits `inspect` sets. */
  ghost predicate Kept(name: string, files: seq<File>, uid: string, extra: seq<Parameter>, now: int, env: Env) {
    && StartsWith(env.upper(MANIFEST_NAME), MANIFEST_DIR)
    && BuiltEntries(name, files, uid, extra, now, env).Ok? && uid != ""
    && var root := BuiltRoot(Strip(name), uid, SafeFiles(files, env).value, extra);
    var entries := BuiltEntries(name, files, uid, extra, now, env).value;
    LibrariesKeep(env, root, entries) && Fits(entries, env.serialise(root), env)
  }

  lemma BuiltEntriesRead(name: string, files: seq<File>, uid: string, extra: seq<Parameter>, now: int, env: Env)
    requires Kept(name, files, uid, extra, now, env)
    ensures var safe, entries := SafeFiles(files, env).value, BuiltEntries(name, files, uid, extra, now, env).value;
            Inspected(env.zip(entries), env) == Reading(Strip(name), uid, safe, extra, Names(entries))
  {
    hide SafeFiles, SafeEntry, StripBoth, StartsWith, BuiltRoot, ReadEntry, FindManifest, InspectedRoot, Names,
         FreshMeta, Strip, ParametersOf, MissingFrom, PlainRows, NamesSomething, Reading;
    var safe, entries := SafeFiles(files, env).value, BuiltEntries(name, files, uid, extra, now, env).value;
    SafeFilesAreSafe(files, env);
    forall i | 0 < i < |entries| ensures entries[i].name != MANIFEST_NAME {
      assert entries[i].name == safe[i - 1].name;
      SafeIsNotManifest(files[i - 1].name, env);
    }
    FirstIsRead(entries);
    FirstIsManifest(entries);
    BuiltRootReads(Strip(name), uid, safe, extra, Names(entries));
  }

  /**
   `inspect` reads a built package back, its rows naming the files that were put in, exactly when
   no safe file name begins or ends with white space and no parameter of the caller's empties the
   name or the uid. Both are as given unless such a parameter replaces them.
   */
  lemma BuiltPackageIsReadBack(name: string, files: seq<File>, uid: string, extra: seq<Parameter>, now: int, env: Env)
    requires Kept(name, files, uid, extra, now, env)
    ensures var safe, entries := SafeFiles(files, env).value, BuiltEntries(name, files, uid, extra, now, env).value;
            var r := Inspected(env.zip(entries), env);
            var unnamed := Unnamed(Strip(name), uid, extra);
            && (unnamed != [] ==> r == Err(MissingParameters(unnamed)))
            && (r.Ok? ==> r.value.name == ReadAs(extra, "name", Strip(name)) && r.value.uid == ReadAs(extra, "uid", uid)
                          && r.value.baseDirectory == "")
            && (r.Ok? && RowsNameFiles(r.value.contents, safe) <==> AllStripped(safe) && unnamed == [])
            && (AllStripped(safe) && unnamed == [] ==>
                  r.value.missing == [] && forall i :: 0 <= i < |safe| ==>
                    r.value.contents[i] == PlainRow(safe[i].name))
            && (KeepsIdentity(extra) ==>
                  unnamed == [] && ReadAs(extra, "name", Strip(name)) == Strip(name) &&
                    ReadAs(extra, "uid", uid) == uid)
  {
    BuiltEntriesRead(name, files, uid, extra, now, env);
    var safe, entries := SafeFiles(files, env).value, BuiltEntries(name, files, uid, extra, now, env).value;
    SafeFilesAreSafe(files, env);
    hide SafeFiles, StripBoth, StartsWith, BuiltRoot, Inspected, FreshMeta, ParametersOf, MissingFrom, Strip, Slashes,
         BuiltEntries, ReadAs, LibrariesKeep, Fits;
    forall i | 0 <= i < |safe| ensures safe[i].name != "" {
      SafeIsSomething(files[i].name, env);
    }
    BuiltHasName(name, files, uid, extra, now, env);
    hide Kept;
    if KeepsIdentity(extra) {
      OthersChangeNothing(extra, "name", Strip(name));
      OthersChangeNothing(extra, "uid", uid);
    }
    if AllStripped(safe) {
      assert NamesSomething(safe);
      StrippedAreThere(name, files, uid, extra, now, env);
    }
  }

  lemma StrippedAreThere(name: string, files: seq<File>, uid: string, extra: seq<Parameter>, now: int, env: Env)
    requires BuiltEntries(name, files, uid, extra, now, env).Ok? && AllStripped(SafeFiles(files, env).value)
    ensures var safe, entries := SafeFiles(files, env).value, BuiltEntries(name, files, uid, extra, now, env).value;
            MissingFrom(PlainRows(safe), "", Names(entries)) == []
  {
    var safe, entries := SafeFiles(files, env).value, BuiltEntries(name, files, uid, extra, now, env).value;
    hide SafeFiles, Strip, Slashes, BuiltEntries;
    BuiltNames(name, files, uid, extra, now, env);
    forall i | 0 <= i < |safe| ensures Slashes("" + PlainRows(safe)[i].zipEntry) in Names(entries) {
      assert "" + safe[i].name == safe[i].name;
    }
    NothingMissing(PlainRows(safe), Names(entries));
  }

  lemma BuiltHasName(name: string, files: seq<File>, uid: string, extra: seq<Parameter>, now: int, env: Env)
    requires BuiltEntries(name, files, uid, extra, now, env).Ok?
    ensures Strip(name) != "" && files != []
  {
  }

  lemma BuiltNames(name: string, files: seq<File>, uid: string, extra: seq<Parameter>, now: int, env: Env)
    requires BuiltEntries(name, files, uid, extra, now, env).Ok?
    ensures forall i :: 0 <= i < |SafeFiles(files, env).value| ==>
              Slashes(SafeFiles(files, env).value[i].name) in
                Names(BuiltEntries(name, files, uid, extra, now, env).value)
  {
    hide SafeFiles, StripBoth, BuiltRoot, FreshMeta, Slashes;
    var safe, entries := SafeFiles(files, env).value, BuiltEntries(name, files, uid, extra, now, env).value;
    forall i | 0 <= i < |safe| ensures Slashes(safe[i].name) in Names(entries) {
      assert entries[i + 1].name == safe[i].name;
      assert Slashes(entries[i + 1].name) in Names(entries);
    }
  }

  lemma {:induction false} PartsAreSomething(parts: seq<string>)
    ensures forall i :: 0 <= i < |UsableParts(parts)| ==> UsableParts(parts)[i] != ""
    decreases |parts|
  {
    if parts != [] {
      PartsAreSomething(parts[1..]);
    }
  }

  lemma SafeIsSomething(name: string, env: Env)
    requires SafeEntry(name, env).Ok?
    ensures SafeEntry(name, env).value != ""
  {
    hide StripBoth, StripLeft, Split, UsableParts, StartsWith, Strip;
    PartsAreSomething(Split(StripLeft(Strip(Slashes(name)), Slash()), '/'));
  }

  // ------------------------------------------------------- packages that are not read back

  /** Stripping comes before the leading slashes go, so a name can keep a leading space, or be one. */
  lemma SpaceAfterSlash(env: Env)
    ensures SafeEntry("/ x", env).Ok? ==> SafeEntry("/ x", env).value == " x"
    ensures Strip(" x") == "x"
  {
    assert Slashes("/ x") == "/ x";
    StripKeeps("/ x", Space());
    StripKeeps("x", Space());
    assert "/ x"[1..] == " x" && " x"[1..] == "x";
    assert StripLeft("/ x", Slash()) == " x";
    SplitWhole(" x", '/');
    assert UsableParts([" x"]) == [" x"] by {
      assert " x"[0] == ' ';
      assert [" x"][1..] == [];
    }
    assert Join([" x"], '/') == " x";
  }

  lemma SpaceBetweenSlashes(env: Env)
    ensures SafeEntry("/ /", env).Ok? ==> SafeEntry("/ /", env).value == " "
    ensures Strip(" ") == ""
  {
    assert Slashes("/ /") == "/ /";
    StripKeeps("/ /", Space());
    assert "/ /"[1..] == " /" && " /"[1..] == "/" && "/"[1..] == "" && " "[1..] == "";
    assert StripLeft("/ /", Slash()) == " /";
    assert Split("/", '/') == ["", ""];
    assert Split(" /", '/') == [" ", ""] by {
      assert [' '] + "" == " " && ["", ""][1..] == [""];
    }
    assert UsableParts([" ", ""]) == [" "] by {
      assert " "[0] == ' ';
      assert [" ", ""][1..] == [""] && [""][1..] == [];
    }
    assert Join([" "], '/') == " ";
  }

  lemma FileEntryNames(files: seq<File>, now: int)
    ensures forall i :: 0 <= i < |files| ==> FileEntries(files, now)[i].name == files[i].name
  {
  }

  lemma SpacedRowIsMissing(entries: seq<Entry>, files: seq<File>)
    requires |entries| == 2 && entries[0].name == MANIFEST_NAME && entries[1].name == " x"
    requires |files| == 1 && files[0].name == " x" && Strip(" x") == "x"
    ensures NamesSomething(files) && MissingFrom(PlainRows(files), "", Names(entries)) == ["x"]
  {
    hide StripBoth, Strip;
    var row := PackageContent("x", false, true, false);
    var rows := PlainRows(files);
    assert rows == [row] && rows[1..] == [];
    assert "" + "x" == "x" && Slashes("x") == "x";
    assert Slashes(" x") == " x" && Slashes(MANIFEST_NAME) == MANIFEST_NAME;
    assert |" x"| != |"x"| && |MANIFEST_NAME| != |"x"|;
    assert "x" !in Names(entries);
    NothingElse(rows[1..], Names(entries));
  }

  lemma NothingElse(rows: seq<PackageContent>, present: set<string>)
    requires rows == []
    ensures MissingFrom(rows, "", present) == []
  {
  }

  /** The first exception is real: the package is built and accepted, and its only file reads as missing. */
  lemma SpacedFileIsMissing(name: string, payload: bytes, uid: string, now: int, env: Env)
    requires Kept(name, [File("/ x", payload)], uid, [], now, env)
    ensures var r := Inspected(env.zip(BuiltEntries(name, [File("/ x", payload)], uid, [], now, env).value), env);
            r.Ok? && r.value.missing == ["x"]
  {
    var files := [File("/ x", payload)];
    BuiltEntriesRead(name, files, uid, [], now, env);
    SpaceAfterSlash(env);
    OneSafeFile(files[0], env);
    OthersChangeNothing([], "name", Strip(name));
    OthersChangeNothing([], "uid", uid);
    BuiltHasName(name, files, uid, [], now, env);
    hide Inspected, StripBoth, StripLeft, ParametersOf, BuiltRoot, SafeEntry, ReadAs, LibrariesKeep, Fits, StartsWith,
         SafeFiles, FreshMeta, FileEntries, MissingFrom, Names;
    var safe, entries := [File(" x", payload)], BuiltEntries(name, files, uid, [], now, env).value;
    assert entries[0].name == MANIFEST_NAME && FileEntries(safe, now)[0].name == " x" by {
      FileEntryNames(safe, now);
    }
    SpacedRowIsMissing(entries, safe);
  }

  /** So is the second: a file named by a space alone gives a package that `inspect` refuses. */
  lemma BlankFileIsRefused(name: string, payload: bytes, uid: string, now: int, env: Env)
    requires Kept(name, [File("/ /", payload)], uid, [], now, env)
    ensures Inspected(env.zip(BuiltEntries(name, [File("/ /", payload)], uid, [], now, env).value), env) ==
              Err(RowWithoutEntry)
  {
    var files := [File("/ /", payload)];
    BuiltEntriesRead(name, files, uid, [], now, env);
    SpaceBetweenSlashes(env);
    OneSafeFile(files[0], env);
    OthersChangeNothing([], "name", Strip(name));
    OthersChangeNothing([], "uid", uid);
    BuiltHasName(name, files, uid, [], now, env);
    hide Inspected, StripBoth, StripLeft, ParametersOf, BuiltRoot, SafeEntry, ReadAs, LibrariesKeep, Fits, StartsWith,
         SafeFiles, FreshMeta, Summary;
    assert [File(" ", payload)][0].name == " ";
  }

  lemma OneSafeFile(file: File, env: Env)
    requires SafeFiles([file], env).Ok?
    ensures SafeEntry(file.name, env).Ok?
    ensures SafeFiles([file], env) == Ok([File(SafeEntry(file.name, env).value, file.payload)])
  {
    hide SafeEntry;
    assert [file][..0] == [];
    assert SafeFiles([], env) == Ok([]);
    assert [] + [File(SafeEntry(file.name, env).value, file.payload)] ==
             [File(SafeEntry(file.name, env).value, file.payload)];
  }
}
