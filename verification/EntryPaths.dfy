/** Where the entries of an archive lie when it is unpacked, part by part as a file system walks a path. */
module EntryPaths {
  import opened Wrappers
  import opened Texts
  import Sorting
  import Dted
  import DtedTheorems
  import MissionPackage

  /** One step from a folder; None above the folder where the walk began. */
  function Step(at: seq<string>, part: string): Option<seq<string>> {
    match part
    case "" => Some(at)
    case "." => Some(at)
    case ".." => if at == [] then None else Some(at[..|at| - 1])
    case _ => Some(at + [part])
  }

  function Walk(at: seq<string>, parts: seq<string>): Option<seq<string>>
    decreases |parts|
  {
    if parts == [] then Some(at)
    else if Step(at, parts[0]).None? then None
    else Walk(Step(at, parts[0]).value, parts[1..])
  }

  /** The step always goes one folder deeper. */
  predicate Deepens(part: string) {
    Step([], part) == Some([part])
  }

  /** The step goes back from any folder. */
  predicate GoesBack(part: string) {
    Step(["folder"], part) == Some([])
  }

  lemma StepsAre(at: seq<string>, part: string)
    ensures Deepens(part) ==> Step(at, part) == Some(at + [part])
    ensures !GoesBack(part) ==> Step(at, part).Some?
    ensures Deepens(part) <==> part != "" && part != "." && part != ".."
    ensures GoesBack(part) <==> part == ".."
  {
    assert [] + [part] == [part] && |["folder"] + [part]| == 2;
  }

  lemma {:induction false} DeepWalk(at: seq<string>, parts: seq<string>)
    requires forall i :: 0 <= i < |parts| ==> Deepens(parts[i])
    ensures Walk(at, parts) == Some(at + parts)
    decreases |parts|
  {
    hide Step, Deepens;
    if parts == [] {
      assert at + parts == at;
    } else {
      StepsAre(at, parts[0]);
      DeepWalk(at + [parts[0]], parts[1..]);
      assert at + [parts[0]] + parts[1..] == at + parts;
    }
  }

  lemma {:induction false} WalkStays(at: seq<string>, parts: seq<string>)
    requires forall i :: 0 <= i < |parts| ==> !GoesBack(parts[i])
    ensures Walk(at, parts).Some?
    decreases |parts|
  {
    hide Step, GoesBack;
    if parts != [] {
      StepsAre(at, parts[0]);
      WalkStays(Step(at, parts[0]).value, parts[1..]);
    }
  }

  // ------------------------------------------------------- terrain archives

  /** The path does not begin at a root, or at a drive. */
  predicate IsRelative(path: string) {
    (path == "" || path[0] !in "/\\") && (|path| < 2 || path[1] != ':')
  }

  function PartsOf(path: string): seq<string> {
    Split(Replace(path, '\\', '/'), '/')
  }

  /** Refused are exactly the paths from a root or a drive and those with a step back. */
  lemma EscapesMeans(path: string)
    ensures var parts := PartsOf(path);
            Dted.Escapes(path) <==> !IsRelative(path) || exists i :: 0 <= i < |parts| && GoesBack(parts[i])
  {
    hide Step, Split, GoesBack;
    forall part ensures GoesBack(part) <==> part == ".." {
      StepsAre([], part);
    }
    var normalised := Replace(path, '\\', '/');
    assert StartsWith(normalised, "/") <==> path != "" && path[0] in "/\\" by {
      if path != "" {
        assert normalised[..1] == [normalised[0]];
      }
    }
    assert IsRelative(path) <==> !StartsWith(normalised, "/") && (|path| < 2 || normalised[1] != ':');
  }

  /** Every entry of an accepted archive lands inside the target. */
  lemma LayoutStaysInside(names: seq<string>, i: nat)
    requires Dted.Planned(names).Ok? && i < |Dted.Planned(names).value.moves|
    ensures var path := Dted.Planned(names).value.moves[i].destination;
            IsRelative(path) && Walk([], PartsOf(path)).Some?
  {
    hide Dted.Planned, Dted.Escapes, Walk, GoesBack, IsRelative, Split;
    DtedTheorems.AcceptedLayoutIsSafe(names);
    var path := Dted.Planned(names).value.moves[i].destination;
    EscapesMeans(path);
    WalkStays([], PartsOf(path));
  }

  // ------------------------------------------------------- package entries

  lemma {:induction false} UsableAreDeep(parts: seq<string>)
    ensures MissionPackage.UsableParts(parts) == Sorting.Filter(parts, Deepens)
    decreases |parts|
  {
    hide Step, Deepens;
    if parts != [] {
      StepsAre([], parts[0]);
      UsableAreDeep(parts[1..]);
    }
  }

  /** Leading slashes are only empty parts. */
  lemma {:induction false} LeadingSlashes(s: string)
    ensures MissionPackage.UsableParts(Split(StripLeft(s, MissionPackage.Slash()), '/')) ==
            MissionPackage.UsableParts(Split(s, '/'))
    decreases |s|
  {
    if s != "" && s[0] == '/' {
      LeadingSlashes(s[1..]);
      assert ([""] + Split(s[1..], '/'))[1..] == Split(s[1..], '/');
    }
  }

  lemma {:induction false} PartsLack(s: string, at: char)
    ensures forall i :: 0 <= i < |Split(s, at)| ==> at !in Split(s, at)[i]
    ensures forall i, c :: 0 <= i < |Split(s, at)| && c in Split(s, at)[i] ==> c in s
    decreases |s|
  {
    if s != "" {
      PartsLack(s[1..], at);
      var rest := Split(s[1..], at);
      assert forall c :: c in rest[0] ==> c in s[1..];
      assert s == [s[0]] + s[1..];
    }
  }

  /** The name kept is what is left of its parts when those that do not go deeper are dropped. */
  lemma SafeEntryMeans(name: string, env: MissionPackage.Env)
    ensures var parts := Sorting.Filter(Split(Strip(Replace(name, '\\', '/')), '/'), Deepens);
            MissionPackage.SafeEntry(name, env) ==
            if parts == [] then Err(MissionPackage.UnusableName(name))
            else if StartsWith(env.upper(Join(parts, '/')), "MANIFEST/") then
              Err(MissionPackage.InManifestDirectory(Join(parts, '/')))
            else Ok(Join(parts, '/'))
  {
    hide Split, Join, StripLeft, Strip, MissionPackage.UsableParts, Deepens, StartsWith;
    var cleaned := Strip(Replace(name, '\\', '/'));
    LeadingSlashes(cleaned);
    UsableAreDeep(Split(cleaned, '/'));
  }

  /** A file of a package lies exactly where its safe name says, inside the package and outside MANIFEST. */
  lemma SafeEntryStaysInside(name: string, env: MissionPackage.Env)
    requires MissionPackage.SafeEntry(name, env).Ok?
    ensures var safe := MissionPackage.SafeEntry(name, env).value;
            && Walk([], Split(safe, '/')) == Some(Split(safe, '/'))
            && !StartsWith(env.upper(safe), "MANIFEST/")
  {
    hide Split, Join, StripLeft, Strip, Walk, Deepens, StartsWith, MissionPackage.SafeEntry;
    SafeEntryMeans(name, env);
    var all := Split(Strip(Replace(name, '\\', '/')), '/');
    var parts := Sorting.Filter(all, Deepens);
    PartsLack(Strip(Replace(name, '\\', '/')), '/');
    forall i | 0 <= i < |parts| ensures '/' !in parts[i] && Deepens(parts[i]) {
      assert parts[i] in parts;
    }
    SplitJoin(parts, '/');
    DeepWalk([], parts);
    assert [] + parts == parts;
  }
}
