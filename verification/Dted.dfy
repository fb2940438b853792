/** Where every entry of a DTED terrain archive has to land, for ASCII names. */
module Dted {
  import opened Wrappers
  import opened Sorting
  import opened Texts

  datatype DtedError =
    | Duplicate(destination: string, first: string, second: string)
    | WouldEscape(name: string)
    | Empty
    | NoCells

  datatype Move = Move(source: string, destination: string)

  datatype Layout = Layout(
    cells: seq<string>,
    fileCount: nat,
    levels: set<nat>,
    moves: seq<Move>,
    wrappers: seq<string>,
    carried: nat)
  {
    /** `needs_repack` */
    predicate NeedsRepack() {
      exists i :: 0 <= i < |moves| && moves[i].source != moves[i].destination
    }
  }

  // ------------------------------------------------------------------ names

  function Slashes(name: string): string {
    Replace(name, '\\', '/')
  }

  predicate OccursAt(text: string, what: string, i: nat) {
    i + |what| <= |text| && text[i..i + |what|] == what
  }

  predicate Contains(text: string, what: string) {
    exists i :: 0 <= i <= |text| - |what| && OccursAt(text, what, i)
  }

  function Last(parts: seq<string>): string
    requires parts != []
  {
    parts[|parts| - 1]
  }

  /** `is_archiver_junk` */
  predicate IsJunk(name: string) {
    var normalised := Slashes(name);
    var leaf := Last(Split(normalised, '/'));
    || StartsWith(normalised, "__MACOSX/")
    || Contains(normalised, "/__MACOSX/")
    || leaf == ".DS_Store"
    || StartsWith(leaf, "._")
  }

  predicate IsDigit(c: char) {
    '0' <= c <= '9'
  }

  predicate AllDigits(s: string) {
    s != "" && forall i :: 0 <= i < |s| ==> IsDigit(s[i])
  }

  /** The text before a final line break, which `$` looks past. */
  function Core(s: string): string {
    if s != "" && s[|s| - 1] == '\n' then s[..|s| - 1] else s
  }

  /** A longitude cell: hemisphere letter and three degrees. */
  predicate IsCell(s: string) {
    var core := Core(s);
    |core| == 4 && Lower(core[0]) in "we" && AllDigits(core[1..])
  }

  /** What may stand between the degrees and the extension: nothing, or a copy's number. */
  predicate IsCopyMark(s: string) {
    s == "" || (|s| >= 3 && s[0] == '(' && s[|s| - 1] == ')' && AllDigits(s[1..|s| - 1]))
  }

  /** A latitude file: hemisphere letter, two degrees and a DTED extension. */
  predicate IsCellFile(s: string) {
    var core := Core(s);
    && |core| >= 7 && Lower(core[0]) in "ns" && AllDigits(core[1..3])
    && IsCopyMark(core[3..|core| - 4])
    && core[|core| - 4] == '.' && Lower(core[|core| - 3]) == 'd' && Lower(core[|core| - 2]) == 't'
    && '0' <= core[|core| - 1] <= '3'
  }

  function LevelOf(file: string): nat
    requires IsCellFile(file)
  {
    Core(file)[|Core(file)| - 1] as int - '0' as int
  }

  /** `_escapes` */
  predicate Escapes(path: string) {
    var normalised := Slashes(path);
    var parts := Split(normalised, '/');
    || StartsWith(normalised, "/")
    || (|normalised| > 1 && normalised[1] == ':')
    || (exists i :: 0 <= i < |parts| && parts[i] == "..")
  }

  /** What an entry is. */
  datatype Kind =
    | Skipped
    | Terrain(cell: string, file: string, wrapper: Option<string>)
    | Escaping
    | Other(path: string)

  function Classify(name: string): Kind {
    var normalised := Slashes(name);
    if EndsWith(normalised, "/") || IsJunk(normalised) then Skipped
    else
      var parts := Split(normalised, '/');
      var n := |parts|;
      if n >= 2 && IsCellFile(parts[n - 1]) && IsCell(parts[n - 2]) then
        Terrain(parts[n - 2], parts[n - 1], if n > 2 then Some(parts[0]) else None)
      else if Escapes(normalised) then Escaping
      else Other(normalised)
  }

  function Destination(cell: string, file: string): string {
    cell + "/" + file
  }

  // ------------------------------------------------------------------ planning

  /** The loop's variables; `cells` and `wrappers` hold each name once, in the order first met. */
  datatype Draft = Draft(
    moves: seq<Move>,
    cells: seq<string>,
    counts: map<string, nat>,
    levels: set<nat>,
    wrappers: seq<string>,
    claimed: map<string, string>,
    carried: seq<string>)

  const BLANK := Draft([], [], map[], {}, [], map[], [])

  function AddOnce(names: seq<string>, name: string): seq<string> {
    if name in names then names else names + [name]
  }

  function AddTerrain(d: Draft, name: string, kind: Kind): Result<Draft, DtedError>
    requires kind.Terrain? && IsCellFile(kind.file)
  {
    var destination, cell := Destination(kind.cell, kind.file), LowerAll(kind.cell);
    var key := LowerAll(destination);
    if key in d.claimed then Err(Duplicate(destination, d.claimed[key], Slashes(name)))
    else
      Ok(Draft(
        d.moves + [Move(name, destination)],
        AddOnce(d.cells, cell),
        d.counts[cell := (if cell in d.counts then d.counts[cell] else 0) + 1],
        d.levels + {LevelOf(kind.file)},
        if kind.wrapper.Some? then AddOnce(d.wrappers, kind.wrapper.value) else d.wrappers,
        d.claimed[key := Slashes(name)],
        d.carried))
  }

  function AddName(d: Draft, name: string): Result<Draft, DtedError> {
    var kind := Classify(name);
    match kind
    case Skipped => Ok(d)
    case Terrain(_, _, _) => AddTerrain(d, name, kind)
    case Escaping => Err(WouldEscape(name))
    case Other(path) => Ok(d.(moves := d.moves + [Move(name, path)], carried := d.carried + [path]))
  }

  function Drafted(names: seq<string>): Result<Draft, DtedError> {
    if names == [] then Ok(BLANK)
    else
      var d :- Drafted(names[..|names| - 1]);
      AddName(d, names[|names| - 1])
  }

  function Sum(keys: seq<string>, counts: map<string, nat>): nat {
    if keys == [] then 0 else (if keys[0] in counts then counts[keys[0]] else 0) + Sum(keys[1..], counts)
  }

  function ByCodePoints(): string -> Key {
    s => CodePoints(s)
  }

  function SortedNames(names: seq<string>): seq<string> {
    Sort(names, ByCodePoints())
  }

  function LayoutOf(d: Draft): Layout {
    Layout(SortedNames(d.cells), Sum(d.cells, d.counts), d.levels, d.moves, SortedNames(d.wrappers), |d.carried|)
  }

  /** What `plan_layout` decides. */
  function Planned(names: seq<string>): Result<Layout, DtedError> {
    var d :- Drafted(names);
    if d.moves == [] then Err(Empty) else if d.cells == [] then Err(NoCells) else Ok(LayoutOf(d))
  }

  lemma {:induction false} FailureStays(names: seq<string>, i: nat)
    requires i <= |names|
    ensures Drafted(names[..i]).Err? ==> Drafted(names) == Drafted(names[..i])
    decreases |names|
  {
    hide AddName;
    if i == |names| {
      assert names[..i] == names;
    } else {
      var shorter := names[..|names| - 1];
      assert shorter[..i] == names[..i];
      FailureStays(shorter, i);
    }
  }

  /** `plan_layout` */
  method PlanLayout(names: seq<string>) returns (r: Result<Layout, DtedError>)
    ensures r == Planned(names)
  {
    hide IsJunk, IsCell, IsCellFile, Escapes, Sum, SortedNames, LevelOf, Split, EndsWith, LowerAll, Destination,
         Slashes;
    var moves: seq<Move>, cells: seq<string>, counts: map<string, nat> := [], [], map[];
    var levels: set<nat>, wrappers: seq<string> := {}, [];
    var claimed: map<string, string>, carried: seq<string> := map[], [];
    for i := 0 to |names|
      invariant Drafted(names[..i]) == Ok(Draft(moves, cells, counts, levels, wrappers, claimed, carried))
    {
      assert names[..i + 1][..i] == names[..i];
      FailureStays(names, i + 1);
      var name := names[i];
      var normalised := Slashes(name);
      if EndsWith(normalised, "/") || IsJunk(normalised) {
        continue;
      }
      var parts := Split(normalised, '/');
      if |parts| >= 2 && IsCellFile(parts[|parts| - 1]) && IsCell(parts[|parts| - 2]) {
        var destination := Destination(parts[|parts| - 2], parts[|parts| - 1]);
        if LowerAll(destination) in claimed {
          return Err(Duplicate(destination, claimed[LowerAll(destination)], normalised));
        }
        claimed := claimed[LowerAll(destination) := normalised];
        if |parts| > 2 && parts[0] !in wrappers {
          wrappers := wrappers + [parts[0]];
        }
        var cell := LowerAll(parts[|parts| - 2]);
        counts := counts[cell := (if cell in counts then counts[cell] else 0) + 1];
        if cell !in cells {
          cells := cells + [cell];
        }
        levels := levels + {LevelOf(parts[|parts| - 1])};
        moves := moves + [Move(name, destination)];
        continue;
      }
      if Escapes(normalised) {
        return Err(WouldEscape(name));
      }
      carried := carried + [normalised];
      moves := moves + [Move(name, normalised)];
    }
    assert names[..|names|] == names;
    if moves == [] {
      return Err(Empty);
    }
    if cells == [] {
      return Err(NoCells);
    }
    return Ok(Layout(SortedNames(cells), Sum(cells, counts), levels, moves, SortedNames(wrappers), |carried|));
  }
}
