/** An accepted layout loses no terrain, lands inside its target, and is stable. */
module DtedTheorems {
  import opened Wrappers
  import opened Lists
  import opened Sorting
  import opened Texts
  import opened Dted

  // ------------------------------------------------------- one name

  predicate IsTerrain(name: string) {
    Classify(name).Terrain?
  }

  /** Where a kept entry lands. */
  function Landing(name: string): string {
    match Classify(name)
    case Terrain(cell, file, _) => Destination(cell, file)
    case _ => Slashes(name)
  }

  lemma CellCharacters(s: string)
    requires IsCell(s)
    ensures forall i :: 0 <= i < |s| ==> s[i] != '/' && s[i] != '\\' && s[i] != ':' && s[i] != '.' && s[i] != '_'
    ensures |s| >= 4
  {
    var core := Core(s);
    assert forall i :: 0 <= i < |core[1..]| ==> IsDigit(core[1..][i]);
    assert forall i :: 1 <= i < |core| ==> core[i] == core[1..][i - 1];
  }

  lemma CellFileCharacters(s: string)
    requires IsCellFile(s)
    ensures forall i :: 0 <= i < |s| ==> s[i] != '/' && s[i] != '\\'
    ensures |s| >= 7 && Lower(s[0]) in "ns"
  {
    var core := Core(s);
    var mark := core[3..|core| - 4];
    assert forall i :: 0 <= i < 2 ==> IsDigit(core[1..3][i]);
    assert core[1] == core[1..3][0] && core[2] == core[1..3][1];
    if mark != "" {
      var number := mark[1..|mark| - 1];
      assert forall i :: 0 <= i < |number| ==> IsDigit(number[i]);
      assert forall i :: 1 <= i < |mark| - 1 ==> mark[i] == number[i - 1];
    }
    assert forall i :: 3 <= i < |core| - 4 ==> core[i] == mark[i - 3];
  }

  /** A cell directly holding a file is read back as that. */
  lemma FlatParts(cell: string, file: string)
    requires IsCell(cell) && IsCellFile(file)
    ensures Slashes(Destination(cell, file)) == Destination(cell, file)
    ensures Split(Destination(cell, file), '/') == [cell, file]
  {
    CellCharacters(cell);
    CellFileCharacters(file);
    hide IsCell, IsCellFile, Split;
    SplitFirst(cell, file, '/');
    SplitWhole(file, '/');
    var d := Destination(cell, file);
    assert d == cell + ['/'] + file;
    forall i | 0 <= i < |d| ensures d[i] != '\\' {
    }
  }

  lemma OneSlash(cell: string, file: string)
    requires IsCell(cell) && IsCellFile(file)
    ensures !Contains(Destination(cell, file), "/__MACOSX/") && !StartsWith(Destination(cell, file), "__MACOSX/")
    ensures !EndsWith(Destination(cell, file), "/")
  {
    CellCharacters(cell);
    CellFileCharacters(file);
    hide IsCell, IsCellFile;
    var d := Destination(cell, file);
    assert forall i :: 0 <= i < |d| && i != |cell| ==> d[i] != '/';
    forall i | 0 <= i <= |d| - |"/__MACOSX/"| ensures !OccursAt(d, "/__MACOSX/", i) {
      assert d[i] == d[i..i + 10][0] && d[i + 9] == d[i..i + 10][9];
    }
    assert d[0] == cell[0];
    assert |d| >= 9 ==> d[..9][0] == d[0];
    assert d[|d| - 1..][0] == d[|d| - 1];
  }

  lemma LeafIsTerrain(file: string)
    requires IsCellFile(file)
    ensures file != ".DS_Store" && !StartsWith(file, "._") && file != ".."
  {
    CellFileCharacters(file);
    assert |file| >= 2 ==> file[..2][0] == file[0];
  }

  /** A terrain destination is terrain again, in place and with nothing around it. */
  lemma TerrainStays(cell: string, file: string)
    requires IsCell(cell) && IsCellFile(file)
    ensures Classify(Destination(cell, file)) == Terrain(cell, file, None) && !Escapes(Destination(cell, file))
  {
    FlatParts(cell, file);
    OneSlash(cell, file);
    LeafIsTerrain(file);
    CellCharacters(cell);
    hide IsCell, IsCellFile, Split, Contains, StartsWith, EndsWith, Slashes;
    var d := Destination(cell, file);
    assert d[0] == cell[0] && d[1] == cell[1];
    NotAbsolute(d);
  }

  lemma NotAbsolute(d: string)
    requires |d| > 0 && d[0] != '/'
    ensures !StartsWith(d, "/")
  {
    assert d[..1][0] == d[0];
  }

  lemma SlashesTwice(name: string)
    ensures Slashes(Slashes(name)) == Slashes(name)
  {
  }

  /** Where an entry lands, it is classified as what it was, and lands again. */
  lemma LandingStays(name: string)
    requires IsTerrain(name) || Classify(name).Other?
    ensures !Escapes(Landing(name))
    ensures IsTerrain(name) ==> Classify(Landing(name)) == Classify(name).(wrapper := None)
    ensures Classify(name).Other? ==> Classify(Landing(name)) == Classify(name)
    ensures Landing(Landing(name)) == Landing(name)
  {
    hide IsCell, IsCellFile, Split, IsJunk, Escapes;
    SlashesTwice(name);
    match Classify(name)
    case Terrain(cell, file, _) => TerrainStays(cell, file);
    case Other(path) =>
      EscapesTwice(name);
  }

  lemma EscapesTwice(name: string)
    ensures Escapes(Slashes(name)) == Escapes(name)
  {
    SlashesTwice(name);
  }

  // ------------------------------------------------------- ignoring case

  lemma LowerCell(a: string, b: string)
    requires IsCell(a) && LowerAll(a) == LowerAll(b)
    ensures IsCell(b)
  {
    assert |a| == |b|;
    forall i | 0 <= i < |a| ensures Lower(a[i]) == Lower(b[i]) {
      assert LowerAll(a)[i] == LowerAll(b)[i];
    }
    var ca, cb := Core(a), Core(b);
    assert |ca| == |cb|;
    forall i | 0 <= i < |cb[1..]| ensures IsDigit(cb[1..][i]) {
      assert IsDigit(ca[1..][i]) && ca[1..][i] == a[i + 1] && cb[1..][i] == b[i + 1];
    }
  }

  lemma LowerDigits(a: string, b: string)
    requires AllDigits(a) && |a| == |b| && forall i :: 0 <= i < |a| ==> Lower(a[i]) == Lower(b[i])
    ensures AllDigits(b) && a == b
  {
    forall i | 0 <= i < |b| ensures IsDigit(b[i]) && a[i] == b[i] {
      assert IsDigit(a[i]);
    }
  }

  lemma LowerCellFile(a: string, b: string)
    requires IsCellFile(a) && LowerAll(a) == LowerAll(b)
    ensures IsCellFile(b)
  {
    assert |a| == |b|;
    forall i | 0 <= i < |a| ensures Lower(a[i]) == Lower(b[i]) {
      assert LowerAll(a)[i] == LowerAll(b)[i];
    }
    var ca, cb := Core(a), Core(b);
    assert |ca| == |cb| && forall i :: 0 <= i < |ca| ==> Lower(ca[i]) == Lower(cb[i]);
    LowerDigits(ca[1..3], cb[1..3]);
    var ma, mb := ca[3..|ca| - 4], cb[3..|cb| - 4];
    if ma != "" {
      var na, nb := ma[1..|ma| - 1], mb[1..|mb| - 1];
      assert forall i :: 0 <= i < |na| ==> na[i] == ca[i + 4] && nb[i] == cb[i + 4];
      LowerDigits(na, nb);
    }
  }

  /** Whatever spells a terrain destination in another case is one itself. */
  lemma LowerDestination(cell: string, file: string, path: string) returns (a: string, b: string)
    requires IsCell(cell) && IsCellFile(file) && LowerAll(Destination(cell, file)) == LowerAll(path)
    ensures IsCell(a) && IsCellFile(b) && path == Destination(a, b)
  {
    hide IsCell, IsCellFile;
    var d, n := Destination(cell, file), |cell|;
    assert |d| == |path|;
    forall i | 0 <= i < |d| ensures Lower(d[i]) == Lower(path[i]) {
      assert LowerAll(d)[i] == LowerAll(path)[i];
    }
    a, b := path[..n], path[n + 1..];
    assert forall i :: 0 <= i < n ==> d[i] == cell[i];
    assert forall i :: 0 <= i < |file| ==> d[n + 1 + i] == file[i];
    assert LowerAll(a) == LowerAll(cell) && LowerAll(b) == LowerAll(file);
    assert d[n] == '/' && path[n] == '/';
    LowerCell(cell, a);
    LowerCellFile(file, b);
  }

  /** An entry that is not terrain never lands on terrain, whatever the case. */
  lemma OthersKeepOffTerrain(terrain: string, other: string)
    requires IsTerrain(terrain) && Classify(other).Other?
    ensures LowerAll(Landing(terrain)) != LowerAll(Landing(other))
  {
    hide IsJunk, Split, IsCell, IsCellFile, LowerAll, Escapes, EndsWith, Destination;
    var cell, file, path := Classify(terrain).cell, Classify(terrain).file, Slashes(other);
    if LowerAll(Destination(cell, file)) == LowerAll(path) {
      var a, b := LowerDestination(cell, file, path);
      FlatParts(a, b);
    }
  }

  // ------------------------------------------------------- all names

  /** The entries that are neither directories nor archiver junk. */
  function Kept(names: seq<string>): seq<string> {
    if names == [] then []
    else
      var before, last := names[..|names| - 1], names[|names| - 1];
      Kept(before) + if Classify(last).Skipped? then [] else [last]
  }

  function MovesOf(kept: seq<string>): (r: seq<Move>)
    ensures |r| == |kept|
  {
    seq(|kept|, i requires 0 <= i < |kept| => Move(kept[i], Landing(kept[i])))
  }

  function CountTerrain(kept: seq<string>): nat {
    if kept == [] then 0 else CountTerrain(kept[..|kept| - 1]) + if IsTerrain(kept[|kept| - 1]) then 1 else 0
  }

  ghost predicate Claims(claimed: map<string, string>, kept: seq<string>) {
    forall k :: k in claimed <==> exists i :: 0 <= i < |kept| && IsTerrain(kept[i]) && LowerAll(Landing(kept[i])) == k
  }

  /** No two terrain files land on one place, ignoring case. */
  ghost predicate TerrainApart(kept: seq<string>) {
    forall i, j :: 0 <= i < j < |kept| && IsTerrain(kept[i]) && IsTerrain(kept[j]) ==>
             LowerAll(Landing(kept[i])) != LowerAll(Landing(kept[j]))
  }

  ghost predicate NoneEscape(names: seq<string>) {
    forall i :: 0 <= i < |names| ==> !Classify(names[i]).Escaping?
  }

  lemma KeptSnoc(kept: seq<string>, name: string)
    ensures MovesOf(kept + [name]) == MovesOf(kept) + [Move(name, Landing(name))]
    ensures CountTerrain(kept + [name]) == CountTerrain(kept) + if IsTerrain(name) then 1 else 0
  {
    hide Classify, Landing, IsTerrain;
    assert (kept + [name])[..|kept|] == kept;
  }

  lemma ClaimsSnoc(claimed: map<string, string>, kept: seq<string>, name: string, value: string)
    requires Claims(claimed, kept)
    ensures IsTerrain(name) ==> Claims(claimed[LowerAll(Landing(name)) := value], kept + [name])
    ensures !IsTerrain(name) ==> Claims(claimed, kept + [name])
    ensures TerrainApart(kept + [name]) <==>
              TerrainApart(kept) && (IsTerrain(name) ==> LowerAll(Landing(name)) !in claimed)
  {
    hide IsTerrain, Landing, LowerAll;
    var more := kept + [name];
    assert more[|kept|] == name && forall i :: 0 <= i < |kept| ==> more[i] == kept[i];
    if TerrainApart(more) {
      assert TerrainApart(kept);
    }
  }

  /** The plan's accumulators, after any names. */
  ghost predicate Describes(d: Draft, names: seq<string>) {
    var kept := Kept(names);
    && d.moves == MovesOf(kept)
    && Claims(d.claimed, kept)
    && |d.carried| + CountTerrain(kept) == |kept|
    && Sum(d.cells, d.counts) == CountTerrain(kept)
    && (forall c :: c in d.counts <==> c in d.cells)
    && (forall i, j :: 0 <= i < j < |d.cells| ==> d.cells[i] != d.cells[j])
    && (d.cells == [] <==> CountTerrain(kept) == 0)
  }

  lemma {:induction false} SumUnchanged(keys: seq<string>, counts: map<string, nat>, key: string, n: nat)
    requires key !in keys
    ensures Sum(keys, counts[key := n]) == Sum(keys, counts)
    decreases |keys|
  {
    if keys != [] {
      SumUnchanged(keys[1..], counts, key, n);
    }
  }

  lemma {:induction false} SumGrows(keys: seq<string>, counts: map<string, nat>, key: string)
    requires key in keys && key in counts && forall i, j :: 0 <= i < j < |keys| ==> keys[i] != keys[j]
    ensures Sum(keys, counts[key := counts[key] + 1]) == Sum(keys, counts) + 1
    decreases |keys|
  {
    if keys[0] == key {
      SumUnchanged(keys[1..], counts, key, counts[key] + 1);
    } else {
      SumGrows(keys[1..], counts, key);
    }
  }

  lemma {:induction false} SumSnoc(keys: seq<string>, counts: map<string, nat>, key: string)
    requires key !in keys
    ensures Sum(keys + [key], counts[key := 1]) == Sum(keys, counts) + 1
    decreases |keys|
  {
    if keys == [] {
      assert ([] + [key])[1..] == [];
    } else {
      assert (keys + [key])[0] == keys[0] && (keys + [key])[1..] == keys[1..] + [key];
      SumSnoc(keys[1..], counts, key);
    }
  }

  lemma CountOne(d: Draft, cell: string)
    requires (forall c :: c in d.counts <==> c in d.cells) && forall i, j :: 0 <= i < j < |d.cells| ==>
               d.cells[i] != d.cells[j]
    ensures var cells := AddOnce(d.cells, cell);
            var counts := d.counts[cell := (if cell in d.counts then d.counts[cell] else 0) + 1];
            && Sum(cells, counts) == Sum(d.cells, d.counts) + 1 && cells != []
            && (forall c :: c in counts <==> c in cells)
            && (forall i, j :: 0 <= i < j < |cells| ==> cells[i] != cells[j])
  {
    if cell in d.cells {
      SumGrows(d.cells, d.counts, cell);
    } else {
      SumSnoc(d.cells, d.counts, cell);
    }
  }

  lemma AddNameDescribes(d: Draft, names: seq<string>, name: string)
    requires Describes(d, names)
    ensures AddName(d, name).Ok? <==>
              !Classify(name).Escaping? && (IsTerrain(name) ==> LowerAll(Landing(name)) !in d.claimed)
    ensures AddName(d, name).Ok? ==> Describes(AddName(d, name).value, names + [name])
    ensures TerrainApart(Kept(names + [name])) <==>
              TerrainApart(Kept(names)) && (IsTerrain(name) ==> LowerAll(Landing(name)) !in d.claimed)
  {
    hide IsJunk, IsCell, IsCellFile, Escapes, LevelOf, Split, LowerAll, Describes, AddTerrain, TerrainApart, Slashes;
    var kept := Kept(names);
    assert (names + [name])[..|names|] == names;
    assert Claims(d.claimed, kept) by { DescribesClaims(d, names); }
    ClaimsSnoc(d.claimed, kept, name, Slashes(name));
    if Classify(name).Skipped? {
      assert Kept(names + [name]) == kept;
      SameKept(d, names, names + [name]);
    } else {
      assert Kept(names + [name]) == kept + [name];
      if Classify(name).Terrain? {
        TerrainDescribes(d, names, name);
      } else if !Classify(name).Escaping? {
        OtherDescribes(d, names, name);
      }
    }
  }

  lemma DescribesClaims(d: Draft, names: seq<string>)
    requires Describes(d, names)
    ensures Claims(d.claimed, Kept(names))
  {
    hide Kept, Claims, MovesOf, CountTerrain, Sum;
  }

  lemma SameKept(d: Draft, names: seq<string>, more: seq<string>)
    requires Describes(d, names) && Kept(names) == Kept(more)
    ensures Describes(d, more)
  {
    hide Kept, Claims, MovesOf, CountTerrain, Sum;
  }

  lemma TerrainDescribes(d: Draft, names: seq<string>, name: string)
    requires Describes(d, names) && Classify(name).Terrain? && Kept(names + [name]) == Kept(names) + [name]
    ensures AddName(d, name).Ok? <==> LowerAll(Landing(name)) !in d.claimed
    ensures AddName(d, name).Ok? ==> Describes(AddName(d, name).value, names + [name])
  {
    hide IsJunk, IsCell, IsCellFile, Escapes, Sum, LevelOf, Split, CountTerrain, Claims, Kept, MovesOf, LowerAll,
         Classify, Slashes, Destination;
    var kept := Kept(names);
    KeptSnoc(kept, name);
    ClaimsSnoc(d.claimed, kept, name, Slashes(name));
    CountOne(d, LowerAll(Classify(name).cell));
  }

  lemma OtherDescribes(d: Draft, names: seq<string>, name: string)
    requires Describes(d, names) && Classify(name).Other? && Kept(names + [name]) == Kept(names) + [name]
    ensures AddName(d, name).Ok? && Describes(AddName(d, name).value, names + [name])
  {
    hide IsJunk, IsCell, IsCellFile, Escapes, Sum, LevelOf, Split, CountTerrain, Claims, Kept, MovesOf, LowerAll;
    var kept := Kept(names);
    KeptSnoc(kept, name);
    ClaimsSnoc(d.claimed, kept, name, Slashes(name));
    hide Classify;
  }

  lemma {:induction false} DraftedDescribes(names: seq<string>)
    ensures Drafted(names).Ok? <==> NoneEscape(names) && TerrainApart(Kept(names))
    ensures Drafted(names).Ok? ==> Describes(Drafted(names).value, names)
    decreases |names|
  {
    hide AddName, Classify, Landing, IsTerrain, TerrainApart, Describes;
    if names == [] {
      BlankDescribes();
    } else {
      var before, last := names[..|names| - 1], names[|names| - 1];
      assert names == before + [last];
      DraftedDescribes(before);
      ApartShorter(before, last);
      assert NoneEscape(names) <==> NoneEscape(before) && !Classify(last).Escaping?;
      if Drafted(before).Ok? {
        AddNameDescribes(Drafted(before).value, before, last);
      }
    }
  }

  lemma BlankDescribes()
    ensures Describes(BLANK, []) && TerrainApart(Kept([]))
  {
    assert MovesOf([]) == [];
  }

  lemma ApartShorter(before: seq<string>, last: string)
    ensures TerrainApart(Kept(before + [last])) ==> TerrainApart(Kept(before))
  {
    hide IsTerrain, Landing, LowerAll, Classify;
    assert (before + [last])[..|before|] == before;
    var kept, more := Kept(before), Kept(before + [last]);
    assert forall i :: 0 <= i < |kept| ==> more[i] == kept[i];
  }

  lemma {:induction false} CountMeansSome(kept: seq<string>)
    ensures CountTerrain(kept) > 0 <==> exists i :: 0 <= i < |kept| && IsTerrain(kept[i])
    decreases |kept|
  {
    hide IsTerrain;
    if kept != [] {
      CountMeansSome(kept[..|kept| - 1]);
    }
  }

  /** A layout is accepted exactly when nothing would escape, no terrain would be lost, and there is terrain. */
  lemma AcceptedExactlyWhen(names: seq<string>)
    ensures Planned(names).Ok? <==>
              && NoneEscape(names) && TerrainApart(Kept(names))
              && exists i :: 0 <= i < |Kept(names)| && IsTerrain(Kept(names)[i])
  {
    hide IsTerrain, Classify, Landing, TerrainApart, CountTerrain, Drafted, SortedNames, Sum, NoneEscape;
    DraftedDescribes(names);
    CountMeansSome(Kept(names));
    if Drafted(names).Ok? {
      DescribedMoves(Drafted(names).value, names);
    }
  }

  lemma DescribedMoves(d: Draft, names: seq<string>)
    requires Describes(d, names)
    ensures d.moves == MovesOf(Kept(names)) && (d.cells == [] <==> CountTerrain(Kept(names)) == 0)
    ensures d.moves == [] ==> CountTerrain(Kept(names)) == 0
  {
  }

  lemma {:induction false} KeptAreNames(names: seq<string>)
    ensures forall i :: 0 <= i < |Kept(names)| ==> Kept(names)[i] in names && !Classify(Kept(names)[i]).Skipped?
    decreases |names|
  {
    hide Classify;
    if names != [] {
      KeptAreNames(names[..|names| - 1]);
      assert names == names[..|names| - 1] + [names[|names| - 1]];
    }
  }

  /**
   An accepted layout keeps every entry but junk, in order; no two terrain files share a
   destination and nothing else lands on one, whatever the case; nothing leaves the target.
   */
  lemma AcceptedLayoutIsSafe(names: seq<string>)
    requires Planned(names).Ok?
    ensures var kept, l := Kept(names), Planned(names).value;
            && l.moves == MovesOf(kept)
            && (forall i, j :: 0 <= i < |kept| && 0 <= j < |kept| && i != j && IsTerrain(kept[i]) ==>
                  LowerAll(l.moves[i].destination) != LowerAll(l.moves[j].destination))
            && (forall i :: 0 <= i < |kept| ==> !Escapes(l.moves[i].destination))
            && l.fileCount == CountTerrain(kept) && l.carried == |kept| - CountTerrain(kept)
  {
    hide IsTerrain, Classify, Landing, CountTerrain, Drafted, SortedNames, Sum, Claims, LowerAll, Escapes, Kept;
    DraftedDescribes(names);
    KeptAreNames(names);
    var kept, l := Kept(names), Planned(names).value;
    forall i | 0 <= i < |kept| ensures (IsTerrain(kept[i]) || Classify(kept[i]).Other?) && !Escapes(Landing(kept[i])) {
      KindsAre(names, kept[i]);
      LandingStays(kept[i]);
    }
    forall i, j | 0 <= i < |kept| && 0 <= j < |kept| && i != j && IsTerrain(kept[i])
      ensures LowerAll(l.moves[i].destination) != LowerAll(l.moves[j].destination)
    {
      if !IsTerrain(kept[j]) {
        OthersKeepOffTerrain(kept[i], kept[j]);
      }
    }
  }

  lemma KindsAre(names: seq<string>, name: string)
    requires NoneEscape(names) && name in names && !Classify(name).Skipped?
    ensures IsTerrain(name) || Classify(name).Other?
  {
    hide Classify;
    var i :| 0 <= i < |names| && names[i] == name;
    assert !Classify(names[i]).Escaping?;
    NothingElse(Classify(name));
  }

  lemma NothingElse(kind: Kind)
    ensures kind.Skipped? || kind.Terrain? || kind.Escaping? || kind.Other?
  {
  }

  // ------------------------------------------------------- what is reported

  function CellIn(name: string): Option<string> {
    if IsTerrain(name) then Some(LowerAll(Classify(name).cell)) else None
  }

  function LevelIn(name: string): Option<nat> {
    if IsTerrain(name) then
      TerrainHasFile(name);
      Some(LevelOf(Classify(name).file))
    else None
  }

  function WrapperIn(name: string): Option<string> {
    if IsTerrain(name) then Classify(name).wrapper else None
  }

  /** The cells, levels and wrapping folders are those of the terrain kept. */
  ghost predicate Collects(d: Draft, kept: seq<string>) {
    && (forall c :: c in d.cells <==> SeenBy(kept, CellIn, Some(c)))
    && (forall l :: l in d.levels <==> SeenBy(kept, LevelIn, Some(l)))
    && (forall w :: w in d.wrappers <==> SeenBy(kept, WrapperIn, Some(w)))
  }

  lemma AddNameCollects(d: Draft, kept: seq<string>, name: string)
    requires Collects(d, kept) && AddName(d, name).Ok? && !Classify(name).Skipped?
    ensures Collects(AddName(d, name).value, kept + [name])
  {
    TerrainHasFile(name);
    hide SeenBy, Classify, IsCellFile, LevelOf, LowerAll, Destination, IsCell, Slashes;
    var next := AddName(d, name).value;
    forall c ensures c in next.cells <==> SeenBy(kept + [name], CellIn, Some(c)) {
      SeenSnoc(kept, name, CellIn, Some(c));
    }
    forall l ensures l in next.levels <==> SeenBy(kept + [name], LevelIn, Some(l)) {
      SeenSnoc(kept, name, LevelIn, Some(l));
    }
    forall w ensures w in next.wrappers <==> SeenBy(kept + [name], WrapperIn, Some(w)) {
      SeenSnoc(kept, name, WrapperIn, Some(w));
    }
  }

  lemma {:induction false} DraftedCollects(names: seq<string>)
    requires Drafted(names).Ok?
    ensures Collects(Drafted(names).value, Kept(names))
    decreases |names|
  {
    hide AddName, Classify, Collects;
    if names == [] {
      assert Collects(BLANK, []) by { BlankCollects(); }
    } else {
      var before, last := names[..|names| - 1], names[|names| - 1];
      DraftedCollects(before);
      if Classify(last).Skipped? {
        SkippedStays(Drafted(before).value, last);
        assert Kept(names) == Kept(before);
      } else {
        AddNameCollects(Drafted(before).value, Kept(before), last);
      }
    }
  }

  lemma BlankCollects()
    ensures Collects(BLANK, [])
  {
  }

  lemma SortKeepsNames(names: seq<string>)
    ensures forall n :: n in SortedNames(names) <==> n in names
    ensures Ordered(SortedNames(names), ByCodePoints()) && |SortedNames(names)| == |names|
  {
    hide Sort, CodePoints;
    SortOrders(names, ByCodePoints());
    assert |multiset(SortedNames(names))| == |multiset(names)|;
    forall n ensures n in SortedNames(names) <==> n in names {
      assert n in multiset(names) <==> n in names;
      assert n in multiset(SortedNames(names)) <==> n in SortedNames(names);
    }
  }

  /**
   An accepted layout reports exactly the cells, levels and wrapping folders of the terrain it keeps,
   names in order.
   */
  lemma LayoutReportsItsTerrain(names: seq<string>)
    requires Planned(names).Ok?
    ensures var kept, l := Kept(names), Planned(names).value;
            && (forall c :: c in l.cells <==> SeenBy(kept, CellIn, Some(c)))
            && (forall v :: v in l.levels <==> SeenBy(kept, LevelIn, Some(v)))
            && (forall w :: w in l.wrappers <==> SeenBy(kept, WrapperIn, Some(w)))
            && Ordered(l.cells, ByCodePoints()) && Ordered(l.wrappers, ByCodePoints())
  {
    DraftedCollects(names);
    hide Drafted, SeenBy, SortedNames, Sum;
    var d := Drafted(names).value;
    SortKeepsNames(d.cells);
    SortKeepsNames(d.wrappers);
  }

  // ------------------------------------------------------- planning again

  function Destinations(moves: seq<Move>): (r: seq<string>)
    ensures |r| == |moves|
  {
    seq(|moves|, i requires 0 <= i < |moves| => moves[i].destination)
  }

  function InPlace(moves: seq<Move>): (r: seq<Move>)
    ensures |r| == |moves|
  {
    seq(|moves|, i requires 0 <= i < |moves| => Move(moves[i].destination, moves[i].destination))
  }

  /** The same terrain, already in place. */
  ghost predicate SameTerrain(d: Draft, again: Draft) {
    && again.cells == d.cells && again.counts == d.counts && again.levels == d.levels && again.carried == d.carried
    && again.moves == InPlace(d.moves) && again.wrappers == []
    && forall k :: k in again.claimed <==> k in d.claimed
  }

  lemma AddTerrainAgain(d: Draft, again: Draft, name: string, landing: string, kind: Kind)
    requires SameTerrain(d, again) && kind.Terrain? && IsCellFile(kind.file) && AddTerrain(d, name, kind).Ok?
    requires landing == Destination(kind.cell, kind.file)
    ensures AddTerrain(again, landing, kind.(wrapper := None)).Ok?
    ensures SameTerrain(AddTerrain(d, name, kind).value, AddTerrain(again, landing, kind.(wrapper := None)).value)
  {
    hide IsCellFile, LevelOf, LowerAll, Slashes, Destination;
    assert InPlace(d.moves + [Move(name, landing)]) == InPlace(d.moves) + [Move(landing, landing)];
  }

  lemma AddAgain(d: Draft, again: Draft, name: string)
    requires SameTerrain(d, again) && AddName(d, name).Ok? && !Classify(name).Skipped?
    ensures AddName(again, Landing(name)).Ok? &&
            SameTerrain(AddName(d, name).value, AddName(again, Landing(name)).value)
  {
    TerrainHasFile(name);
    hide Classify, AddTerrain, IsCellFile, Escapes;
    LandingStays(name);
    match Classify(name)
    case Terrain(cell, file, _) =>
      AddTerrainAgain(d, again, name, Landing(name), Classify(name));
    case Other(path) =>
      OtherLands(name);
      assert InPlace(d.moves + [Move(name, path)]) == InPlace(d.moves) + [Move(path, path)];
  }

  lemma TerrainHasFile(name: string)
    ensures IsTerrain(name) ==> IsCellFile(Classify(name).file) && IsCell(Classify(name).cell)
  {
    hide IsJunk, IsCell, IsCellFile, Escapes, Split;
  }

  lemma OtherLands(name: string)
    requires Classify(name).Other?
    ensures Landing(name) == Classify(name).path
  {
    hide IsJunk, IsCell, IsCellFile, Escapes, Split;
  }

  lemma {:induction false} DraftedAgain(names: seq<string>)
    requires Drafted(names).Ok?
    ensures Drafted(Destinations(Drafted(names).value.moves)).Ok?
    ensures SameTerrain(Drafted(names).value, Drafted(Destinations(Drafted(names).value.moves)).value)
    decreases |names|
  {
    hide AddName, Classify, Landing;
    if names == [] {
      assert Destinations(BLANK.moves) == [] && InPlace(BLANK.moves) == [];
    } else {
      var before, last := names[..|names| - 1], names[|names| - 1];
      DraftedAgain(before);
      var d, next := Drafted(before).value, Drafted(names).value;
      if Classify(last).Skipped? {
        SkippedStays(d, last);
      } else {
        AddAgain(d, Drafted(Destinations(d.moves)).value, last);
        OneMove(d, last);
        assert Destinations(next.moves) == Destinations(d.moves) + [Landing(last)];
        assert Destinations(next.moves)[..|Destinations(next.moves)| - 1] == Destinations(d.moves);
      }
    }
  }

  lemma SkippedStays(d: Draft, name: string)
    requires Classify(name).Skipped?
    ensures AddName(d, name) == Ok(d)
  {
    hide Classify;
  }

  lemma OneMove(d: Draft, name: string)
    requires AddName(d, name).Ok? && !Classify(name).Skipped?
    ensures AddName(d, name).value.moves == d.moves + [Move(name, Landing(name))]
  {
    hide IsJunk, IsCell, IsCellFile, Escapes, LevelOf, Split;
  }

  /** Planning a layout's own destinations finds the same terrain, and nothing to move. */
  lemma ReplanningChangesNothing(names: seq<string>)
    requires Planned(names).Ok?
    ensures var l := Planned(names).value;
            var again := Planned(Destinations(l.moves));
            && again.Ok?
            && again.value == l.(moves := InPlace(l.moves), wrappers := [])
            && !again.value.NeedsRepack()
  {
    hide Sum;
    DraftedAgain(names);
    hide Drafted;
    assert SortedNames([]) == [];
  }

  /** A layout needs no repacking exactly when every kept entry already lies where it lands. */
  lemma RepackExactlyWhen(names: seq<string>)
    requires Planned(names).Ok?
    ensures Planned(names).value.NeedsRepack() <==>
              exists i :: 0 <= i < |Kept(names)| && Landing(Kept(names)[i]) != Kept(names)[i]
  {
    hide Landing, Escapes, IsTerrain, LowerAll, CountTerrain, Kept;
    AcceptedLayoutIsSafe(names);
    hide Planned;
    var kept, moves := Kept(names), Planned(names).value.moves;
    assert forall i :: 0 <= i < |kept| ==> moves[i] == Move(kept[i], Landing(kept[i]));
  }
}
