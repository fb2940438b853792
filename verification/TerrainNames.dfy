/** The names of terrain: every cell and every file of every level, and nothing else. */
module TerrainNames {
  import opened Wrappers
  import opened Texts
  import opened Dted

  // ------------------------------------------------------- cells

  function DigitChar(d: nat): char
    requires d < 10
  {
    "0123456789"[d]
  }

  function DigitOf(c: char): (d: nat)
    requires IsDigit(c)
    ensures d < 10 && DigitChar(d) == c
  {
    c as int - '0' as int
  }

  lemma DigitCharIs(c: char)
    ensures IsDigit(c) <==> exists d :: 0 <= d < 10 && DigitChar(d) == c
  {
    if IsDigit(c) {
      var d := c as int - '0' as int;
      assert DigitChar(d) == c;
    }
  }

  /** A column of cells: a hemisphere, in either case of its letter, and whole degrees. */
  datatype Column = Column(west: bool, upper: bool, degrees: nat)

  function ColumnName(c: Column): (s: string)
    requires c.degrees < 1000
    ensures |s| == 4
  {
    [if c.west then (if c.upper then 'W' else 'w') else if c.upper then 'E' else 'e',
     DigitChar(c.degrees / 100), DigitChar(c.degrees / 10 % 10), DigitChar(c.degrees % 10)]
  }

  /** The text, or the text and a line break, which Python's `$` also matches before. */
  predicate IsLine(s: string, text: string) {
    s == text || s == text + "\n"
  }

  /** A folder is a cell exactly when it is named after a column. */
  lemma CellsAreColumns(s: string)
    ensures IsCell(s) <==> exists c: Column :: c.degrees < 1000 && IsLine(s, ColumnName(c))
  {
    hide ColumnName;
    var core := Core(s);
    CoreIsLine(s, core);
    if IsCell(s) {
      var c := ColumnNamed(core);
    }
    forall c: Column | c.degrees < 1000 && IsLine(s, ColumnName(c)) ensures IsCell(s) {
      ColumnIsCell(c, s);
    }
  }

  lemma WestOrEast(c: char) returns (west: bool, upper: bool)
    requires Lower(c) in "we"
    ensures c == if west then (if upper then 'W' else 'w') else if upper then 'E' else 'e'
  {
    assert "we" == ['w', 'e'];
    LetterIs(c, 'w', 'e');
    west, upper := c == 'w' || c == 'W', c == 'W' || c == 'E';
  }

  lemma SouthOrNorth(c: char) returns (south: bool, upper: bool)
    requires Lower(c) in "ns"
    ensures c == if south then (if upper then 'S' else 's') else if upper then 'N' else 'n'
  {
    assert "ns" == ['n', 's'];
    LetterIs(c, 'n', 's');
    south, upper := c == 's' || c == 'S', c == 'S' || c == 'N';
  }

  lemma ColumnNamed(core: string) returns (c: Column)
    requires |core| == 4 && Lower(core[0]) in "we" && AllDigits(core[1..])
    ensures c.degrees < 1000 && ColumnName(c) == core
  {
    assert core[1..][0] == core[1] && core[1..][1] == core[2] && core[1..][2] == core[3];
    var a, b, d := DigitOf(core[1]), DigitOf(core[2]), DigitOf(core[3]);
    var west, upper := WestOrEast(core[0]);
    hide Lower, AllDigits, DigitChar, DigitOf;
    c := Column(west, upper, 100 * a + 10 * b + d);
    ThreeDigits(a, b, d);
    assert core == [core[0], core[1], core[2], core[3]];
  }

  lemma ThreeDigits(a: nat, b: nat, d: nat)
    requires a < 10 && b < 10 && d < 10
    ensures var n := 100 * a + 10 * b + d; n / 100 == a && n / 10 % 10 == b && n % 10 == d
  {
    assert (100 * a + 10 * b + d) / 10 == 10 * a + b;
  }

  lemma LetterIs(c: char, a: char, b: char)
    requires 'a' <= a <= 'z' && 'a' <= b <= 'z'
    ensures Lower(c) in [a, b] <==> c in [a, b, (a as int - 32) as char, (b as int - 32) as char]
  {
  }

  lemma CoreIsLine(s: string, core: string)
    requires core == Core(s)
    ensures IsLine(s, core)
  {
    if s != "" && s[|s| - 1] == '\n' {
      assert s == s[..|s| - 1] + "\n";
    }
  }

  lemma CoreOfLine(s: string, text: string)
    requires IsLine(s, text) && text != "" && text[|text| - 1] != '\n'
    ensures Core(s) == text
  {
  }

  lemma ColumnIsCell(c: Column, s: string)
    requires c.degrees < 1000 && IsLine(s, ColumnName(c))
    ensures IsCell(s)
  {
    var name := ColumnName(c);
    DigitCharIs(name[1]);
    DigitCharIs(name[2]);
    DigitCharIs(name[3]);
    LetterIs(name[0], 'w', 'e');
    CoreOfLine(s, name);
    assert name[1..] == [name[1], name[2], name[3]];
    assert "we" == ['w', 'e'];
  }

  // ------------------------------------------------------- files

  /** A file of a column: hemisphere, whole degrees, the number of a copy, letter cases, and the DTED level. */
  datatype TerrainFile = TerrainFile(south: bool, upper: bool, degrees: nat, copy: Option<string>, upperD: bool,
                                     upperT: bool, level: nat)

  predicate IsFile(f: TerrainFile) {
    f.degrees < 100 && f.level < 4 && (f.copy.Some? ==> AllDigits(f.copy.value))
  }

  function CopyMark(copy: Option<string>): string {
    if copy.Some? then "(" + copy.value + ")" else ""
  }

  function FileName(f: TerrainFile): (s: string)
    requires IsFile(f)
    ensures |s| == 7 + |CopyMark(f.copy)|
  {
    [if f.south then (if f.upper then 'S' else 's') else if f.upper then 'N' else 'n',
     DigitChar(f.degrees / 10), DigitChar(f.degrees % 10)]
    + CopyMark(f.copy)
    + ['.', if f.upperD then 'D' else 'd', if f.upperT then 'T' else 't', DigitChar(f.level)]
  }

  lemma MarkMeans(s: string)
    ensures IsCopyMark(s) <==> s == "" || exists digits :: AllDigits(digits) && s == "(" + digits + ")"
  {
    if IsCopyMark(s) && s != "" {
      assert s == "(" + s[1..|s| - 1] + ")";
    }
    forall digits | AllDigits(digits) && s == "(" + digits + ")" ensures IsCopyMark(s) {
      assert s[1..|s| - 1] == digits;
    }
  }

  /** A printed name is recognised, with its level. */
  lemma FileIsRecognised(f: TerrainFile, s: string)
    requires IsFile(f) && IsLine(s, FileName(f))
    ensures IsCellFile(s) && LevelOf(s) == f.level
  {
    var name, mark := FileName(f), CopyMark(f.copy);
    var n := |name|;
    CoreOfLine(s, name);
    MarkMeans(mark);
    assert name[3..n - 4] == mark && name[1..3] == [name[1], name[2]];
    DigitCharIs(name[1]);
    DigitCharIs(name[2]);
    LetterIs(name[0], 'n', 's');
    assert "ns" == ['n', 's'];
    hide IsCopyMark, DigitChar;
    LevelChar(f.level);
  }

  lemma LevelChar(level: nat)
    requires level < 10
    ensures DigitChar(level) as int - '0' as int == level
  {
  }

  /** A file is terrain exactly when it is named so; the level is that of its extension. */
  lemma FilesAreNamed(s: string)
    ensures IsCellFile(s) <==> exists f: TerrainFile :: IsFile(f) && IsLine(s, FileName(f))
    ensures forall f: TerrainFile :: IsFile(f) && IsLine(s, FileName(f)) ==> IsCellFile(s) && LevelOf(s) == f.level
  {
    if IsCellFile(s) {
      var core := Core(s);
      CoreIsLine(s, core);
      var f := FileNamed(core);
    }
    forall f: TerrainFile | IsFile(f) && IsLine(s, FileName(f)) ensures IsCellFile(s) && LevelOf(s) == f.level {
      FileIsRecognised(f, s);
    }
  }

  /** The hemisphere letter and the two degrees. */
  lemma FrontNamed(core: string) returns (south: bool, upper: bool, degrees: nat)
    requires |core| >= 3 && Lower(core[0]) in "ns" && AllDigits(core[1..3])
    ensures degrees < 100
    ensures core[..3] == [if south then (if upper then 'S' else 's') else if upper then 'N' else 'n',
                          DigitChar(degrees / 10), DigitChar(degrees % 10)]
  {
    assert core[1..3][0] == core[1] && core[1..3][1] == core[2];
    var a, b := DigitOf(core[1]), DigitOf(core[2]);
    south, upper := SouthOrNorth(core[0]);
    degrees := 10 * a + b;
    hide Lower, AllDigits, DigitChar, DigitOf;
    assert (10 * a + b) / 10 == a && (10 * a + b) % 10 == b;
    assert core[..3] == [core[0], core[1], core[2]];
  }

  lemma LetterCase(c: char, small: char)
    requires 'a' <= small <= 'z' && Lower(c) == small
    ensures c == small || c == (small as int - 32) as char
  {
  }

  lemma CopyNamed(mark: string) returns (copy: Option<string>)
    requires IsCopyMark(mark)
    ensures CopyMark(copy) == mark && (copy.Some? ==> AllDigits(copy.value))
  {
    MarkMeans(mark);
    hide IsCopyMark, AllDigits;
    if mark == "" {
      copy := None;
    } else {
      var digits :| AllDigits(digits) && mark == "(" + digits + ")";
      copy := Some(digits);
    }
  }

  lemma FileNamed(core: string) returns (f: TerrainFile)
    requires |core| >= 7 && Lower(core[0]) in "ns" && AllDigits(core[1..3]) && IsCopyMark(core[3..|core| - 4])
    requires core[|core| - 4] == '.' && Lower(core[|core| - 3]) == 'd' && Lower(core[|core| - 2]) == 't'
    requires '0' <= core[|core| - 1] <= '3'
    ensures IsFile(f) && FileName(f) == core
  {
    var n := |core|;
    var south, upper, degrees := FrontNamed(core);
    var copy := CopyNamed(core[3..n - 4]);
    hide IsCopyMark, AllDigits, CopyMark, DigitChar, Lower;
    var tail := core[n - 4..];
    TailNamed(tail);
    f := TerrainFile(south, upper, degrees, copy, tail[1] == 'D', tail[2] == 'T', tail[3] as int - '0' as int);
    NameInParts(f, core[..3], core[3..n - 4], tail);
    hide FileName;
    ThreeParts(core, 3, n - 4);
  }

  lemma ThreeParts(s: string, i: nat, j: nat)
    requires i <= j <= |s|
    ensures s == s[..i] + s[i..j] + s[j..]
  {
  }

  lemma NameInParts(f: TerrainFile, front: string, mark: string, tail: string)
    requires IsFile(f) && mark == CopyMark(f.copy)
    requires front == [if f.south then (if f.upper then 'S' else 's') else if f.upper then 'N' else 'n',
                       DigitChar(f.degrees / 10), DigitChar(f.degrees % 10)]
    requires tail == ['.', if f.upperD then 'D' else 'd', if f.upperT then 'T' else 't', DigitChar(f.level)]
    ensures FileName(f) == front + mark + tail
  {
    hide DigitChar, CopyMark, AllDigits;
  }

  /** The extension. */
  lemma TailNamed(tail: string)
    requires |tail| == 4 && tail[0] == '.' && Lower(tail[1]) == 'd' && Lower(tail[2]) == 't' && '0' <= tail[3] <= '3'
    ensures var level := tail[3] as int - '0' as int;
            && 0 <= level < 4
            && tail == ['.', if tail[1] == 'D' then 'D' else 'd', if tail[2] == 'T' then 'T' else 't', DigitChar(level)]
  {
    LetterCase(tail[1], 'd');
    LetterCase(tail[2], 't');
    LevelIsChar(tail[3]);
    hide DigitChar;
  }

  lemma LevelIsChar(c: char)
    requires '0' <= c <= '9'
    ensures DigitChar(c as int - '0' as int) == c
  {
  }

  // ------------------------------------------------------- whole paths

  lemma {:induction false} SplitAppend(a: string, b: string)
    ensures Split(a + "/" + b, '/') == Split(a, '/') + Split(b, '/')
    decreases |a|
  {
    if a == "" {
      assert a + "/" + b == "/" + b && ("/" + b)[1..] == b;
    } else {
      assert (a + "/" + b)[0] == a[0] && (a + "/" + b)[1..] == a[1..] + "/" + b;
      SplitAppend(a[1..], b);
    }
  }

  /** Some folder of the path is called so. */
  ghost predicate HasFolder(path: string, folder: string) {
    exists k :: 0 <= k < |Split(path, '/')| - 1 && Split(path, '/')[k] == folder
  }

  lemma FolderStands(path: string, folder: string)
    requires '/' !in folder
    ensures StartsWith(path, folder + "/") || Contains(path, "/" + folder + "/") ==> HasFolder(path, folder)
  {
    hide Split;
    SplitWhole(folder, '/');
    if StartsWith(path, folder + "/") {
      var rest := path[|folder| + 1..];
      assert path == folder + "/" + rest;
      SplitAppend(folder, rest);
      assert Split(path, '/')[0] == folder;
    } else if Contains(path, "/" + folder + "/") {
      var i :| 0 <= i <= |path| - |folder| - 2 && OccursAt(path, "/" + folder + "/", i);
      var before, rest := path[..i], path[i + |folder| + 2..];
      assert path == before + "/" + (folder + "/" + rest);
      SplitAppend(before, folder + "/" + rest);
      SplitAppend(folder, rest);
      assert Split(path, '/')[|Split(before, '/')|] == folder;
    }
  }

  lemma {:induction false} FolderIsSeen(parts: seq<string>, k: nat)
    requires k < |parts| - 1
    ensures var path := Join(parts, '/');
            StartsWith(path, parts[k] + "/") || Contains(path, "/" + parts[k] + "/")
    decreases k
  {
    var path := Join(parts, '/');
    if k == 0 {
      assert path[..|parts[0]| + 1] == parts[0] + "/";
    } else {
      var rest := Join(parts[1..], '/');
      FolderIsSeen(parts[1..], k - 1);
      hide Join;
      assert path == parts[0] + (['/'] + rest);
      if StartsWith(rest, parts[k] + "/") {
        FirstFolderIsSeen(parts[0], parts[k], rest);
      } else {
        LaterFolderIsSeen(parts[0], "/" + parts[k] + "/", rest);
      }
    }
  }

  lemma FirstFolderIsSeen(before: string, folder: string, rest: string)
    requires StartsWith(rest, folder + "/")
    ensures Contains(before + (['/'] + rest), "/" + folder + "/")
  {
    var path, what := before + (['/'] + rest), "/" + folder + "/";
    assert path[|before|..|before| + |what|] == "/" + rest[..|folder| + 1];
    assert OccursAt(path, what, |before|);
  }

  lemma LaterFolderIsSeen(before: string, what: string, rest: string)
    requires Contains(rest, what)
    ensures Contains(before + (['/'] + rest), what)
  {
    var path, here := before + (['/'] + rest), |before| + 1;
    var i :| 0 <= i <= |rest| - |what| && OccursAt(rest, what, i);
    assert path[here + i..here + i + |what|] == rest[i..i + |what|];
    assert OccursAt(path, what, here + i);
  }

  /** What an archiver adds: anything in a folder `__MACOSX`, and files called `.DS_Store` or `._` something. */
  lemma JunkMeans(name: string)
    ensures var path := Slashes(name);
            var leaf := Last(Split(path, '/'));
            IsJunk(name) <==>
              HasFolder(path, "__MACOSX") || leaf == ".DS_Store" || (|leaf| >= 2 && leaf[0] == '.' && leaf[1] == '_')
  {
    hide Split, Slashes, Contains;
    var path := Slashes(name);
    var parts := Split(path, '/');
    assert "__MACOSX" + "/" == "__MACOSX/" && "/" + "__MACOSX" + "/" == "/__MACOSX/";
    FolderStands(path, "__MACOSX");
    if k :| 0 <= k < |parts| - 1 && parts[k] == "__MACOSX" {
      JoinSplit(path, '/');
      FolderIsSeen(parts, k);
    }
    var leaf := Last(parts);
    assert |leaf| >= 2 ==> leaf[..2] == [leaf[0], leaf[1]];
    assert "._" == ['.', '_'];
  }

  /**
   Wherever it lies: a path that ends in a cell and a file of that cell is terrain, taken out of its
   folders, unless one of them is the archiver's; and nothing else is terrain.
   */
  lemma TerrainIsRecognised(name: string)
    ensures var parts := Split(Slashes(name), '/');
            var n := |parts|;
            match Classify(name)
            case Terrain(cell, file, wrapper) =>
              && n >= 2 && cell == parts[n - 2] && file == parts[n - 1] && IsCell(cell) && IsCellFile(file)
              && wrapper == (if n > 2 then Some(parts[0]) else None) && !HasFolder(Slashes(name), "__MACOSX")
            case _ => n >= 2 && IsCell(parts[n - 2]) && IsCellFile(parts[n - 1]) ==>
                   HasFolder(Slashes(name), "__MACOSX")
  {
    hide Split, IsCell, IsCellFile, IsJunk, Escapes;
    var path := Slashes(name);
    var parts := Split(path, '/');
    var n := |parts|;
    JunkMeans(path);
    assert Slashes(path) == path by { SlashesOnce(name); }
    if n >= 2 && IsCellFile(parts[n - 1]) {
      TerrainLeaf(parts[n - 1]);
      if EndsWith(path, "/") {
        EndsEmpty(path);
      }
    }
  }

  lemma SlashesOnce(name: string)
    ensures Slashes(Slashes(name)) == Slashes(name)
  {
  }

  lemma TerrainLeaf(file: string)
    requires IsCellFile(file)
    ensures file != "" && file != ".DS_Store" && file[0] != '.'
  {
    var core := Core(file);
    assert core[0] == file[0];
    assert "ns" == ['n', 's'];
  }

  lemma EndsEmpty(path: string)
    requires EndsWith(path, "/")
    ensures Last(Split(path, '/')) == ""
  {
    hide Split;
    var before := path[..|path| - 1];
    assert path == before + "/" + "";
    SplitAppend(before, "");
    SplitWhole("", '/');
  }
}
