/** `scripts/fix_matrix.py`: rewrite a Mash distance matrix as
    `distance.tab` (the header relabelled, every row renamed after its sample)
    and `nearness.tab` (the same with every distance `d` replaced by `1 - d`),
    with sample names taken from an optional tab-separated alias file. */
module FixMatrix {
  import opened Results
  import opened Text
  import opened Paths
  import opened AliasTable
  import RunMash

  const TAB := '\t'
  const NEWLINE := '\n'

  // ---------------------------------------------------------------------------
  // Names

  /** `os.path.basename`: the text after the last `/`, collected from the end. */
  function Basename(p: string): string
    decreases |p|
  {
    if |p| == 0 || p[|p| - 1] == SLASH then "" else Basename(p[..|p| - 1]) + [p[|p| - 1]]
  }

  /** The basename is what `p.rfind('/')` leaves after the slash. */
  lemma {:induction false} BasenameAfterLastSlash(p: string)
    ensures Basename(p) == p[RFind(p, SLASH) + 1..]
    decreases |p|
  {
    if |p| > 0 && p[|p| - 1] != SLASH {
      var init := p[..|p| - 1];
      BasenameAfterLastSlash(init);
      assert RFind(p, SLASH) == RFind(init, SLASH);
      SuffixInitLast(p, RFind(p, SLASH) + 1);
    }
  }

  /** Python's basename is the last path segment, the same name the Rust
      program gives a file when it has no alias table. */
  lemma {:induction false} BasenameIsLastSegment(p: string)
    ensures Basename(p) == LastSegment(p)
    ensures Basename(p) == RunMash.BaseName(p, None)
    decreases |p|
  {
    if |p| > 0 && p[|p| - 1] != SLASH {
      BasenameIsLastSegment(p[..|p| - 1]);
    }
  }

  /** Every character of a basename is a character of the path. */
  lemma BasenameChars(p: string, ch: char)
    requires ch in Basename(p)
    ensures ch in p
  {
    BasenameAfterLastSlash(p);
  }

  /** `good_name`: the alias of the basename, or the basename. */
  function GoodName(aliases: map<string, string>, file: string): string
  {
    var base := Basename(file);
    if base in aliases then aliases[base] else base
  }

  /** Both programs choose the same display name for a file. */
  lemma GoodNameIsBaseName(aliases: map<string, string>, file: string)
    ensures GoodName(aliases, file) == RunMash.BaseName(file, Some(aliases))
  {
    BasenameIsLastSegment(file);
  }

  function GoodNames(aliases: map<string, string>, files: seq<string>): seq<string>
  {
    seq(|files|, k requires 0 <= k < |files| => GoodName(aliases, files[k]))
  }

  /** A display name holds only characters of the path or of an alias. */
  lemma GoodNameChars(aliases: map<string, string>, file: string, ch: char)
    requires ch in GoodName(aliases, file)
    ensures ch in file || exists v :: v in aliases.Values && ch in v
  {
    var base := Basename(file);
    if base in aliases {
      assert aliases[base] in aliases.Values;
    } else {
      BasenameChars(file, ch);
    }
  }

  // ---------------------------------------------------------------------------
  // Lines as Python's file iteration yields them

  /** Each string of `parts` followed by a newline. */
  function Terminated(parts: seq<string>): seq<string>
  {
    seq(|parts|, k requires 0 <= k < |parts| => parts[k] + [NEWLINE])
  }

  /** The lines `for line in file` yields: every line keeps its `\n`, except
      a final line that has none; no empty line is yielded. */
  function PyLines(text: string): seq<string>
  {
    var parts := Split(text, NEWLINE);
    var last := parts[|parts| - 1];
    Terminated(parts[..|parts| - 1]) + (if last == "" then [] else [last])
  }

  function Concat(rows: seq<string>): string
    decreases |rows|
  {
    if |rows| == 0 then "" else Concat(rows[..|rows| - 1]) + rows[|rows| - 1]
  }

  lemma {:induction false} ConcatTerminated(parts: seq<string>)
    requires |parts| >= 1
    ensures Concat(Terminated(parts[..|parts| - 1])) + parts[|parts| - 1] == Join(parts, NEWLINE)
    decreases |parts|
  {
    var n := |parts|;
    if n > 1 {
      var init := parts[..n - 1];
      ConcatTerminated(init);
      var t := Terminated(init);
      assert t[..n - 2] == Terminated(init[..n - 2]);
      assert parts[..n - 1][..n - 2] == init[..n - 2];
    }
  }

  /** The lines put back together are the text. */
  lemma PyLinesRoundTrip(text: string)
    ensures Concat(PyLines(text)) == text
  {
    var parts := Split(text, NEWLINE);
    var last := parts[|parts| - 1];
    var t := Terminated(parts[..|parts| - 1]);
    ConcatTerminated(parts);
    JoinSplit(text, NEWLINE);
    if last != "" {
      assert (t + [last])[..|t|] == t;
    } else {
      assert t + [] == t;
    }
  }

  /** Every line is non-empty and holds a newline at most as its last
      character; every line but the last ends with one. */
  lemma PyLinesShape(text: string)
    ensures var lines := PyLines(text);
      && (forall k :: 0 <= k < |lines| ==> |lines[k]| > 0)
      && (forall k, j :: 0 <= k < |lines| && 0 <= j < |lines[k]| - 1 ==> lines[k][j] != NEWLINE)
      && (forall k :: 0 <= k < |lines| - 1 ==> lines[k][|lines[k]| - 1] == NEWLINE)
  {
    var parts := Split(text, NEWLINE);
    var lines := PyLines(text);
    forall k, j | 0 <= k < |lines| && 0 <= j < |lines[k]| - 1 ensures lines[k][j] != NEWLINE {
      if k < |parts| - 1 {
        assert lines[k][j] == parts[k][j];
      } else {
        assert lines[k] == parts[|parts| - 1];
        assert lines[k][j] in parts[|parts| - 1];
      }
    }
  }

  /** `line` without its terminating newline. */
  function Chomp(line: string): (body: string)
  {
    if |line| > 0 && line[|line| - 1] == NEWLINE then line[..|line| - 1] else line
  }

  /** One output row: the fields with tabs between them and a newline after. */
  function TabRow(fields: seq<string>): string
  {
    Join(fields, TAB) + [NEWLINE]
  }

  // ---------------------------------------------------------------------------
  // The rows as the script writes them

  /** A name without `/` is its own basename. */
  lemma {:induction false} BasenameWithoutSlash(p: string)
    requires SLASH !in p
    ensures Basename(p) == p
    decreases |p|
  {
    if |p| > 0 {
      BasenameWithoutSlash(p[..|p| - 1]);
    }
  }

  /** A string holding the separator splits into at least two fields. */
  lemma SplitAtSeparator(s: string, c: char)
    requires c in s
    ensures |Split(s, c)| >= 2
  {
    JoinSplit(s, c);
  }

  /** Splitting a line that still has its newline gives the fields of the line
      without it, the last one with the newline attached. */
  lemma SplitKeepsNewline(line: string)
    requires |line| > 0 && line[|line| - 1] == NEWLINE
    ensures var fields, body := Split(line, TAB), Split(Chomp(line), TAB);
      && |fields| == |body|
      && fields[..|body| - 1] == body[..|body| - 1]
      && fields[|body| - 1] == body[|body| - 1] + [NEWLINE]
  {
    assert line[..|line| - 1] == Chomp(line);
  }

  /** The last character of a join is the last character of its last field. */
  lemma JoinLastChar(parts: seq<string>, c: char)
    requires |parts| >= 1 && |parts[|parts| - 1]| > 0
    ensures var j, last := Join(parts, c), parts[|parts| - 1];
      |j| > 0 && j[|j| - 1] == last[|last| - 1]
  {
  }

  /** The header row as written: the tab fields of the line, terminator
      included, with the first one blanked and the others renamed. */
  function AsWrittenHeaderRow(aliases: map<string, string>, line: string): string
  {
    var flds := Split(line, TAB);
    TabRow([""] + GoodNames(aliases, flds[1..]))
  }

  /** A `distance.tab` row as written: the first field renamed, the others
      copied, the last one with the line's own newline, then one more. */
  function AsWrittenDistanceRow(aliases: map<string, string>, line: string): string
  {
    var flds := Split(line, TAB);
    TabRow([GoodName(aliases, flds[0])] + flds[1..])
  }

  /** `invert` stands for `str(1 - float(n))`. */
  function Inverted(invert: string -> string, cells: seq<string>): seq<string>
  {
    seq(|cells|, k requires 0 <= k < |cells| => invert(cells[k]))
  }

  /** A `nearness.tab` row as written: the first field renamed, every other
      field inverted as split, the last one with the line's newline (which
      `float` reads past). */
  function AsWrittenNearnessRow(aliases: map<string, string>, invert: string -> string, line: string): string
  {
    var flds := Split(line, TAB);
    TabRow([GoodName(aliases, flds[0])] + Inverted(invert, flds[1..]))
  }

  predicate TabFree(values: set<string>)
  {
    forall v :: v in values ==> TAB !in v
  }

  /** A display name under tab-free aliases has no tab when the path has none. */
  lemma GoodNameTabFree(aliases: map<string, string>, file: string)
    requires TabFree(aliases.Values)
    requires TAB !in file
    ensures TAB !in GoodName(aliases, file)
  {
    if TAB in GoodName(aliases, file) {
      GoodNameChars(aliases, file, TAB);
    }
  }

  lemma GoodNamesTabFree(aliases: map<string, string>, files: seq<string>)
    requires TabFree(aliases.Values)
    requires forall k :: 0 <= k < |files| ==> TAB !in files[k]
    ensures forall k :: 0 <= k < |files| ==> TAB !in GoodNames(aliases, files)[k]
  {
    forall k | 0 <= k < |files| ensures TAB !in GoodNames(aliases, files)[k] {
      GoodNameTabFree(aliases, files[k]);
    }
  }

  /** With tab-free aliases the header row, read back without the newline the
      script appends, has one cell per tab field of the line: an empty corner,
      then the display name of each field exactly as split, the last one
      looked up with the line's newline still on it. */
  lemma HeaderShape(aliases: map<string, string>, line: string)
    requires TabFree(aliases.Values)
    ensures var row, flds := AsWrittenHeaderRow(aliases, line), Split(line, TAB);
      var cells := Split(row[..|row| - 1], TAB);
      && row[|row| - 1] == NEWLINE
      && |cells| == |flds|
      && cells[0] == ""
      && forall k :: 1 <= k < |flds| ==> cells[k] == GoodName(aliases, flds[k])
  {
    var flds := Split(line, TAB);
    var rest := flds[1..];
    var names := GoodNames(aliases, rest);
    assert forall k :: 0 <= k < |rest| ==> TAB !in rest[k] by {
      assert forall k :: 0 <= k < |rest| ==> rest[k] == flds[k + 1];
    }
    GoodNamesTabFree(aliases, rest);
    var out := [""] + names;
    assert forall k :: 0 <= k < |out| ==> TAB !in out[k] by {
      assert forall k :: 1 <= k < |out| ==> out[k] == names[k - 1];
    }
    SplitJoin(out, TAB);
    var row := AsWrittenHeaderRow(aliases, line);
    assert row[..|row| - 1] == Join(out, TAB);
    forall k | 1 <= k < |flds| ensures out[k] == GoodName(aliases, flds[k]) {
      assert out[k] == names[k - 1] && rest[k - 1] == flds[k];
    }
  }

  /** Renaming the sample leaves the rest of the line, separators, distances
      and the line's own newline, exactly as it was; the script then adds a
      newline of its own. */
  lemma DistanceRowKeepsMeasurements(aliases: map<string, string>, line: string)
    ensures var first := Split(line, TAB)[0];
      && |first| <= |line|
      && AsWrittenDistanceRow(aliases, line) == GoodName(aliases, first) + line[|first|..] + [NEWLINE]
  {
    JoinReplacingFirst(line, TAB, GoodName(aliases, Split(line, TAB)[0]));
  }

  /** Each nearness row, read back without the appended newline, names the
      same sample as its distance row, has as many cells as the line has
      fields, and holds the inverse of each distance, column for column. */
  lemma NearnessMatchesDistance(aliases: map<string, string>, invert: string -> string, line: string)
    requires TabFree(aliases.Values)
    requires forall cell :: TAB !in invert(cell)
    ensures var nearRow, distRow := AsWrittenNearnessRow(aliases, invert, line), AsWrittenDistanceRow(aliases, line);
      var near, dist, flds := Split(nearRow[..|nearRow| - 1], TAB), Split(distRow[..|distRow| - 1], TAB), Split(line, TAB);
      && |near| == |dist| == |flds|
      && near[0] == dist[0] == GoodName(aliases, flds[0])
      && forall k :: 1 <= k < |dist| ==> dist[k] == flds[k] && near[k] == invert(dist[k])
  {
    var flds := Split(line, TAB);
    var rest := flds[1..];
    var name := GoodName(aliases, flds[0]);
    var near := [name] + Inverted(invert, rest);
    var dist := [name] + rest;
    GoodNameTabFree(aliases, flds[0]);
    forall k | 0 <= k < |near|
      ensures TAB !in near[k] && TAB !in dist[k]
      ensures k > 0 ==> dist[k] == flds[k] && near[k] == invert(dist[k])
    {
      if k > 0 {
        assert dist[k] == rest[k - 1] == flds[k];
        assert near[k] == invert(rest[k - 1]);
      }
    }
    SplitJoin(near, TAB);
    SplitJoin(dist, TAB);
    var nearRow, distRow := AsWrittenNearnessRow(aliases, invert, line), AsWrittenDistanceRow(aliases, line);
    assert nearRow[..|nearRow| - 1] == Join(near, TAB);
    assert distRow[..|distRow| - 1] == Join(dist, TAB);
  }

  /** `row` is one line: it ends with its only newline. */
  predicate SingleLine(row: string)
  {
    && |row| > 0
    && row[|row| - 1] == NEWLINE
    && forall j :: 0 <= j < |row| - 1 ==> row[j] != NEWLINE
  }

  /** `row` ends with an empty line. */
  predicate EndsInBlankLine(row: string)
  {
    |row| >= 2 && row[|row| - 2] == NEWLINE && row[|row| - 1] == NEWLINE
  }

  /** A join of fields none of which holds `ch` holds `ch` only if it is the separator. */
  lemma JoinAvoids(parts: seq<string>, c: char, ch: char)
    requires ch != c
    requires forall k :: 0 <= k < |parts| ==> ch !in parts[k]
    ensures ch !in Join(parts, c)
  {
    if ch in Join(parts, c) {
      JoinChars(parts, c, ch);
    }
  }

  lemma TabRowSingleLine(fields: seq<string>)
    requires forall k :: 0 <= k < |fields| ==> NEWLINE !in fields[k]
    ensures SingleLine(TabRow(fields))
  {
    var j := Join(fields, TAB);
    JoinAvoids(fields, TAB, NEWLINE);
    forall i | 0 <= i < |j| ensures TabRow(fields)[i] != NEWLINE {
      assert TabRow(fields)[i] == j[i];
    }
  }

  /** A field of the line has no newline when the line has one at most at its end. */
  lemma FieldsNewlineFree(line: string, k: nat)
    requires forall j :: 0 <= j < |line| - 1 ==> line[j] != NEWLINE
    requires k < |Split(Chomp(line), TAB)|
    ensures NEWLINE !in Split(Chomp(line), TAB)[k]
  {
    if NEWLINE in Split(Chomp(line), TAB)[k] {
      SplitChars(Chomp(line), TAB, k, NEWLINE);
      var j :| 0 <= j < |Chomp(line)| && Chomp(line)[j] == NEWLINE;
    }
  }

  /** A display name has no newline when neither the path nor any alias has one. */
  lemma GoodNameNewlineFree(aliases: map<string, string>, file: string)
    requires forall v :: v in aliases.Values ==> NEWLINE !in v
    requires NEWLINE !in file
    ensures NEWLINE !in GoodName(aliases, file)
  {
    if NEWLINE in GoodName(aliases, file) {
      GoodNameChars(aliases, file, NEWLINE);
    }
  }

  /** A line with a tab and a newline only at its end (every matrix line but
      possibly the last) has at least two fields; its first field has no
      newline and its last ends with the line's newline. */
  predicate EndedRow(line: string)
  {
    && TAB in line
    && |line| > 0 && line[|line| - 1] == NEWLINE
    && forall j :: 0 <= j < |line| - 1 ==> line[j] != NEWLINE
  }

  lemma EndedRowFields(line: string)
    requires EndedRow(line)
    ensures var flds := Split(line, TAB);
      && |flds| >= 2
      && NEWLINE !in flds[0]
      && |flds[|flds| - 1]| > 0 && flds[|flds| - 1][|flds[|flds| - 1]| - 1] == NEWLINE
  {
    var flds, body := Split(line, TAB), Split(Chomp(line), TAB);
    SplitKeepsNewline(line);
    var j :| 0 <= j < |line| && line[j] == TAB;
    assert j < |line| - 1;
    assert Chomp(line)[j] == TAB;
    SplitAtSeparator(Chomp(line), TAB);
    assert flds[0] == flds[..|body| - 1][0] == body[..|body| - 1][0] == body[0];
    FieldsNewlineFree(line, 0);
  }

  /** The header row of such a line ends in an empty line: its last column is
      looked up with the newline on it, finds no alias (alias names hold no
      newline), and the script adds a second newline. */
  lemma HeaderEndsInBlankLine(aliases: map<string, string>, line: string)
    requires forall name :: name in aliases ==> NEWLINE !in name
    requires EndedRow(line)
    ensures var flds := Split(line, TAB);
      var last := flds[|flds| - 1];
      && |last| > 0
      && Basename(last) !in aliases
      && GoodName(aliases, last) == Basename(last[..|last| - 1]) + [NEWLINE]
    ensures EndsInBlankLine(AsWrittenHeaderRow(aliases, line))
  {
    var flds := Split(line, TAB);
    EndedRowFields(line);
    var last := flds[|flds| - 1];
    var header := [""] + GoodNames(aliases, flds[1..]);
    assert header[|header| - 1] == GoodName(aliases, last);
    assert Basename(last) == Basename(last[..|last| - 1]) + [NEWLINE];
    assert Basename(last) !in aliases;
    JoinLastChar(header, TAB);
  }

  /** The `distance.tab` row of such a line ends in an empty line: the last
      distance keeps the line's newline and the script adds another. */
  lemma DistanceEndsInBlankLine(aliases: map<string, string>, line: string)
    requires EndedRow(line)
    ensures EndsInBlankLine(AsWrittenDistanceRow(aliases, line))
  {
    var flds := Split(line, TAB);
    EndedRowFields(line);
    var dist := [GoodName(aliases, flds[0])] + flds[1..];
    assert dist[|dist| - 1] == flds[|flds| - 1];
    JoinLastChar(dist, TAB);
  }

  /** The `nearness.tab` row of such a line is a single line: `float` reads
      past the newline of the last distance. */
  lemma NearnessIsSingleLine(aliases: map<string, string>, invert: string -> string, line: string)
    requires forall v :: v in aliases.Values ==> NEWLINE !in v
    requires forall cell :: NEWLINE !in invert(cell)
    requires EndedRow(line)
    ensures SingleLine(AsWrittenNearnessRow(aliases, invert, line))
  {
    var flds := Split(line, TAB);
    EndedRowFields(line);
    GoodNameNewlineFree(aliases, flds[0]);
    var near := [GoodName(aliases, flds[0])] + Inverted(invert, flds[1..]);
    assert forall k :: 1 <= k < |near| ==> near[k] == invert(flds[k]);
    TabRowSingleLine(near);
  }

  /** On a header line `corner \t a \t b \n` the last column is looked up
      with its newline, so `b` keeps its file name although it has an alias,
      and the row ends in an empty line. */
  lemma AsWrittenHeaderKeepsNewline(aliases: map<string, string>, corner: string, a: string, b: string)
    requires TAB !in corner && TAB !in a && TAB !in b && NEWLINE !in b && SLASH !in b
    requires b in aliases && b + [NEWLINE] !in aliases
    ensures AsWrittenHeaderRow(aliases, corner + [TAB] + a + [TAB] + b + [NEWLINE])
      == [TAB] + GoodName(aliases, a) + [TAB] + b + [NEWLINE, NEWLINE]
  {
    var last := b + [NEWLINE];
    assert corner + [TAB] + a + [TAB] + b + [NEWLINE] == corner + [TAB] + a + [TAB] + last;
    SplitThree(corner, a, last, TAB);
    BasenameWithoutSlash(last);
    var out := [""] + GoodNames(aliases, [a, last]);
    assert out == ["", GoodName(aliases, a), last];
    JoinThree("", GoodName(aliases, a), last, TAB);
  }

  /** On a row `s \t d \t e \n` the last distance keeps the newline and the
      script adds another, so the row of `distance.tab` ends in an empty line. */
  lemma AsWrittenDistanceKeepsNewline(aliases: map<string, string>, s: string, d: string, e: string)
    requires TAB !in s && TAB !in d && TAB !in e
    ensures AsWrittenDistanceRow(aliases, s + [TAB] + d + [TAB] + e + [NEWLINE])
      == GoodName(aliases, s) + [TAB] + d + [TAB] + e + [NEWLINE, NEWLINE]
  {
    var last := e + [NEWLINE];
    assert s + [TAB] + d + [TAB] + e + [NEWLINE] == s + [TAB] + d + [TAB] + last;
    SplitThree(s, d, last, TAB);
    assert [GoodName(aliases, s)] + [s, d, last][1..] == [GoodName(aliases, s), d, last];
    JoinThree(GoodName(aliases, s), d, last, TAB);
  }

  // ---------------------------------------------------------------------------
  // The rows with the line's newline removed first

  /** The header fields: an empty corner, then every column renamed. */
  function HeaderFields(aliases: map<string, string>, line: string): seq<string>
  {
    var flds := Split(Chomp(line), TAB);
    [""] + GoodNames(aliases, flds[1..])
  }

  /** The fields of a `distance.tab` row: the sample renamed, the distances copied. */
  function DistanceFields(aliases: map<string, string>, line: string): seq<string>
  {
    var flds := Split(Chomp(line), TAB);
    [GoodName(aliases, flds[0])] + flds[1..]
  }

  /** The fields of a `nearness.tab` row: the sample renamed, every distance inverted. */
  function NearnessFields(aliases: map<string, string>, invert: string -> string, line: string): seq<string>
  {
    var flds := Split(Chomp(line), TAB);
    [GoodName(aliases, flds[0])] + Inverted(invert, flds[1..])
  }

  /** The same header line with its newline removed first: `b` is shown under
      its alias and the row ends with a single newline. */
  lemma ChompedHeaderUsesAlias(aliases: map<string, string>, corner: string, a: string, b: string)
    requires TAB !in corner && TAB !in a && TAB !in b && NEWLINE !in b && SLASH !in b
    requires b in aliases
    ensures TabRow(HeaderFields(aliases, corner + [TAB] + a + [TAB] + b + [NEWLINE]))
      == [TAB] + GoodName(aliases, a) + [TAB] + aliases[b] + [NEWLINE]
  {
    var body := corner + [TAB] + a + [TAB] + b;
    assert Chomp(body + [NEWLINE]) == body;
    SplitThree(corner, a, b, TAB);
    BasenameWithoutSlash(b);
    var out := [""] + GoodNames(aliases, [a, b]);
    assert out == ["", GoodName(aliases, a), aliases[b]];
    JoinThree("", GoodName(aliases, a), aliases[b], TAB);
  }

  /** The same row with its newline removed first ends with a single newline. */
  lemma ChompedDistanceSingleNewline(aliases: map<string, string>, s: string, d: string, e: string)
    requires TAB !in s && TAB !in d && TAB !in e
    ensures TabRow(DistanceFields(aliases, s + [TAB] + d + [TAB] + e + [NEWLINE]))
      == GoodName(aliases, s) + [TAB] + d + [TAB] + e + [NEWLINE]
  {
    var body := s + [TAB] + d + [TAB] + e;
    assert Chomp(body + [NEWLINE]) == body;
    SplitThree(s, d, e, TAB);
    assert [GoodName(aliases, s)] + [s, d, e][1..] == [GoodName(aliases, s), d, e];
    JoinThree(GoodName(aliases, s), d, e, TAB);
  }

  /** With the newline removed first, column `k` of the header, the last one
      included, shows the alias of its file's basename, or the basename when
      it has none. */
  lemma CorrectedHeaderColumn(aliases: map<string, string>, line: string, k: nat)
    requires 1 <= k < |Split(Chomp(line), TAB)|
    ensures var base := Basename(Split(Chomp(line), TAB)[k]);
      && (base in aliases ==> HeaderFields(aliases, line)[k] == aliases[base])
      && (base !in aliases ==> HeaderFields(aliases, line)[k] == base)
  {
    var flds := Split(Chomp(line), TAB);
    assert HeaderFields(aliases, line)[k] == GoodNames(aliases, flds[1..])[k - 1] == GoodName(aliases, flds[k]);
  }

  /** With the newline removed first, every row of either file is a single
      line, whatever the line's own newline. */
  lemma CorrectedRowsAreSingleLines(aliases: map<string, string>, invert: string -> string, line: string)
    requires forall v :: v in aliases.Values ==> NEWLINE !in v
    requires forall cell :: NEWLINE !in invert(cell)
    requires forall j :: 0 <= j < |line| - 1 ==> line[j] != NEWLINE
    ensures SingleLine(TabRow(HeaderFields(aliases, line)))
    ensures SingleLine(TabRow(DistanceFields(aliases, line)))
    ensures SingleLine(TabRow(NearnessFields(aliases, invert, line)))
  {
    var flds := Split(Chomp(line), TAB);
    forall i | 0 <= i < |flds| ensures NEWLINE !in GoodName(aliases, flds[i]) && NEWLINE !in flds[i] {
      FieldsNewlineFree(line, i);
      GoodNameNewlineFree(aliases, flds[i]);
    }
    var rest := flds[1..];
    var name := GoodName(aliases, flds[0]);
    var header, dist, near := HeaderFields(aliases, line), DistanceFields(aliases, line), NearnessFields(aliases, invert, line);
    assert header == [""] + GoodNames(aliases, rest);
    assert dist == [name] + rest && near == [name] + Inverted(invert, rest);
    forall i | 0 <= i < |flds|
      ensures NEWLINE !in header[i] && NEWLINE !in dist[i] && NEWLINE !in near[i]
    {
      if i > 0 {
        assert rest[i - 1] == flds[i];
        assert header[i] == GoodName(aliases, flds[i]);
        assert dist[i] == flds[i];
        assert near[i] == invert(flds[i]);
      }
    }
    TabRowSingleLine(header);
    TabRowSingleLine(dist);
    TabRowSingleLine(near);
  }

  // ---------------------------------------------------------------------------
  // Both output files

  /** Row `k` of `distance.tab`: the header row from line 0, a renamed row otherwise. */
  function DistanceRow(aliases: map<string, string>, k: nat, line: string): string
  {
    if k == 0 then AsWrittenHeaderRow(aliases, line) else AsWrittenDistanceRow(aliases, line)
  }

  /** Row `k` of `nearness.tab`: the same header row, an inverted row otherwise. */
  function NearnessRow(aliases: map<string, string>, invert: string -> string, k: nat, line: string): string
  {
    if k == 0 then AsWrittenHeaderRow(aliases, line) else AsWrittenNearnessRow(aliases, invert, line)
  }

  /** The text of `distance.tab`. */
  function DistanceText(aliases: map<string, string>, lines: seq<string>): string
    decreases |lines|
  {
    if |lines| == 0 then ""
    else DistanceText(aliases, lines[..|lines| - 1]) + DistanceRow(aliases, |lines| - 1, lines[|lines| - 1])
  }

  /** The text of `nearness.tab`. */
  function NearnessText(aliases: map<string, string>, invert: string -> string, lines: seq<string>): string
    decreases |lines|
  {
    if |lines| == 0 then ""
    else NearnessText(aliases, invert, lines[..|lines| - 1]) + NearnessRow(aliases, invert, |lines| - 1, lines[|lines| - 1])
  }

  /** The loop over the matrix lines, writing both files. */
  method WriteMatrices(aliases: map<string, string>, invert: string -> string, lines: seq<string>)
    returns (near: string, dist: string)
    ensures near == NearnessText(aliases, invert, lines)
    ensures dist == DistanceText(aliases, lines)
  {
    near, dist := "", "";
    for lineNum := 0 to |lines|
      invariant near == NearnessText(aliases, invert, lines[..lineNum])
      invariant dist == DistanceText(aliases, lines[..lineNum])
    {
      var line := lines[lineNum];
      assert lines[..lineNum + 1][..lineNum] == lines[..lineNum];
      near := near + NearnessRow(aliases, invert, lineNum, line);
      dist := dist + DistanceRow(aliases, lineNum, line);
    }
    assert lines[..|lines|] == lines;
  }

  // ---------------------------------------------------------------------------
  // Alias file

  /** The alias loop: every row must have `name` and `alias`, later rows win. */
  method LoadAliases(rows: seq<Row>) returns (r: Option<map<string, string>>)
    ensures r.None? <==> exists i :: 0 <= i < |rows| && !HasColumns(rows[i], "name", "alias")
    ensures r.Some? ==> r.value == Collect(rows, "name", "alias")
  {
    var aliases: map<string, string> := map[];
    for i := 0 to |rows|
      invariant forall j :: 0 <= j < i ==> HasColumns(rows[j], "name", "alias")
      invariant aliases == Collect(rows[..i], "name", "alias")
    {
      var row := rows[i];
      assert rows[..i + 1][..i] == rows[..i];
      if "name" in row && "alias" in row {
        aliases := aliases[row["name"] := row["alias"]];
      } else {
        return None;
      }
    }
    assert rows[..|rows|] == rows;
    r := Some(aliases);
  }

  // ---------------------------------------------------------------------------
  // main

  datatype Failure =
    | MatrixNotValid        // `--matrix "..." is not valid`
    | PrecisionOutOfRange   // `--precision "..." should be between 1-10`
    | AliasColumnsMissing   // `--alias file should contain name/alias`
    | AliasNotValid         // `--alias "..." is not valid`

  datatype Outcome =
    | Exit(failure: Failure)
    | Written(nearPath: string, near: string, distPath: string, dist: string)

  /** The alias table `main` ends up with. */
  function AliasesFor(alias: string, fs: FileSystem, readRows: string -> seq<Row>): Result<map<string, string>, Failure>
  {
    if |alias| == 0 then Ok(map[])
    else if !IsFile(fs, alias) then Err(AliasNotValid)
    else
      var rows := readRows(alias);
      if exists i :: 0 <= i < |rows| && !HasColumns(rows[i], "name", "alias") then Err(AliasColumnsMissing)
      else Ok(Collect(rows, "name", "alias"))
  }

  /** `main`.  `matrixDir` stands for the directory of the absolute matrix
      path, `readRows` for the tab-separated reader of the alias file, `readText`
      for the contents of the matrix, `invert` for `str(1 - float(n))`. */
  method Run(matrix: string, outDir: string, matrixDir: string, precision: int, alias: string,
               fs: FileSystem, readRows: string -> seq<Row>, readText: string -> string, invert: string -> string)
    returns (r: Outcome)
    ensures !IsFile(fs, matrix) ==> r == Exit(MatrixNotValid)
    ensures IsFile(fs, matrix) && !(1 <= precision <= 10) ==> r == Exit(PrecisionOutOfRange)
    ensures IsFile(fs, matrix) && 1 <= precision <= 10 && AliasesFor(alias, fs, readRows).Err? ==>
      r == Exit(AliasesFor(alias, fs, readRows).error)
    ensures IsFile(fs, matrix) && 1 <= precision <= 10 && AliasesFor(alias, fs, readRows).Ok? ==>
      var dir := if |outDir| == 0 then matrixDir else outDir;
      var aliases := AliasesFor(alias, fs, readRows).value;
      var lines := PyLines(readText(matrix));
      r == Written(PathJoin(dir, "nearness.tab"), NearnessText(aliases, invert, lines),
                   PathJoin(dir, "distance.tab"), DistanceText(aliases, lines))
  {
    if !IsFile(fs, matrix) {
      return Exit(MatrixNotValid);
    }
    var dir := outDir;
    if |dir| == 0 {
      dir := matrixDir;
    }
    if !(1 <= precision <= 10) {
      return Exit(PrecisionOutOfRange);
    }
    var aliases: map<string, string> := map[];
    if |alias| > 0 {
      if IsFile(fs, alias) {
        var loaded := LoadAliases(readRows(alias));
        if loaded.None? {
          return Exit(AliasColumnsMissing);
        }
        aliases := loaded.value;
      } else {
        return Exit(AliasNotValid);
      }
    }
    var near, dist := WriteMatrices(aliases, invert, PyLines(readText(matrix)));
    r := Written(PathJoin(dir, "nearness.tab"), near, PathJoin(dir, "distance.tab"), dist);
  }
}
