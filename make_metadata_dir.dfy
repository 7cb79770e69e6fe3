/** The metadata-directory builder: it reads a tab-separated metadata table
    whose first column holds the sample names, checks its header line and its
    numeric options, and writes one sample-by-sample matrix per column whose
    name ends in `.d` (discrete), `.c` (continuous) or `.ll` (latitude and
    longitude), into `<column>.meta` under the output directory.

    The parsed table, the contents of files and the file system are
    parameters.  Continuous and latitude/longitude matrices are floating-point
    work and are represented only by the file they go to. */
module MakeMetadataDir {
  import opened Results
  import opened Text
  import opened Paths

  const TAB := '\t'
  const NEWLINE := '\n'

  // ---------------------------------------------------------------------------
  // Column names and the header line

  /** `re.search(re.escape(suffix) + "$", s)`: in Python `$` matches at the end
      of the string and also just before a newline that ends it. */
  predicate RegexEnd(s: string, suffix: string)
  {
    EndsWith(s, suffix) || EndsWith(s, suffix + [NEWLINE])
  }

  /** The header test `\.(c|d|ll)$`. */
  predicate HasDataSuffix(s: string)
  {
    RegexEnd(s, ".c") || RegexEnd(s, ".d") || RegexEnd(s, ".ll")
  }

  datatype Kind = Discrete | Continuous | LatLon

  /** The matrix a column produces, tried in the order `.d`, `.c`, `.ll`;
      `None` is the "No data" case. */
  function ColumnKind(col: string): Option<Kind>
  {
    if RegexEnd(col, ".d") then Some(Discrete)
    else if RegexEnd(col, ".c") then Some(Continuous)
    else if RegexEnd(col, ".ll") then Some(LatLon)
    else None
  }

  /** A column dispatches to a matrix exactly when the header test accepts it,
      and at most one suffix matches, so the order of the tests is immaterial. */
  lemma ColumnKindExactly(col: string)
    ensures ColumnKind(col).Some? <==> HasDataSuffix(col)
    ensures ColumnKind(col) == Some(Discrete) <==> RegexEnd(col, ".d")
    ensures ColumnKind(col) == Some(Continuous) <==> RegexEnd(col, ".c")
    ensures ColumnKind(col) == Some(LatLon) <==> RegexEnd(col, ".ll")
  {
    var n := |col|;
    if RegexEnd(col, ".d") {
      assert col[n - 1] == 'd' || col[n - 1] == NEWLINE;
      if EndsWith(col, ".d") {
        assert col[n - 1] == 'd';
      } else {
        assert col[n - 2] == 'd';
      }
    }
    if RegexEnd(col, ".c") {
      if EndsWith(col, ".c") {
        assert col[n - 1] == 'c';
      } else {
        assert col[n - 2] == 'c';
      }
    }
  }

  /** The header fields: the first line with its trailing whitespace removed
      (the line's newline goes with it), split at tabs. */
  function Headers(text: string): (h: seq<string>)
    ensures |h| >= 1
  {
    Split(RStrip(Split(text, NEWLINE)[0]), TAB)
  }

  /** The first header is `name` and every later one ends in `.c`, `.d` or `.ll`. */
  predicate HeadersOk(text: string)
  {
    var h := Headers(text);
    h[0] == "name" && forall k :: 1 <= k < |h| ==> HasDataSuffix(h[k])
  }

  /** The header check accepts exactly the headers whose columns all produce a matrix. */
  lemma HeadersOkExactly(text: string)
    ensures var h := Headers(text);
      HeadersOk(text) <==> h[0] == "name" && forall k :: 1 <= k < |h| ==> ColumnKind(h[k]).Some?
  {
    var h := Headers(text);
    forall k | 1 <= k < |h| {
      ColumnKindExactly(h[k]);
    }
  }

  /** A header line of just `name` is accepted, whatever follows it. */
  lemma NameOnlyHeaderAccepted(rest: string)
    ensures HeadersOk("name")
    ensures HeadersOk("name" + [NEWLINE] + rest)
  {
    var line := "name";
    assert NEWLINE !in line && TAB !in line && !IsSpace(line[|line| - 1]);
    SplitWithoutSeparator(line, NEWLINE);
    assert RStrip(line) == line;
    SplitWithoutSeparator(line, TAB);
    assert Headers(line) == [line];
    SplitFirstField(line, rest, NEWLINE);
    assert Headers(line + [NEWLINE] + rest) == [line];
  }

  /** Trailing whitespace, including a Windows line end, does not change the verdict. */
  lemma HeadersIgnoreTrailingSpace(line: string, pad: string)
    requires NEWLINE !in line && NEWLINE !in pad && AllSpace(pad)
    ensures Headers(line + pad) == Headers(line)
  {
    SplitWithoutSeparator(line + pad, NEWLINE);
    SplitWithoutSeparator(line, NEWLINE);
    RStripPadded(line, pad);
  }

  lemma {:induction false} RStripPadded(s: string, pad: string)
    requires AllSpace(pad)
    ensures RStrip(s + pad) == RStrip(s)
    decreases |pad|
  {
    if |pad| > 0 {
      var init := pad[..|pad| - 1];
      assert (s + pad)[..|s + pad| - 1] == s + init;
      RStripPadded(s, init);
    } else {
      assert s + pad == s;
    }
  }

  /** The first field of a string that has the separator after `a` is `a`. */
  lemma SplitFirstField(a: string, b: string, c: char)
    requires c !in a
    ensures Split(a + [c] + b, c)[0] == a
  {
    var parts := Split(b, c);
    var all := [a] + parts;
    JoinSplit(b, c);
    JoinFirst(all, c);
    assert all[1..] == parts;
    SplitJoin(all, c);
  }

  // ---------------------------------------------------------------------------
  // Sample names

  /** `piece` without the whitespace at its left and/or right end. */
  function Trim(piece: string, left: bool, right: bool): string
  {
    var p := if left then LStrip(piece) else piece;
    if right then RStrip(p) else p
  }

  /** `re.split(r'\s*,\s*', names)`: the pieces between commas, each without
      the whitespace next to a comma.  Whitespace at either end of `names` stays. */
  function CommaSplit(names: string): (r: seq<string>)
    ensures |r| == |Split(names, ',')|
  {
    var parts := Split(names, ',');
    seq(|parts|, k requires 0 <= k < |parts| => Trim(parts[k], k > 0, k < |parts| - 1))
  }

  /** Trimming keeps only characters of the piece and leaves no whitespace on a trimmed side. */
  lemma TrimShape(piece: string, left: bool, right: bool, ch: char)
    ensures var t := Trim(piece, left, right);
      && (ch in t ==> ch in piece)
      && (left && |t| > 0 ==> !IsSpace(t[0]))
      && (right && |t| > 0 ==> !IsSpace(t[|t| - 1]))
  {
    var p := if left then LStrip(piece) else piece;
    var t := Trim(piece, left, right);
    var start := |piece| - |p|;
    assert p == piece[start..];
    assert t == p[..|t|];
    if ch in t {
      var k :| 0 <= k < |t| && t[k] == ch;
      assert piece[start + k] == ch;
    }
    if left && |t| > 0 {
      assert t[0] == p[0];
    }
  }

  /** Every name is comma-free and has no whitespace on a side that touched a comma. */
  lemma CommaSplitShape(names: string)
    ensures var r := CommaSplit(names);
      forall k :: 0 <= k < |r| ==>
        && ',' !in r[k]
        && (k > 0 && |r[k]| > 0 ==> !IsSpace(r[k][0]))
        && (k < |r| - 1 && |r[k]| > 0 ==> !IsSpace(r[k][|r[k]| - 1]))
  {
    var parts := Split(names, ',');
    var r := CommaSplit(names);
    forall k | 0 <= k < |r|
      ensures ',' !in r[k]
      ensures k > 0 && |r[k]| > 0 ==> !IsSpace(r[k][0])
      ensures k < |r| - 1 && |r[k]| > 0 ==> !IsSpace(r[k][|r[k]| - 1])
    {
      assert r[k] == Trim(parts[k], k > 0, k < |r| - 1);
      TrimShape(parts[k], k > 0, k < |r| - 1, ',');
    }
  }

  /** `parts` with the whitespace `pad` on every side that touches a comma. */
  function Padded(parts: seq<string>, pad: string): seq<string>
  {
    seq(|parts|, k requires 0 <= k < |parts| =>
      (if k > 0 then pad else "") + parts[k] + (if k < |parts| - 1 then pad else ""))
  }

  predicate Tight(p: string)
  {
    |p| == 0 || (!IsSpace(p[0]) && !IsSpace(p[|p| - 1]))
  }

  /** Splitting names joined by commas with whitespace around them gives the
      names back: the whitespace next to the commas is dropped. */
  lemma CommaSplitDropsPadding(parts: seq<string>, pad: string)
    requires |parts| >= 1 && AllSpace(pad) && ',' !in pad
    requires forall k :: 0 <= k < |parts| ==> ',' !in parts[k] && Tight(parts[k])
    ensures CommaSplit(Join(Padded(parts, pad), ',')) == parts
  {
    var padded := Padded(parts, pad);
    forall k | 0 <= k < |padded| ensures ',' !in padded[k] {
      var left := if k > 0 then pad else "";
      var right := if k < |parts| - 1 then pad else "";
      assert padded[k] == left + parts[k] + right;
    }
    SplitJoin(padded, ',');
    var r := CommaSplit(Join(padded, ','));
    forall k | 0 <= k < |parts| ensures r[k] == parts[k] {
      TrimPadded(parts[k], pad, k > 0, k < |parts| - 1);
    }
  }

  lemma TrimPadded(p: string, pad: string, left: bool, right: bool)
    requires AllSpace(pad) && Tight(p)
    ensures Trim((if left then pad else "") + p + (if right then pad else ""), left, right) == p
  {
    var l := if left then pad else "";
    var r := if right then pad else "";
    if left {
      LStripPaddedText(pad, p, r);
      if right {
        if |p| > 0 {
          RStripTight(p, r);
        }
      } else {
        assert p + r == p;
      }
    } else {
      assert l + p + r == p + r;
      if right {
        RStripTight(p, r);
      } else {
        assert p + r == p;
      }
    }
  }

  lemma LStripPaddedText(pad: string, p: string, r: string)
    requires AllSpace(pad) && AllSpace(r) && Tight(p)
    ensures LStrip(pad + p + r) == if |p| > 0 then p + r else ""
  {
    AppendAssoc(pad, p, r);
    LStripPadded(pad, p + r);
    if |p| > 0 {
      assert (p + r)[0] == p[0];
    } else {
      AppendEmpty(r);
      LStripPadded(r, "");
    }
  }

  lemma RStripTight(p: string, r: string)
    requires AllSpace(r) && Tight(p)
    ensures RStrip(p + r) == p
  {
    RStripPadded(p, r);
  }

  lemma {:induction false} LStripPadded(pad: string, s: string)
    requires AllSpace(pad)
    ensures LStrip(pad + s) == LStrip(s)
    decreases |pad|
  {
    if |pad| > 0 {
      DropFirst(pad, s);
      LStripPadded(pad[1..], s);
    } else {
      AppendEmpty(s);
    }
  }

  /** `str.splitlines()` for text whose lines end in `\n`: the lines without
      their terminators, with no empty line after a final newline. */
  function SplitLines(text: string): (lines: seq<string>)
    ensures forall k :: 0 <= k < |lines| ==> NEWLINE !in lines[k]
  {
    var parts := Split(text, NEWLINE);
    if parts[|parts| - 1] == "" then parts[..|parts| - 1] else parts
  }

  /** The lines joined with newlines give the text back, apart from its final newline. */
  lemma SplitLinesRoundTrip(text: string)
    ensures var lines := SplitLines(text);
      Join(lines, NEWLINE) + (if |lines| > 0 && EndsWith(text, [NEWLINE]) then [NEWLINE] else []) == text
  {
    var parts := Split(text, NEWLINE);
    JoinSplit(text, NEWLINE);
    SplitEndingInSeparator(text, NEWLINE);
    var n := |parts|;
    if parts[n - 1] == "" && n >= 2 {
      var init := parts[..n - 1];
      assert init + [parts[n - 1]] == parts;
      assert Join(parts, NEWLINE) == Join(init, NEWLINE) + [NEWLINE] + "";
      assert text[|text| - 1..] == [NEWLINE];
    }
  }

  /** A string that ends with the separator has an empty last field. */
  lemma SplitEndingInSeparator(s: string, c: char)
    ensures |s| > 0 && s[|s| - 1] == c ==> Split(s, c)[|Split(s, c)| - 1] == ""
  {
  }

  /** `get_sample_names`: a non-empty `--names` split at commas; otherwise the
      lines of the `--list` file when it names a regular file; otherwise none. */
  function SampleNames(names: string, list: string, fs: FileSystem, readText: string -> string): (r: seq<string>)
    ensures |names| > 0 ==> r == CommaSplit(names) && |r| == |Split(names, ',')| >= 1
    ensures |names| > 0 ==> forall k :: 0 <= k < |r| ==> ',' !in r[k]
    ensures |names| == 0 && |list| > 0 && IsFile(fs, list) ==> r == SplitLines(readText(list))
    ensures |names| == 0 && |list| > 0 && IsFile(fs, list) ==> forall k :: 0 <= k < |r| ==> NEWLINE !in r[k]
    ensures |names| == 0 && !(|list| > 0 && IsFile(fs, list)) ==> r == []
  {
    if |names| > 0 then CommaSplitShape(names); CommaSplit(names)
    else if |list| > 0 && IsFile(fs, list) then SplitLines(readText(list))
    else []
  }

  // ---------------------------------------------------------------------------
  // Columns of the table

  /** A cell as pandas reads it; an empty cell is missing (NaN). */
  datatype Value = Missing | Present(text: string)

  /** `==` on two cells: a missing value equals nothing, not even itself. */
  predicate SameValue(x: Value, y: Value)
  {
    x.Present? && y.Present? && x.text == y.text
  }

  /** One column with the sample name of each row. */
  datatype Series = Series(index: seq<string>, values: seq<Value>)

  predicate ValidSeries(s: Series)
  {
    |s.index| == |s.values|
  }

  /** The table read with its first column as the row index; `cells[c]` is column `c`. */
  datatype Table = Table(index: seq<string>, columns: seq<string>, cells: seq<seq<Value>>)

  predicate ValidTable(t: Table)
  {
    |t.cells| == |t.columns| && forall c :: 0 <= c < |t.cells| ==> |t.cells[c]| == |t.index|
  }

  predicate Distinct<L(==)>(s: seq<L>)
  {
    forall i, j :: 0 <= i < j < |s| ==> s[i] != s[j]
  }

  /** The rows of `s` labelled `name`, in order (pandas' `.loc[name]`). */
  function RowsNamed(s: Series, name: string): (r: Series)
    requires ValidSeries(s)
    ensures ValidSeries(r)
    ensures forall k :: 0 <= k < |r.index| ==> r.index[k] == name
    ensures |r.index| == 0 <==> name !in s.index
    decreases |s.index|
  {
    var n := |s.index|;
    if n == 0 then Series([], [])
    else
      var init := Series(s.index[..n - 1], s.values[..n - 1]);
      var front := RowsNamed(init, name);
      assert s.index == init.index + [s.index[n - 1]];
      if s.index[n - 1] == name then Series(front.index + [name], front.values + [s.values[n - 1]])
      else front
  }

  /** With distinct labels the rows named `s.index[p]` are row `p` alone. */
  lemma {:induction false} RowsNamedDistinct(s: Series, p: nat)
    requires ValidSeries(s) && Distinct(s.index) && p < |s.index|
    ensures RowsNamed(s, s.index[p]) == Series([s.index[p]], [s.values[p]])
    decreases |s.index|
  {
    var n := |s.index|;
    var init := Series(s.index[..n - 1], s.values[..n - 1]);
    if p == n - 1 {
      assert s.index[p] !in init.index;
    } else {
      RowsNamedDistinct(init, p);
    }
  }

  /** `data.loc[names]`: the rows named in `names`, in that order, or the first
      name that labels no row (pandas raises `KeyError`). */
  function Restrict(s: Series, names: seq<string>): (r: Result<Series, string>)
    requires ValidSeries(s)
    ensures r.Ok? ==> ValidSeries(r.value)
    decreases |names|
  {
    if |names| == 0 then Ok(Series([], []))
    else
      match Restrict(s, names[..|names| - 1])
      case Err(e) => Err(e)
      case Ok(front) =>
        var rows := RowsNamed(s, names[|names| - 1]);
        if |rows.index| == 0 then Err(names[|names| - 1])
        else Ok(Series(front.index + rows.index, front.values + rows.values))
  }

  /** Restricting fails exactly on a name that labels no row, and reports the
      first such name. */
  lemma {:induction false} RestrictFails(s: Series, names: seq<string>)
    requires ValidSeries(s)
    ensures Restrict(s, names).Ok? <==> forall k :: 0 <= k < |names| ==> names[k] in s.index
    ensures Restrict(s, names).Err? ==>
      exists k :: && 0 <= k < |names| && names[k] == Restrict(s, names).error
                  && names[k] !in s.index && forall j :: 0 <= j < k ==> names[j] in s.index
    decreases |names|
  {
    if |names| > 0 {
      var init := names[..|names| - 1];
      RestrictFails(s, init);
      assert forall k :: 0 <= k < |init| ==> init[k] == names[k];
      if Restrict(s, init).Err? {
        var k :| 0 <= k < |init| && init[k] == Restrict(s, init).error
          && init[k] !in s.index && forall j :: 0 <= j < k ==> init[j] in s.index;
        assert names[k] == Restrict(s, names).error;
      }
    }
  }

  /** With distinct sample labels, restricting keeps exactly the named rows:
      the labels are `names` and each value is that sample's value. */
  lemma {:induction false} RestrictDistinct(s: Series, names: seq<string>)
    requires ValidSeries(s) && Distinct(s.index)
    requires Restrict(s, names).Ok?
    ensures var r := Restrict(s, names).value;
      && r.index == names
      && forall k :: 0 <= k < |names| ==>
           names[k] in s.index && r.values[k] == s.values[IndexOf(s.index, names[k])]
    decreases |names|
  {
    if |names| > 0 {
      var init := names[..|names| - 1];
      var last := names[|names| - 1];
      RestrictDistinct(s, init);
      var p := IndexOf(s.index, last);
      RowsNamedDistinct(s, p);
      InitLast(names);
    }
  }

  /** The first position of `x` in `s`. */
  function IndexOf<L(==)>(s: seq<L>, x: L): (p: nat)
    requires x in s
    ensures p < |s| && s[p] == x
    ensures forall j :: 0 <= j < p ==> s[j] != x
  {
    if s[0] == x then 0 else 1 + IndexOf(s[1..], x)
  }

  lemma IndexOfDistinct<L>(s: seq<L>, p: nat)
    requires Distinct(s) && p < |s|
    ensures IndexOf(s, s[p]) == p
  {
  }

  // ---------------------------------------------------------------------------
  // The discrete matrix

  /** A square matrix with the same labels on both axes; `cells[(col, row)]`. */
  datatype Frame = Frame(labels: seq<string>, cells: map<(string, string), bool>)

  /** The entry of `discrete_vals` for samples `a` and `b`: 1 on the diagonal,
      elsewhere whether their values are equal. */
  predicate Entry<L(==)>(index: seq<L>, values: seq<Value>, a: L, b: L)
    requires |index| == |values| && a in index && b in index
  {
    a == b || SameValue(values[IndexOf(index, a)], values[IndexOf(index, b)])
  }

  /** The entries for every pair of labels. */
  function Grid<L(==)>(index: seq<L>, values: seq<Value>): map<(L, L), bool>
    requires |index| == |values|
  {
    map a, b | a in index && b in index :: (a, b) := Entry(index, values, a, b)
  }

  lemma GridAt<L>(index: seq<L>, values: seq<Value>, a: L, b: L)
    requires |index| == |values| && a in index && b in index
    ensures (a, b) in Grid(index, values) && Grid(index, values)[(a, b)] == Entry(index, values, a, b)
  {
  }

  lemma GridKeys<L>(index: seq<L>, values: seq<Value>, key: (L, L))
    requires |index| == |values| && key in Grid(index, values)
    ensures key.0 in index && key.1 in index
  {
  }

  /** The matrix `discrete_vals` returns for a column with distinct sample labels. */
  function DiscreteMatrix(s: Series): Frame
    requires ValidSeries(s)
  {
    Frame(Sort(s.index), Grid(s.index, s.values))
  }

  /** The discrete matrix has the sorted sample names on both axes, one entry
      per pair, 1 on the diagonal, is symmetric, and off the diagonal holds
      whether the two samples' values are equal. */
  lemma DiscreteMatrixShape(s: Series)
    requires ValidSeries(s)
    ensures var m := DiscreteMatrix(s);
      && Sorted(m.labels) && multiset(m.labels) == multiset(s.index)
      && (forall a, b :: (a, b) in m.cells <==> a in s.index && b in s.index)
      && (forall a, b :: (a, b) in m.cells ==> m.cells[(a, b)] == m.cells[(b, a)])
      && (forall a :: a in s.index ==> m.cells[(a, a)])
      && (forall p, q :: 0 <= p < |s.index| && 0 <= q < |s.index| && s.index[p] != s.index[q] && Distinct(s.index) ==>
            m.cells[(s.index[p], s.index[q])] == SameValue(s.values[p], s.values[q]))
  {
    GridShape(s.index, s.values);
  }

  /** The entries form a symmetric matrix over the labels with a true
      diagonal, whose other entries compare the values. */
  lemma GridShape<L>(index: seq<L>, values: seq<Value>)
    requires |index| == |values|
    ensures var g := Grid(index, values);
      && (forall a, b :: (a, b) in g <==> a in index && b in index)
      && (forall a, b :: (a, b) in g ==> g[(a, b)] == g[(b, a)])
      && (forall a :: a in index ==> g[(a, a)])
      && (forall p, q :: 0 <= p < |index| && 0 <= q < |index| && index[p] != index[q] && Distinct(index) ==>
            g[(index[p], index[q])] == SameValue(values[p], values[q]))
  {
    forall p, q | 0 <= p < |index| && 0 <= q < |index| && Distinct(index)
      ensures IndexOf(index, index[p]) == p && IndexOf(index, index[q]) == q
    {
      IndexOfDistinct(index, p);
      IndexOfDistinct(index, q);
    }
  }

  /** The pairs of rows `p`, `q` that `combinations` has visited once the
      outer loop is at `i` and the inner at `j`. */
  predicate Visited(p: int, q: int, i: int, j: int)
  {
    p != q && (p < i || q < i || (p == i && q < j) || (q == i && p < j))
  }

  /** Every pair of sample labels is a key of `cells`. */
  predicate OnGrid<L(==)>(cells: map<(L, L), bool>, index: seq<L>)
  {
    forall p, q :: 0 <= p < |index| && 0 <= q < |index| ==> (index[p], index[q]) in cells
  }

  /** Every key of `cells` is a pair of sample labels. */
  predicate WithinGrid<L(==)>(cells: map<(L, L), bool>, index: seq<L>)
  {
    forall key :: key in cells ==> key.0 in index && key.1 in index
  }

  /** `cells` with both entries of the pair `a`, `b` set to `val`. */
  function SetPair<L(==)>(cells: map<(L, L), bool>, a: L, b: L, val: bool): map<(L, L), bool>
  {
    cells[(a, b) := val][(b, a) := val]
  }

  /** Setting entries that exist keeps the keys. */
  lemma SetBoth<L>(index: seq<L>, cells: map<(L, L), bool>, i: nat, j: nat, val: bool)
    requires i < |index| && j < |index| && OnGrid(cells, index)
    ensures SetPair(cells, index[i], index[j], val).Keys == cells.Keys
  {
  }

  /** The entry for `(p, q)` after setting both entries of the pair `(i, j)`. */
  lemma UpdateOne<L>(index: seq<L>, cells: map<(L, L), bool>, i: nat, j: nat, p: nat, q: nat, val: bool)
    requires Distinct(index) && i < |index| && j < |index| && p < |index| && q < |index|
    requires (index[p], index[q]) in cells
    ensures var next := SetPair(cells, index[i], index[j], val);
      next[(index[p], index[q])] == if (p == i && q == j) || (p == j && q == i) then val else cells[(index[p], index[q])]
  {
    if !((p == i && q == j) || (p == j && q == i)) {
      assert p != i ==> index[p] != index[i];
      assert p != j ==> index[p] != index[j];
      assert q != i ==> index[q] != index[i];
      assert q != j ==> index[q] != index[j];
    }
  }

  /** Every visited pair holds whether its values are equal; the rest still hold 1. */
  predicate VisitedEntries<L(==)>(cells: map<(L, L), bool>, index: seq<L>, values: seq<Value>, i: int, j: int)
    requires |index| == |values| && OnGrid(cells, index)
  {
    forall p, q :: 0 <= p < |index| && 0 <= q < |index| ==>
      cells[(index[p], index[q])] == (Visited(p, q, i, j) ==> SameValue(values[p], values[q]))
  }

  /** Setting both entries of the pair `(i, j)` visits that pair and no other. */
  lemma VisitPair<L>(index: seq<L>, values: seq<Value>, cells: map<(L, L), bool>, i: nat, j: nat)
    requires Distinct(index) && i < j < |index| && Progress(cells, index, values, i, j)
    ensures var next := SetPair(cells, index[i], index[j], SameValue(values[i], values[j]));
      Progress(next, index, values, i, j + 1) && next.Keys == cells.Keys
  {
    var val := SameValue(values[i], values[j]);
    var next := SetPair(cells, index[i], index[j], val);
    SetBoth(index, cells, i, j, val);
    forall p, q | 0 <= p < |index| && 0 <= q < |index|
      ensures next[(index[p], index[q])] == (Visited(p, q, i, j + 1) ==> SameValue(values[p], values[q]))
    {
      UpdateOne(index, cells, i, j, p, q, val);
      assert cells[(index[p], index[q])] == (Visited(p, q, i, j) ==> SameValue(values[p], values[q]));
    }
  }

  /** The end of one row of pairs is the start of the next. */
  lemma NextRow<L>(index: seq<L>, values: seq<Value>, cells: map<(L, L), bool>, i: nat)
    requires |index| == |values| && i < |index|
    requires OnGrid(cells, index) && VisitedEntries(cells, index, values, i, |index|)
    ensures VisitedEntries(cells, index, values, i + 1, i + 2)
  {
    var n := |index|;
    forall p, q | 0 <= p < n && 0 <= q < n ensures Visited(p, q, i, n) == Visited(p, q, i + 1, i + 2) {
    }
  }

  /** The entry for one pair of labels once every pair is visited. */
  lemma VisitedKey<L>(index: seq<L>, values: seq<Value>, cells: map<(L, L), bool>, key: (L, L))
    requires |index| == |values|
    requires OnGrid(cells, index)
    requires VisitedEntries(cells, index, values, |index|, |index| + 1)
    requires key.0 in index && key.1 in index
    ensures key in cells && key in Grid(index, values) && cells[key] == Grid(index, values)[key]
  {
    var p := IndexOf(index, key.0);
    var q := IndexOf(index, key.1);
    GridAt(index, values, key.0, key.1);
    assert key == (index[p], index[q]);
    assert cells[(index[p], index[q])] == (Visited(p, q, |index|, |index| + 1) ==> SameValue(values[p], values[q]));
  }
  /** Maps with the same keys and the same entries are equal. */
  lemma SameMap<K, V>(m: map<K, V>, m': map<K, V>)
    requires forall k :: k in m ==> k in m' && m[k] == m'[k]
    requires forall k :: k in m' ==> k in m
    ensures m == m'
  {
    assert m.Keys == m'.Keys;
  }
  /** Once every pair is visited the entries are those of the discrete matrix. */
  lemma AllVisited<L>(index: seq<L>, values: seq<Value>, cells: map<(L, L), bool>)
    requires |index| == |values|
    requires OnGrid(cells, index) && WithinGrid(cells, index)
    requires VisitedEntries(cells, index, values, |index|, |index| + 1)
    ensures cells == Grid(index, values)
  {
    var spec := Grid(index, values);
    forall key | key in cells ensures key in spec && cells[key] == spec[key] {
      VisitedKey(index, values, cells, key);
    }
    forall key | key in spec ensures key in cells {
      GridKeys(index, values, key);
      VisitedKey(index, values, cells, key);
    }
    SameMap(cells, spec);
  }
  /** `pd.DataFrame(1, index=labels, columns=labels)`. */
  function Ones<L(==)>(labels: seq<L>): map<(L, L), bool>
  {
    map a, b | a in labels && b in labels :: (a, b) := true
  }

  /** The matrix of 1s over the sorted labels is the state before any pair is visited. */
  lemma OnesStart<L>(labels: seq<L>, index: seq<L>, values: seq<Value>)
    requires |index| == |values| && multiset(labels) == multiset(index)
    ensures var cells := Ones(labels);
      OnGrid(cells, index) && VisitedEntries(cells, index, values, 0, 1)
  {
    var cells := Ones(labels);
    forall a ensures a in labels <==> a in index {
      assert a in labels <==> a in multiset(labels);
      assert a in index <==> a in multiset(index);
    }
    forall key | key in cells ensures key.0 in index && key.1 in index {
    }
  }
  /** The state of the pair loop before visiting the pair `(i, j)`. */
  predicate Progress<L(==)>(cells: map<(L, L), bool>, index: seq<L>, values: seq<Value>, i: int, j: int)
  {
    |index| == |values| && OnGrid(cells, index) && VisitedEntries(cells, index, values, i, j)
  }

  /** The keys of `cells` are those of the matrix of 1s it started as. */
  lemma Finished<L>(index: seq<L>, values: seq<Value>, ordered: seq<L>, cells: map<(L, L), bool>)
    requires |index| == |values| && multiset(ordered) == multiset(index)
    requires cells.Keys == Ones(ordered).Keys
    requires Progress(cells, index, values, |index|, |index| + 1)
    ensures cells == Grid(index, values)
  {
    forall a ensures a in ordered <==> a in index {
      assert a in ordered <==> a in multiset(ordered);
      assert a in index <==> a in multiset(index);
    }
    forall key | key in cells ensures key.0 in index && key.1 in index {
      assert key in Ones(ordered);
    }
    AllVisited(index, values, cells);
  }

  /** The inner loop of `discrete_vals`: row `i` is paired with each later row. */
  method VisitRow<L(==)>(index: seq<L>, values: seq<Value>, start: map<(L, L), bool>, i: nat)
    returns (cells: map<(L, L), bool>)
    requires Distinct(index) && i < |index| && Progress(start, index, values, i, i + 1)
    ensures Progress(cells, index, values, i + 1, i + 2) && cells.Keys == start.Keys
  {
    cells := start;
    for j := i + 1 to |index|
      invariant Progress(cells, index, values, i, j)
      invariant cells.Keys == start.Keys
    {
      VisitPair(index, values, cells, i, j);
      cells := SetPair(cells, index[i], index[j], SameValue(values[i], values[j]));
    }
    NextRow(index, values, cells, i);
  }

  /** The loop of `discrete_vals`: each pair of rows, in `itertools.combinations`
      order, sets both of its entries to whether the two values are equal. */
  method SetPairs<L(==)>(index: seq<L>, values: seq<Value>, ordered: seq<L>, start: map<(L, L), bool>)
    returns (cells: map<(L, L), bool>)
    requires |index| == |values| && Distinct(index) && multiset(ordered) == multiset(index)
    requires start == Ones(ordered)
    ensures cells == Grid(index, values)
  {
    var n := |index|;
    cells := start;
    OnesStart(ordered, index, values);
    ghost var keys := cells.Keys;
    for i := 0 to n
      invariant Progress(cells, index, values, i, i + 1)
      invariant cells.Keys == keys
    {
      cells := VisitRow(index, values, cells, i);
    }
    Finished(index, values, ordered, cells);
  }

  /** `discrete_vals`: a matrix of 1s over the sorted sample names, whose
      entries for each pair of distinct rows are then set by `SetPairs`. */
  method DiscreteVals(data: Series) returns (m: Frame)
    requires ValidSeries(data) && Distinct(data.index)
    ensures m == DiscreteMatrix(data)
  {
    var ordered := Sort(data.index);
    var cells := SetPairs(data.index, data.values, ordered, Ones(ordered));
    m := Frame(ordered, cells);
  }

  /** One turn of the column loop of `main`, taken out of `RunColumns` so that
      the loop's proof stays small; it computes what `ColumnStep` specifies,
      which is where the properties of a turn are proved. */
  method Column(outDir: string, t: Table, c: nat, restrict: seq<string>) returns (r: Result<ColumnOutput, Stop>)
    requires ValidTable(t) && c < |t.columns|
    ensures r == Steps(outDir, t, restrict)[c]
  {
    assert Steps(outDir, t, restrict)[c] == ColumnStep(outDir, t, c, restrict);
    var col := t.columns[c];
    var selected := ColumnData(t, c, restrict);
    if selected.Err? {
      return Err(MissingSample(selected.error));
    }
    var data := selected.value;
    match ColumnKind(col) {
      case None =>
        r := Ok(NoData(col));
      case Some(Discrete) =>
        if !Distinct(data.index) {
          return Err(DuplicateLabels(col));
        }
        var matrix := DiscreteVals(data);
        r := Ok(DiscreteWritten(OutputPath(outDir, col), matrix));
      case Some(k) =>
        r := Ok(NumericWritten(OutputPath(outDir, col), k));
    }
  }

  // ---------------------------------------------------------------------------
  // The column loop

  datatype Exit = MetaUnreadable | BadHeaders | EucDistOutOfRange | NegativeSampleDist

  /** Why the column loop stops early: a named sample is not in the table
      (`KeyError`), or a discrete column's samples are not distinct. */
  datatype Stop = MissingSample(name: string) | DuplicateLabels(col: string)

  /** What one column produces: a discrete matrix written to `path`, a
      floating-point matrix of the given kind written to `path`, or the
      "No data" message. */
  datatype ColumnOutput =
    | DiscreteWritten(path: string, frame: Frame)
    | NumericWritten(path: string, kind: Kind)
    | NoData(col: string)

  datatype Outcome =
    | Exited(reason: Exit)
    | Stopped(written: seq<ColumnOutput>, stop: Stop)
    | Done(written: seq<ColumnOutput>)

  /** The data of column `c`: only the named samples when there are any. */
  function ColumnData(t: Table, c: nat, restrict: seq<string>): (r: Result<Series, string>)
    requires ValidTable(t) && c < |t.columns|
    ensures r.Ok? ==> ValidSeries(r.value)
  {
    var all := Series(t.index, t.cells[c]);
    if |restrict| > 0 then Restrict(all, restrict) else Ok(all)
  }

  function OutputPath(outDir: string, col: string): string
  {
    PathJoin(outDir, col + ".meta")
  }

  /** One turn of the column loop. */
  function ColumnStep(outDir: string, t: Table, c: nat, restrict: seq<string>): Result<ColumnOutput, Stop>
    requires ValidTable(t) && c < |t.columns|
  {
    var col := t.columns[c];
    match ColumnData(t, c, restrict)
    case Err(name) => Err(MissingSample(name))
    case Ok(data) =>
      match ColumnKind(col)
      case None => Ok(NoData(col))
      case Some(Discrete) =>
        if Distinct(data.index) then Ok(DiscreteWritten(OutputPath(outDir, col), DiscreteMatrix(data)))
        else Err(DuplicateLabels(col))
      case Some(k) => Ok(NumericWritten(OutputPath(outDir, col), k))
  }

  /** The turn of every column, in order. */
  function Steps(outDir: string, t: Table, restrict: seq<string>): seq<Result<ColumnOutput, Stop>>
    requires ValidTable(t)
  {
    seq(|t.columns|, c requires 0 <= c < |t.columns| => ColumnStep(outDir, t, c, restrict))
  }

  /** The first `n` turns in order, up to the first that stops the loop. */
  function Run(steps: seq<Result<ColumnOutput, Stop>>, n: nat): Outcome
    requires n <= |steps|
  {
    if n == 0 then Done([])
    else
      match Run(steps, n - 1)
      case Done(w) =>
        (match steps[n - 1]
         case Err(stop) => Stopped(w, stop)
         case Ok(o) => Done(w + [o]))
      case other => other
  }

  /** The whole column loop. */
  function Columns(outDir: string, t: Table, restrict: seq<string>): Outcome
    requires ValidTable(t)
  {
    Run(Steps(outDir, t, restrict), |t.columns|)
  }

  /** One more turn of a loop that has not stopped. */
  lemma RunNext(steps: seq<Result<ColumnOutput, Stop>>, n: nat, w: seq<ColumnOutput>)
    requires n < |steps| && Run(steps, n) == Done(w)
    ensures steps[n].Err? ==> Run(steps, n + 1) == Stopped(w, steps[n].error)
    ensures steps[n].Ok? ==> Run(steps, n + 1) == Done(w + [steps[n].value])
  {
  }

  /** Once the loop has stopped, later turns change nothing. */
  lemma {:induction false} RunStaysStopped(steps: seq<Result<ColumnOutput, Stop>>, n: nat, m: nat)
    requires n <= m <= |steps|
    requires Run(steps, n).Stopped?
    ensures Run(steps, m) == Run(steps, n)
    decreases m
  {
    if m > n {
      RunStaysStopped(steps, n, m - 1);
    }
  }

  /** A loop that finishes holds, in order, the output of each turn. */
  lemma {:induction false} RunWritten(steps: seq<Result<ColumnOutput, Stop>>, n: nat)
    requires n <= |steps|
    requires Run(steps, n).Done?
    ensures var w := Run(steps, n).written;
      |w| == n && forall c :: 0 <= c < n ==> steps[c] == Ok(w[c])
  {
    if n > 0 {
      RunWritten(steps, n - 1);
    }
  }

  /** A loop that stops does so on the first turn that fails, after the
      outputs of the turns before it. */
  lemma {:induction false} RunStopped(steps: seq<Result<ColumnOutput, Stop>>, n: nat)
    requires n <= |steps|
    requires Run(steps, n).Stopped?
    ensures var r := Run(steps, n);
      exists c ::
        && 0 <= c < n && steps[c] == Err(r.stop) && |r.written| == c
        && forall d :: 0 <= d < c ==> steps[d] == Ok(r.written[d])
  {
    if Run(steps, n - 1).Stopped? {
      RunStopped(steps, n - 1);
    } else {
      RunWritten(steps, n - 1);
      assert steps[n - 1] == Err(Run(steps, n).stop);
    }
  }

  /** A loop whose every turn succeeds finishes. */
  lemma {:induction false} RunFinishes(steps: seq<Result<ColumnOutput, Stop>>, n: nat)
    requires n <= |steps|
    requires forall c :: 0 <= c < n ==> steps[c].Ok?
    ensures Run(steps, n).Done?
  {
    if n > 0 {
      RunFinishes(steps, n - 1);
    }
  }

  /** The output a column gives when the loop continues past it. */
  predicate Dispatched(outDir: string, col: string, o: ColumnOutput)
  {
    match ColumnKind(col)
    case None => o == NoData(col)
    case Some(Discrete) => o.DiscreteWritten? && o.path == OutputPath(outDir, col)
    case Some(k) => o == NumericWritten(OutputPath(outDir, col), k)
  }

  /** A column that does not stop the loop gives the output its suffix selects. */
  lemma StepDispatched(outDir: string, t: Table, c: nat, restrict: seq<string>)
    requires ValidTable(t) && c < |t.columns|
    ensures var r := ColumnStep(outDir, t, c, restrict);
      r.Ok? ==> Dispatched(outDir, t.columns[c], r.value)
  {
  }

  /** A discrete matrix is over the named samples, or over all of them when
      none are named. */
  lemma StepRows(outDir: string, t: Table, c: nat, restrict: seq<string>)
    requires ValidTable(t) && c < |t.columns| && Distinct(t.index)
    ensures var r := ColumnStep(outDir, t, c, restrict);
      r.Ok? && r.value.DiscreteWritten? ==> r.value.frame.labels == Sort(if |restrict| > 0 then restrict else t.index)
  {
    if |restrict| > 0 && ColumnData(t, c, restrict).Ok? {
      RestrictDistinct(Series(t.index, t.cells[c]), restrict);
    }
  }

  /** A column stops the loop on a named sample missing from the table, and
      never when each named sample is in the table once. */
  lemma StepStops(outDir: string, t: Table, c: nat, restrict: seq<string>)
    requires ValidTable(t) && c < |t.columns|
    ensures var r := ColumnStep(outDir, t, c, restrict);
      r.Err? && r.error.MissingSample? ==> r.error.name in restrict && r.error.name !in t.index
    ensures Distinct(t.index) && Distinct(restrict) && (forall k :: 0 <= k < |restrict| ==> restrict[k] in t.index) ==>
      ColumnStep(outDir, t, c, restrict).Ok?
  {
    var all := Series(t.index, t.cells[c]);
    if |restrict| > 0 {
      RestrictFails(all, restrict);
      if Distinct(t.index) && Restrict(all, restrict).Ok? {
        RestrictDistinct(all, restrict);
      }
    }
  }

  /** A finished loop has one output per column, each the one its suffix selects. */
  lemma ColumnsDispatch(outDir: string, t: Table, restrict: seq<string>)
    requires ValidTable(t)
    requires Columns(outDir, t, restrict).Done?
    ensures var w := Columns(outDir, t, restrict).written;
      |w| == |t.columns| && forall c :: 0 <= c < |w| ==> Dispatched(outDir, t.columns[c], w[c])
  {
    var steps := Steps(outDir, t, restrict);
    RunWritten(steps, |steps|);
    var w := Columns(outDir, t, restrict).written;
    forall c | 0 <= c < |w|
      ensures Dispatched(outDir, t.columns[c], w[c])
    {
      StepDispatched(outDir, t, c, restrict);
    }
  }

  /** With distinct sample labels in the table, every discrete matrix of a
      finished loop is over the named samples, or over all samples when none
      are named. */
  lemma ColumnsUseSelectedRows(outDir: string, t: Table, restrict: seq<string>)
    requires ValidTable(t) && Distinct(t.index)
    requires Columns(outDir, t, restrict).Done?
    ensures var w := Columns(outDir, t, restrict).written;
      forall c :: 0 <= c < |w| && w[c].DiscreteWritten? ==>
        w[c].frame.labels == Sort(if |restrict| > 0 then restrict else t.index)
  {
    var steps := Steps(outDir, t, restrict);
    RunWritten(steps, |steps|);
    var w := Columns(outDir, t, restrict).written;
    forall c | 0 <= c < |w| && w[c].DiscreteWritten?
      ensures w[c].frame.labels == Sort(if |restrict| > 0 then restrict else t.index)
    {
      StepRows(outDir, t, c, restrict);
    }
  }

  /** The loop stops on a missing sample only when a named sample is not in the table. */
  lemma ColumnsStopOnMissing(outDir: string, t: Table, restrict: seq<string>)
    requires ValidTable(t)
    ensures var r := Columns(outDir, t, restrict);
      r.Stopped? && r.stop.MissingSample? ==> r.stop.name in restrict && r.stop.name !in t.index
  {
    var steps := Steps(outDir, t, restrict);
    if Run(steps, |steps|).Stopped? {
      RunStopped(steps, |steps|);
      var c :| 0 <= c < |steps| && steps[c] == Err(Run(steps, |steps|).stop);
      StepStops(outDir, t, c, restrict);
    }
  }

  /** The loop runs through every column when the sample labels are distinct and
      each named sample is in the table once. */
  lemma ColumnsComplete(outDir: string, t: Table, restrict: seq<string>)
    requires ValidTable(t)
    requires Distinct(t.index) && Distinct(restrict)
    requires forall k :: 0 <= k < |restrict| ==> restrict[k] in t.index
    ensures Columns(outDir, t, restrict).Done?
  {
    var steps := Steps(outDir, t, restrict);
    forall c | 0 <= c < |steps|
      ensures steps[c].Ok?
    {
      StepStops(outDir, t, c, restrict);
    }
    RunFinishes(steps, |steps|);
  }

  /** `main` after the options are read: the sample names are gathered first,
      then the header line, `--eucdistper` and `--sampledist` are checked in
      that order, then each column of the table is dispatched on its suffix. */
  method MakeMetadata(meta: string, outDir: string, eucDistPer: real, sampleDist: int,
                      names: string, list: string, fs: FileSystem, readText: string -> string,
                      table: Table) returns (r: Outcome)
    requires ValidTable(table)
    ensures !IsFile(fs, meta) ==> r == Exited(MetaUnreadable)
    ensures IsFile(fs, meta) && !HeadersOk(readText(meta)) ==> r == Exited(BadHeaders)
    ensures IsFile(fs, meta) && HeadersOk(readText(meta)) && !(0.0 < eucDistPer < 1.0) ==>
      r == Exited(EucDistOutOfRange)
    ensures IsFile(fs, meta) && HeadersOk(readText(meta)) && 0.0 < eucDistPer < 1.0 && sampleDist < 0 ==>
      r == Exited(NegativeSampleDist)
    ensures IsFile(fs, meta) && HeadersOk(readText(meta)) && 0.0 < eucDistPer < 1.0 && sampleDist >= 0 ==>
      r == Columns(outDir, table, SampleNames(names, list, fs, readText))
  {
    var restrict := SampleNames(names, list, fs, readText);
    if !IsFile(fs, meta) {
      return Exited(MetaUnreadable);
    }
    if !HeadersOk(readText(meta)) {
      return Exited(BadHeaders);
    }
    if !(0.0 < eucDistPer < 1.0) {
      return Exited(EucDistOutOfRange);
    }
    if sampleDist < 0 {
      return Exited(NegativeSampleDist);
    }
    r := RunColumns(outDir, table, restrict);
  }

  /** The loop over the columns of the table, in order, up to the first that
      stops it. */
  method RunColumns(outDir: string, table: Table, restrict: seq<string>) returns (r: Outcome)
    requires ValidTable(table)
    ensures r == Columns(outDir, table, restrict)
  {
    ghost var steps := Steps(outDir, table, restrict);
    var written: seq<ColumnOutput> := [];
    for c := 0 to |table.columns|
      invariant Run(steps, c) == Done(written)
    {
      var step := Column(outDir, table, c, restrict);
      RunNext(steps, c, written);
      if step.Err? {
        RunStaysStopped(steps, c + 1, |steps|);
        return Stopped(written, step.error);
      }
      written := written + [step.value];
    }
    return Done(written);
  }
}
