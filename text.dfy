/** Operations on character strings shared by the three programs.

    Splitting on a one-character separator behaves the same in Rust
    (`str::split(char)`) and in Python (`str.split(char)`): the result always has
    at least one field and `join` with the same separator is its inverse.  The
    recursion runs from the end of the string, which is where the final path
    segment (a basename) lives. */
module Text {

  /** The fields of `s` between occurrences of `c`. */
  function Split(s: string, c: char): (r: seq<string>)
    ensures |r| >= 1
    ensures forall k :: 0 <= k < |r| ==> c !in r[k]
    decreases |s|
  {
    if |s| == 0 then [""]
    else
      var front := Split(s[..|s| - 1], c);
      var last := s[|s| - 1];
      if last == c then front + [""]
      else front[..|front| - 1] + [front[|front| - 1] + [last]]
  }

  /** The fields `parts` with `c` between neighbours; `[]` joins to `""`. */
  function Join(parts: seq<string>, c: char): string
    decreases |parts|
  {
    if |parts| == 0 then ""
    else if |parts| == 1 then parts[0]
    else Join(parts[..|parts| - 1], c) + [c] + parts[|parts| - 1]
  }

  /** Joining the fields of `s` gives `s` back. */
  lemma {:induction false} JoinSplit(s: string, c: char)
    ensures Join(Split(s, c), c) == s
    decreases |s|
  {
    if |s| > 0 {
      var init := s[..|s| - 1];
      var front := Split(init, c);
      JoinSplit(init, c);
      var n := |front|;
      InitLast(s);
      if s[|s| - 1] == c {
        PrefixOfAppend(front, [""]);
      } else if n > 1 {
        PrefixOfAppend(front[..n - 1], [front[n - 1] + [s[|s| - 1]]]);
        InitLast(front);
        AppendAssoc(Join(front[..n - 1], c) + [c], front[n - 1], [s[|s| - 1]]);
      }
    }
  }

  /** A string without the separator is a single field. */
  lemma {:induction false} SplitWithoutSeparator(s: string, c: char)
    requires c !in s
    ensures Split(s, c) == [s]
    decreases |s|
  {
    if |s| > 0 {
      var init := s[..|s| - 1];
      SplitWithoutSeparator(init, c);
      assert s == init + [s[|s| - 1]];
    }
  }

  /** Appending a separator and a separator-free field appends one field. */
  lemma {:induction false} SplitAppendField(a: string, b: string, c: char)
    requires c !in b
    ensures Split(a + [c] + b, c) == Split(a, c) + [b]
    decreases |b|
  {
    var s := a + [c] + b;
    if |b| == 0 {
      assert s[..|s| - 1] == a;
    } else {
      var b' := b[..|b| - 1];
      assert s[..|s| - 1] == a + [c] + b';
      SplitAppendField(a, b', c);
      var front := Split(a, c) + [b'];
      assert front[..|front| - 1] == Split(a, c);
      assert b' + [b[|b| - 1]] == b;
    }
  }

  /** Splitting the join of separator-free fields gives the fields back. */
  lemma {:induction false} SplitJoin(parts: seq<string>, c: char)
    requires |parts| >= 1
    requires forall k :: 0 <= k < |parts| ==> c !in parts[k]
    ensures Split(Join(parts, c), c) == parts
    decreases |parts|
  {
    if |parts| == 1 {
      SplitWithoutSeparator(parts[0], c);
    } else {
      var init := parts[..|parts| - 1];
      SplitJoin(init, c);
      SplitAppendField(Join(init, c), parts[|parts| - 1], c);
      assert init + [parts[|parts| - 1]] == parts;
    }
  }

  /** Every character of a join is a separator or a character of some field. */
  lemma {:induction false} JoinChars(parts: seq<string>, c: char, ch: char)
    requires ch in Join(parts, c)
    ensures ch == c || exists k :: 0 <= k < |parts| && ch in parts[k]
    decreases |parts|
  {
    if |parts| > 1 {
      var init := parts[..|parts| - 1];
      if ch in Join(init, c) && ch != c {
        JoinChars(init, c, ch);
        var k :| 0 <= k < |init| && ch in init[k];
        assert ch in parts[k];
      }
    }
  }

  /** Every character of a field is a character of the split string. */
  lemma {:induction false} SplitChars(s: string, c: char, k: nat, ch: char)
    requires k < |Split(s, c)| && ch in Split(s, c)[k]
    ensures ch in s
    decreases |s|
  {
    if |s| > 0 {
      var init := s[..|s| - 1];
      var front := Split(init, c);
      if s[|s| - 1] != c && k == |front| - 1 {
        if ch != s[|s| - 1] {
          assert ch in front[k];
          SplitChars(init, c, k, ch);
        }
      } else if k < |front| {
        assert Split(s, c)[k] == front[k];
        SplitChars(init, c, k, ch);
      }
    }
  }

  /** The first field of a string with a separator, then the separator, then the join of the rest. */
  lemma {:induction false} JoinFirst(parts: seq<string>, c: char)
    requires |parts| >= 2
    ensures Join(parts, c) == parts[0] + [c] + Join(parts[1..], c)
    decreases |parts|
  {
    if |parts| > 2 {
      var init := parts[..|parts| - 1];
      JoinFirst(init, c);
      assert init[1..] == parts[1..][..|parts| - 2];
    }
  }

  /** Replacing the first field of `s` by `g` keeps everything after it. */
  lemma JoinReplacingFirst(s: string, c: char, g: string)
    ensures var parts := Split(s, c);
      && |parts[0]| <= |s|
      && Join([g] + parts[1..], c) == g + s[|parts[0]|..]
  {
    var parts := Split(s, c);
    JoinSplit(s, c);
    var out := [g] + parts[1..];
    TailOfCons(g, parts[1..]);
    if |parts| == 1 {
      assert out == [g] && s == parts[0];
      AppendEmpty(g);
    } else {
      var rest := Join(parts[1..], c);
      JoinFirst(parts, c);
      JoinFirst(out, c);
      AppendAssoc(parts[0], [c], rest);
      AppendAssoc(g, [c], rest);
      SuffixOfAppend(parts[0], [c] + rest);
    }
  }

  /** Three separator-free fields with the separator between them. */
  lemma SplitThree(a: string, b: string, d: string, c: char)
    requires c !in a && c !in b && c !in d
    ensures Split(a + [c] + b + [c] + d, c) == [a, b, d]
  {
    SplitWithoutSeparator(a, c);
    SplitAppendField(a, b, c);
    SplitAppendField(a + [c] + b, d, c);
  }

  lemma JoinThree(a: string, b: string, d: string, c: char)
    ensures Join([a, b, d], c) == a + [c] + b + [c] + d
  {
    var parts := [a, b, d];
    assert parts[..2] == [a, b];
    assert [a, b][..1] == [a];
    assert Join([a], c) == a;
    assert Join([a, b], c) == a + [c] + b;
  }

  // Small facts about sequences that the proofs above and in the other
  // modules call to keep each proof obligation small.

  /** A non-empty sequence is its front followed by its last element. */
  lemma InitLast<T>(s: seq<T>)
    requires |s| > 0
    ensures s == s[..|s| - 1] + [s[|s| - 1]]
  {
  }

  lemma AppendAssoc<T>(a: seq<T>, b: seq<T>, c: seq<T>)
    ensures a + b + c == a + (b + c)
  {
  }

  lemma AppendEmpty<T>(a: seq<T>)
    ensures a + [] == a && [] + a == a
  {
  }

  lemma DropFirst<T>(a: seq<T>, b: seq<T>)
    requires |a| > 0
    ensures (a + b)[1..] == a[1..] + b
  {
  }

  lemma TailOfCons<T>(x: T, xs: seq<T>)
    ensures ([x] + xs)[1..] == xs
  {
  }

  lemma SuffixOfAppend<T>(a: seq<T>, b: seq<T>)
    ensures (a + b)[|a|..] == b
  {
  }

  lemma PrefixOfAppend<T>(a: seq<T>, b: seq<T>)
    ensures (a + b)[..|a|] == a
  {
  }

  lemma PrefixOfPrefix<T>(s: seq<T>, i: nat, j: nat)
    requires i <= j <= |s|
    ensures s[..j][..i] == s[..i]
  {
  }

  lemma SplitAt<T>(s: seq<T>, i: nat)
    requires i <= |s|
    ensures s == s[..i] + s[i..]
  {
  }

  /** A suffix of a non-empty sequence is the same suffix of its front,
      followed by its last element. */
  lemma SuffixInitLast<T>(s: seq<T>, i: nat)
    requires i < |s|
    ensures s[i..] == s[..|s| - 1][i..] + [s[|s| - 1]]
  {
  }

  /** The index of the last `c` in `s`, or -1 when there is none (Python's `str.rfind`). */
  function RFind(s: string, c: char): (i: int)
    ensures -1 <= i < |s|
    decreases |s|
  {
    if |s| == 0 then -1
    else if s[|s| - 1] == c then |s| - 1
    else RFind(s[..|s| - 1], c)
  }

  /** `RFind` finds a `c` with none after it. */
  lemma {:induction false} RFindLast(s: string, c: char)
    ensures var i := RFind(s, c);
      && (i >= 0 ==> s[i] == c)
      && forall k :: i < k < |s| ==> s[k] != c
    decreases |s|
  {
    if |s| > 0 && s[|s| - 1] != c {
      RFindLast(s[..|s| - 1], c);
      assert forall k :: 0 <= k < |s| - 1 ==> s[..|s| - 1][k] == s[k];
    }
  }

  // ---------------------------------------------------------------------------
  // Final path segments

  const SLASH := '/'

  /** The last `/`-separated segment of `path`: the path's basename. */
  function LastSegment(path: string): string
  {
    var parts := Split(path, SLASH);
    parts[|parts| - 1]
  }

  /** The last segment is the part of `path` after its last `/`, or all of it
      when there is no `/`. */
  lemma {:induction false} LastSegmentIsFinalPart(path: string)
    ensures var r := LastSegment(path);
      && SLASH !in r
      && |r| <= |path|
      && r == path[|path| - |r|..]
      && (|r| == |path| || path[|path| - |r| - 1] == SLASH)
    decreases |path|
  {
    if |path| > 0 {
      var init := path[..|path| - 1];
      LastSegmentIsFinalPart(init);
      if path[|path| - 1] != SLASH {
        var front := Split(init, SLASH);
        assert LastSegment(path) == front[|front| - 1] + [path[|path| - 1]];
      }
    }
  }

  /** The last segment consists of characters of the path. */
  lemma LastSegmentChars(path: string, ch: char)
    requires ch in LastSegment(path)
    ensures ch in path
  {
    LastSegmentIsFinalPart(path);
    var r := LastSegment(path);
    var k :| 0 <= k < |r| && r[k] == ch;
    assert path[|path| - |r| + k] == ch;
  }

  /** Taking the last segment twice is the same as taking it once. */
  lemma LastSegmentIdempotent(path: string)
    ensures LastSegment(LastSegment(path)) == LastSegment(path)
  {
    SplitWithoutSeparator(LastSegment(path), SLASH);
  }

  /** The segment after an appended `/` is the appended name. */
  lemma LastSegmentOfAppended(dir: string, name: string)
    requires SLASH !in name
    ensures LastSegment(dir + [SLASH] + name) == name
  {
    SplitAppendField(dir, name, SLASH);
  }

  // ---------------------------------------------------------------------------
  // Whitespace, suffixes

  /** ASCII characters Python's `str.isspace` and the regular expression `\s` accept. */
  predicate IsSpace(ch: char)
  {
    ch == ' ' || 9 <= ch as int <= 13 || 28 <= ch as int <= 31
  }

  predicate AllSpace(s: string)
  {
    forall k :: 0 <= k < |s| ==> IsSpace(s[k])
  }

  /** `s` without its trailing whitespace (Python's `str.rstrip()`). */
  function RStrip(s: string): (r: string)
    ensures |r| <= |s| && r == s[..|r|]
    ensures AllSpace(s[|r|..])
    ensures r == [] || !IsSpace(r[|r| - 1])
    decreases |s|
  {
    if |s| > 0 && IsSpace(s[|s| - 1]) then RStrip(s[..|s| - 1]) else s
  }

  /** `s` without its leading whitespace (Python's `str.lstrip()`). */
  function LStrip(s: string): (r: string)
    ensures |r| <= |s| && r == s[|s| - |r|..]
    ensures AllSpace(s[..|s| - |r|])
    ensures r == [] || !IsSpace(r[0])
    decreases |s|
  {
    if |s| > 0 && IsSpace(s[0]) then LStrip(s[1..]) else s
  }

  predicate EndsWith(s: string, suffix: string)
  {
    |suffix| <= |s| && s[|s| - |suffix|..] == suffix
  }

  // ---------------------------------------------------------------------------
  // Order and sorting

  /** Lexicographic order by code point: Rust's `String` order (UTF-8 bytes
      compare in code-point order) and Python's `str` order. */
  predicate LexLe(a: string, b: string)
    decreases |a|
  {
    |a| == 0 || (|b| > 0 && (a[0] < b[0] || (a[0] == b[0] && LexLe(a[1..], b[1..]))))
  }

  lemma {:induction false} LexLeTotal(a: string, b: string)
    ensures LexLe(a, b) || LexLe(b, a)
    decreases |a|
  {
    if |a| > 0 && |b| > 0 && a[0] == b[0] {
      LexLeTotal(a[1..], b[1..]);
    }
  }

  lemma {:induction false} LexLeTransitive(a: string, b: string, d: string)
    requires LexLe(a, b) && LexLe(b, d)
    ensures LexLe(a, d)
    decreases |a|
  {
    if |a| > 0 && a[0] == b[0] && b[0] == d[0] {
      LexLeTransitive(a[1..], b[1..], d[1..]);
    }
  }

  predicate Sorted(s: seq<string>)
  {
    forall i, j :: 0 <= i < j < |s| ==> LexLe(s[i], s[j])
  }

  /** `x` placed before the first element of `s` it does not exceed. */
  function Insert(x: string, s: seq<string>): seq<string>
    decreases |s|
  {
    if |s| == 0 then [x]
    else if LexLe(x, s[0]) then [x] + s
    else [s[0]] + Insert(x, s[1..])
  }

  /** A lower bound of `x` and of every element of `s` bounds every element of the insertion. */
  lemma {:induction false} InsertBounded(x: string, s: seq<string>, y: string)
    requires LexLe(y, x)
    requires forall j :: 0 <= j < |s| ==> LexLe(y, s[j])
    ensures forall j :: 0 <= j < |Insert(x, s)| ==> LexLe(y, Insert(x, s)[j])
    decreases |s|
  {
    if |s| > 0 && !LexLe(x, s[0]) {
      InsertBounded(x, s[1..], y);
    }
  }

  /** Inserting adds exactly `x`. */
  lemma {:induction false} InsertPermutes(x: string, s: seq<string>)
    ensures multiset(Insert(x, s)) == multiset(s) + multiset{x}
    decreases |s|
  {
    if |s| > 0 {
      assert [s[0]] + s[1..] == s;
      if !LexLe(x, s[0]) {
        InsertPermutes(x, s[1..]);
      }
    }
  }

  /** Inserting into a sorted sequence keeps it sorted. */
  lemma {:induction false} InsertSorted(x: string, s: seq<string>)
    requires Sorted(s)
    ensures Sorted(Insert(x, s))
    decreases |s|
  {
    if |s| > 0 {
      if LexLe(x, s[0]) {
        forall j | 0 < j < |s| ensures LexLe(x, s[j]) { LexLeTransitive(x, s[0], s[j]); }
        var r := [x] + s;
        forall i, j | 0 <= i < j < |r| ensures LexLe(r[i], r[j]) {
          if i > 0 { assert r[i] == s[i - 1] && r[j] == s[j - 1]; }
        }
      } else {
        var t := Insert(x, s[1..]);
        InsertSorted(x, s[1..]);
        LexLeTotal(x, s[0]);
        InsertBounded(x, s[1..], s[0]);
        var r := [s[0]] + t;
        forall i, j | 0 <= i < j < |r| ensures LexLe(r[i], r[j]) {
          if i > 0 { assert r[i] == t[i - 1] && r[j] == t[j - 1]; }
        }
      }
    }
  }

  /** `s` in ascending order (Rust's `Vec::sort`, Python's `sorted`). */
  function Sort(s: seq<string>): (r: seq<string>)
    ensures Sorted(r)
    ensures multiset(r) == multiset(s)
    ensures |r| == |s|
    decreases |s|
  {
    if |s| == 0 then []
    else
      var t := Sort(s[1..]);
      InsertSorted(s[0], t);
      InsertPermutes(s[0], t);
      assert [s[0]] + s[1..] == s;
      Insert(s[0], t)
  }
}
