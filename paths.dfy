/** The file system the programs consult, as a value: a map from path to what
    is there.  A path that is not a key does not exist.  A symbolic link is a
    node of its own: `fs::metadata`, `Path::exists`, `File::open` and
    `os.path.isfile` follow it (`Resolve`), while the metadata of a directory
    entry (`DirEntry::metadata`) describes the entry itself. */
module Paths {
  import opened Results
  import opened Text

  /** A regular file, a directory with its entries (full paths, in the order
      the operating system lists them), a symbolic link to the (full) path
      `target`, or anything else (a device, a socket). */
  datatype Node = File | Dir(entries: seq<string>) | Link(target: string) | Other

  type FileSystem = map<string, Node>

  /** How many symbolic links Linux follows while resolving one path before
      it gives up with `ELOOP`. */
  const MAX_SYMLINKS: nat := 40

  /** What `path` names once symbolic links are followed, at most `hops` more
      of them: absent when the path or a link's target does not exist, or when
      the chain of links is longer than allowed. */
  function Follow(fs: FileSystem, path: string, hops: nat): (n: Option<Node>)
    ensures n.Some? ==> !n.value.Link?
    ensures n.Some? ==> path in fs
    ensures path in fs && !fs[path].Link? ==> n == Some(fs[path])
    decreases hops
  {
    if path !in fs then None
    else match fs[path]
      case Link(target) => if hops == 0 then None else Follow(fs, target, hops - 1)
      case node => Some(node)
  }

  /** What `stat` reports for `path`. */
  function Resolve(fs: FileSystem, path: string): Option<Node>
  {
    Follow(fs, path, MAX_SYMLINKS)
  }

  /** `Path::exists`: the path resolves to something. */
  predicate Exists(fs: FileSystem, path: string)
  {
    Resolve(fs, path).Some?
  }

  /** `os.path.isfile`: the path resolves to a regular file. */
  predicate IsFile(fs: FileSystem, path: string)
  {
    Resolve(fs, path) == Some(File)
  }

  /** The path is itself a regular file, not a link to one (`lstat`). */
  predicate IsPlainFile(fs: FileSystem, path: string)
  {
    path in fs && fs[path] == File
  }

  /** A link to a link to a regular file is a file for `os.path.isfile` but
      not a plain file; a link to a missing path does not exist. */
  lemma LinksResolved(fs: FileSystem, a: string, b: string, c: string)
    requires a != b && b != c && a != c
    requires fs == map[a := Link(b), b := Link(c), c := File]
    ensures IsFile(fs, a) && !IsPlainFile(fs, a) && IsPlainFile(fs, c)
    ensures !Exists(fs - {c}, a)
  {
    assert Follow(fs - {c}, b, MAX_SYMLINKS - 1) == None;
  }

  /** Following a link is following its target with one hop fewer, and
      nothing once no hop is left; a link is never a plain file, and a link
      whose target is missing does not exist. */
  lemma LinkFollowed(fs: FileSystem, path: string, hops: nat)
    requires path in fs && fs[path].Link?
    ensures hops > 0 ==> Follow(fs, path, hops) == Follow(fs, fs[path].target, hops - 1)
    ensures hops == 0 ==> Follow(fs, path, hops).None?
    ensures !IsPlainFile(fs, path)
    ensures fs[path].target !in fs ==> !Exists(fs, path)
  {
  }

  /** A plain file is a file whichever way it is looked at. */
  lemma PlainFileIsFile(fs: FileSystem, path: string)
    requires IsPlainFile(fs, path)
    ensures IsFile(fs, path) && Exists(fs, path)
  {
  }

  /** Adding paths never makes an existing path vanish, as long as no
      existing entry changes. */
  lemma {:induction false} FollowGrows(fs: FileSystem, fs': FileSystem, path: string, hops: nat)
    requires forall p :: p in fs ==> p in fs' && fs'[p] == fs[p]
    requires Follow(fs, path, hops).Some?
    ensures Follow(fs', path, hops) == Follow(fs, path, hops)
    decreases hops
  {
    if fs[path].Link? {
      FollowGrows(fs, fs', fs[path].target, hops - 1);
    }
  }

  /** `base` joined with `name`: Rust's `Path::join` and Python's `os.path.join`
      agree here.  An absolute `name` replaces `base`; a separator is added only
      when `base` is non-empty and does not already end with one. */
  function PathJoin(base: string, name: string): string
  {
    if |name| > 0 && name[0] == SLASH then name
    else if |base| == 0 || base[|base| - 1] == SLASH then base + name
    else base + [SLASH] + name
  }

  /** A joined path ends with the name, after `base` or `base` and one `/`,
      unless the name is absolute. */
  lemma PathJoinShape(base: string, name: string)
    ensures var r := PathJoin(base, name);
      && (|name| > 0 && name[0] == SLASH ==> r == name)
      && (!(|name| > 0 && name[0] == SLASH) ==> EndsWith(r, name) && r[..|r| - |name|] in {base, base + [SLASH]})
  {
  }

  /** A plain file name joined onto a directory is the basename of the result. */
  lemma JoinedNameIsLastSegment(base: string, name: string)
    requires SLASH !in name
    ensures LastSegment(PathJoin(base, name)) == name
  {
    if |base| == 0 {
      assert PathJoin(base, name) == name;
      SplitWithoutSeparator(name, SLASH);
    } else if base[|base| - 1] == SLASH {
      var b := base[..|base| - 1];
      assert base + name == b + [SLASH] + name;
      LastSegmentOfAppended(b, name);
    } else {
      LastSegmentOfAppended(base, name);
    }
  }

  /** The extension of the file name of `path` (Rust's `Path::extension`): the
      text after the last `.` of the final segment, absent when there is no `.`,
      when the only `.` starts the name, and for `..`. */
  function Extension(path: string): (e: Option<string>)
    ensures e.None? <==> LastSegment(path) == ".." || forall j :: 0 < j < |LastSegment(path)| ==> LastSegment(path)[j] != '.'
    ensures e.Some? ==> '.' !in e.value && EndsWith(LastSegment(path), "." + e.value)
    ensures e.Some? ==> |LastSegment(path)| > |e.value| + 1
  {
    var name := LastSegment(path);
    var dot := RFind(name, '.');
    RFindLast(name, '.');
    if name == ".." || dot <= 0 then None
    else
      assert name[dot..] == "." + name[dot + 1..];
      Some(name[dot + 1..])
  }
}
