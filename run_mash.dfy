/** The part of `run_mash/src/lib.rs` that starts no subprocess: input
    discovery over a file system given as a value, loading the alias table from
    already-tokenised records, building the list of sketch jobs, the result of
    the job pool (an oracle), the sorted sketch list with its count check, and
    the relabelling of the matrix text that `mash dist` prints. */
module RunMash {
  import opened Results
  import opened Text
  import opened Paths
  import opened AliasTable

  /** Rust's `u32`. */
  type u32 = x: int | 0 <= x < 0x1_0000_0000

  datatype Config = Config(
    aliasFile: Option<string>,
    binDir: Option<string>,
    kmerSize: Option<u32>,
    sketchSize: Option<u32>,
    numThreads: Option<u32>,
    outDir: string,
    query: seq<string>)

  /** The failures the core can report, one per place the source returns an error. */
  datatype Error =
    | MetadataFailed(path: string)      // `fs::metadata` or `entry.metadata()` on a missing path or a dangling link
    | ReadDirFailed(path: string)       // `fs::read_dir` on a path that is neither file nor directory
    | NoInputFiles                      // "No input files"
    | AliasFileUnreadable(path: string) // "Failed to open ..."
    | RecordParseFailed                 // the CSV reader could not deserialize a record
    | JobsFailed                        // "Failed to run jobs in parallel"
    | IncompleteSketches                // "Failed to create all sketches"

  type Aliases = Option<map<string, string>>

  const TAB := '\t'
  const NEWLINE := '\n'

  // ---------------------------------------------------------------------------
  // basename

  /** The last `/`-separated segment of `filename`, replaced by its alias when
      an alias table is given and has one. */
  function BaseName(filename: string, aliases: Aliases): string
  {
    var name := LastSegment(filename);
    match aliases
    case Some(table) => if name in table then table[name] else name
    case None => name
  }

  /** Without aliases the result is what follows the last `/` (all of
      `filename` when it has none), holds no `/`, and is its own basename. */
  lemma BaseNameWithoutAliases(filename: string)
    ensures var r := BaseName(filename, None);
      && SLASH !in r
      && |r| <= |filename|
      && r == filename[|filename| - |r|..]
      && (|r| == |filename| || filename[|filename| - |r| - 1] == SLASH)
      && BaseName(r, None) == r
  {
    LastSegmentIsFinalPart(filename);
    LastSegmentIdempotent(filename);
  }

  /** With a table, the alias of the plain basename when the table has it,
      otherwise the plain basename. */
  lemma BaseNameWithAliases(filename: string, table: map<string, string>)
    ensures var name := BaseName(filename, None);
      && (name in table ==> BaseName(filename, Some(table)) == table[name])
      && (name !in table ==> BaseName(filename, Some(table)) == name)
  {
  }

  /** Every character of a plain basename is a character of the file name. */
  lemma BaseNameChars(filename: string)
    ensures forall ch :: ch in BaseName(filename, None) ==> ch in filename
  {
    forall ch | ch in BaseName(filename, None) ensures ch in filename {
      LastSegmentChars(filename, ch);
    }
  }

  // ---------------------------------------------------------------------------
  // Relabelling the matrix text

  /** `fixed` is `line` rewritten as the header: the same number of tab
      fields, an empty first field, and the plain basename of every other one. */
  predicate RelabelledHeader(line: string, fixed: string)
  {
    var fields, out := Split(line, TAB), Split(fixed, TAB);
    && |out| == |fields|
    && out[0] == ""
    && forall k :: 1 <= k < |fields| ==> out[k] == BaseName(fields[k], None)
  }

  /** `fixed` is `line` rewritten as a data row: the same number of tab fields,
      the plain basename of the first one, and the others unchanged. */
  predicate RelabelledRow(line: string, fixed: string)
  {
    var fields, out := Split(line, TAB), Split(fixed, TAB);
    && |out| == |fields|
    && out[0] == BaseName(fields[0], None)
    && out[1..] == fields[1..]
  }

  /** `fix_mash_header`: blank the first field, then take the plain basename
      of every field. */
  method FixMashHeader(line: string) returns (r: string)
    ensures RelabelledHeader(line, r)
    ensures forall ch :: ch in r ==> ch in line || ch == TAB
    ensures line == "" ==> r == ""
  {
    var flds := Split(line, TAB);
    flds := flds[0 := ""];
    var hdrs := seq(|flds|, k requires 0 <= k < |flds| => BaseName(flds[k], None));
    forall k | 0 <= k < |hdrs|
      ensures forall ch :: ch in hdrs[k] ==> ch in line && ch != TAB
    {
      BaseNameChars(flds[k]);
      forall ch | ch in hdrs[k] ensures ch in line && ch != TAB {
        assert k > 0 && ch in Split(line, TAB)[k];
        SplitChars(line, TAB, k, ch);
      }
    }
    SplitJoin(hdrs, TAB);
    r := Join(hdrs, TAB);
    forall ch | ch in r ensures ch in line || ch == TAB {
      JoinChars(hdrs, TAB, ch);
    }
    if line == "" {
      assert hdrs == [""];
    }
  }

  /** `fix_mash_line`: replace the first field by its plain basename. */
  method FixMashLine(line: string) returns (r: string)
    ensures RelabelledRow(line, r)
    ensures forall ch :: ch in r ==> ch in line || ch == TAB
    ensures line == "" ==> r == ""
  {
    var flds := Split(line, TAB);
    var first := BaseName(flds[0], None);
    BaseNameChars(flds[0]);
    forall ch | ch in first ensures ch in line && ch != TAB {
      SplitChars(line, TAB, 0, ch);
    }
    var old_flds := flds;
    flds := flds[0 := first];
    forall k | 0 <= k < |flds| ensures forall ch :: ch in flds[k] ==> ch in line && ch != TAB {
      if k > 0 {
        forall ch | ch in flds[k] ensures ch in line && ch != TAB {
          SplitChars(line, TAB, k, ch);
        }
      }
    }
    SplitJoin(flds, TAB);
    r := Join(flds, TAB);
    assert flds[1..] == old_flds[1..];
    forall ch | ch in r ensures ch in line || ch == TAB {
      JoinChars(flds, TAB, ch);
    }
  }

  /** `fix_mash_distance`: the header rule on line 0 and the row rule on every
      other `\n`-separated line.  The number of lines, and the number of fields
      of each line, are kept, and empty text stays empty. */
  method FixMashDistance(s: string) returns (r: string)
    ensures var lines, out := Split(s, NEWLINE), Split(r, NEWLINE);
      && |out| == |lines|
      && RelabelledHeader(lines[0], out[0])
      && forall i :: 1 <= i < |lines| ==> RelabelledRow(lines[i], out[i])
    ensures s == "" ==> r == ""
  {
    var lines := Split(s, NEWLINE);
    var res: seq<string> := [];
    for i := 0 to |lines|
      invariant |res| == i
      invariant forall j :: 0 <= j < i ==> NEWLINE !in res[j]
      invariant i > 0 ==> RelabelledHeader(lines[0], res[0])
      invariant forall j :: 1 <= j < i ==> RelabelledRow(lines[j], res[j])
      invariant s == "" && i > 0 ==> res == [""]
    {
      var fixed;
      if i == 0 {
        fixed := FixMashHeader(lines[i]);
      } else {
        fixed := FixMashLine(lines[i]);
      }
      assert NEWLINE !in lines[i];
      res := res + [fixed];
    }
    SplitJoin(res, NEWLINE);
    r := Join(res, NEWLINE);
  }

  // ---------------------------------------------------------------------------
  // Sketch parameters

  datatype SketchParams = SketchParams(threads: u32, kmerSize: u32, sketchSize: u32)

  /** The parameters of every sketch job: a thread count taken only when it is
      between 1 and 63 (12 otherwise), a k-mer size defaulting to 21 and a
      sketch size defaulting to 1000. */
  function Params(config: Config): (p: SketchParams)
    ensures 0 < p.threads < 64
    ensures config.numThreads.Some? && 0 < config.numThreads.value < 64 ==> p.threads == config.numThreads.value
    ensures config.numThreads.None? || config.numThreads.value == 0 || config.numThreads.value >= 64 ==> p.threads == 12
    ensures p.kmerSize == (if config.kmerSize.Some? then config.kmerSize.value else 21)
    ensures p.sketchSize == (if config.sketchSize.Some? then config.sketchSize.value else 1000)
  {
    var threads := match config.numThreads
      case Some(n) => if n > 0 && n < 64 then n else 12
      case None => 12;
    var kmerSize := match config.kmerSize
      case Some(n) => n
      case None => 21;
    var sketchSize := match config.sketchSize
      case Some(n) => n
      case None => 1000;
    SketchParams(threads, kmerSize, sketchSize)
  }

  // ---------------------------------------------------------------------------
  // Sketch jobs

  /** One `mash sketch` invocation. */
  datatype SketchJob = SketchJob(threads: u32, outFile: string, sketchSize: u32, kmerSize: u32, input: string)

  function SketchDir(config: Config): string
  {
    PathJoin(config.outDir, "sketches")
  }

  /** The sketch output path of `file`, before `mash` appends `.msh`: named
      after the basename or its alias. */
  function SketchTarget(sketchDir: string, aliases: Aliases, file: string): string
  {
    PathJoin(sketchDir, BaseName(file, aliases))
  }

  function MashFile(target: string): string
  {
    target + ".msh"
  }

  predicate AlreadySketched(fs: FileSystem, sketchDir: string, aliases: Aliases, file: string)
  {
    Exists(fs, MashFile(SketchTarget(sketchDir, aliases, file)))
  }

  function JobFor(sketchDir: string, aliases: Aliases, p: SketchParams, file: string): SketchJob
  {
    SketchJob(p.threads, SketchTarget(sketchDir, aliases, file), p.sketchSize, p.kmerSize, file)
  }

  /** The job list contribution of one input: its job, unless its `.msh` file exists. */
  function JobOf(fs: FileSystem, sketchDir: string, aliases: Aliases, p: SketchParams, file: string): seq<SketchJob>
  {
    if AlreadySketched(fs, sketchDir, aliases, file) then [] else [JobFor(sketchDir, aliases, p, file)]
  }

  /** `f` applied to every element of `xs`, the results concatenated in order. */
  function FlatMap<S, T>(xs: seq<S>, f: S -> seq<T>): seq<T>
    decreases |xs|
  {
    if |xs| == 0 then [] else FlatMap(xs[..|xs| - 1], f) + f(xs[|xs| - 1])
  }

  lemma {:induction false} FlatMapAppend<S, T>(xs: seq<S>, ys: seq<S>, f: S -> seq<T>)
    ensures FlatMap(xs + ys, f) == FlatMap(xs, f) + FlatMap(ys, f)
    decreases |ys|
  {
    if |ys| == 0 {
      assert xs + ys == xs;
    } else {
      var all := xs + ys;
      assert all[..|all| - 1] == xs + ys[..|ys| - 1];
      assert all[|all| - 1] == ys[|ys| - 1];
      FlatMapAppend(xs, ys[..|ys| - 1], f);
    }
  }

  lemma {:induction false} FlatMapExactly<S, T>(xs: seq<S>, f: S -> seq<T>, y: T)
    ensures y in FlatMap(xs, f) <==> exists i :: 0 <= i < |xs| && y in f(xs[i])
    decreases |xs|
  {
    if |xs| > 0 {
      var init := xs[..|xs| - 1];
      FlatMapExactly(init, f, y);
      if exists i :: 0 <= i < |init| && y in f(init[i]) {
        var i :| 0 <= i < |init| && y in f(init[i]);
        assert xs[i] == init[i];
      }
      if exists i :: 0 <= i < |xs| && y in f(xs[i]) {
        var i :| 0 <= i < |xs| && y in f(xs[i]);
        if i < |init| { assert init[i] == xs[i]; }
      }
    }
  }

  /** The step of the job loop. */
  function JobStep(fs: FileSystem, sketchDir: string, aliases: Aliases, p: SketchParams): string -> seq<SketchJob>
  {
    file => JobOf(fs, sketchDir, aliases, p, file)
  }

  /** The jobs for the files of `files` not yet sketched, in the order of `files`. */
  function PendingJobs(fs: FileSystem, sketchDir: string, aliases: Aliases, p: SketchParams, files: seq<string>): seq<SketchJob>
  {
    FlatMap(files, JobStep(fs, sketchDir, aliases, p))
  }

  /** The jobs of a concatenation are the jobs of its parts, in order. */
  lemma PendingJobsAppend(fs: FileSystem, sketchDir: string, aliases: Aliases, p: SketchParams, files: seq<string>, more: seq<string>)
    ensures PendingJobs(fs, sketchDir, aliases, p, files + more)
      == PendingJobs(fs, sketchDir, aliases, p, files) + PendingJobs(fs, sketchDir, aliases, p, more)
  {
    FlatMapAppend(files, more, JobStep(fs, sketchDir, aliases, p));
  }

  /** A job is pending exactly when it is the job of an input whose `.msh`
      file does not exist. */
  lemma PendingJobsExactly(fs: FileSystem, sketchDir: string, aliases: Aliases, p: SketchParams, files: seq<string>, job: SketchJob)
    ensures job in PendingJobs(fs, sketchDir, aliases, p, files) <==>
      exists i :: 0 <= i < |files| && !AlreadySketched(fs, sketchDir, aliases, files[i]) && job == JobFor(sketchDir, aliases, p, files[i])
  {
    var step := JobStep(fs, sketchDir, aliases, p);
    FlatMapExactly(files, step, job);
    forall i | 0 <= i < |files|
      ensures job in step(files[i]) <==> !AlreadySketched(fs, sketchDir, aliases, files[i]) && job == JobFor(sketchDir, aliases, p, files[i])
    {
    }
  }

  /** No job is pending exactly when every input already has its `.msh` file. */
  lemma NoJobsWhenAllSketched(fs: FileSystem, sketchDir: string, aliases: Aliases, p: SketchParams, files: seq<string>)
    ensures PendingJobs(fs, sketchDir, aliases, p, files) == [] <==>
      forall i :: 0 <= i < |files| ==> AlreadySketched(fs, sketchDir, aliases, files[i])
  {
    var jobs := PendingJobs(fs, sketchDir, aliases, p, files);
    if jobs == [] {
      forall i | 0 <= i < |files| ensures AlreadySketched(fs, sketchDir, aliases, files[i]) {
        if !AlreadySketched(fs, sketchDir, aliases, files[i]) {
          PendingJobsExactly(fs, sketchDir, aliases, p, files, JobFor(sketchDir, aliases, p, files[i]));
          assert false;
        }
      }
    } else {
      PendingJobsExactly(fs, sketchDir, aliases, p, files, jobs[0]);
    }
  }

  /** Resuming is idempotent: once the `.msh` file of every pending job exists
      (and nothing was removed), a second run schedules nothing. */
  lemma RerunSchedulesNothing(fs: FileSystem, fs': FileSystem, sketchDir: string, aliases: Aliases, p: SketchParams, files: seq<string>)
    requires forall path :: path in fs ==> path in fs' && fs'[path] == fs[path]
    requires forall job :: job in PendingJobs(fs, sketchDir, aliases, p, files) ==> Exists(fs', MashFile(job.outFile))
    ensures PendingJobs(fs', sketchDir, aliases, p, files) == []
  {
    forall i | 0 <= i < |files| ensures AlreadySketched(fs', sketchDir, aliases, files[i]) {
      if !AlreadySketched(fs, sketchDir, aliases, files[i]) {
        PendingJobsExactly(fs, sketchDir, aliases, p, files, JobFor(sketchDir, aliases, p, files[i]));
      } else {
        FollowGrows(fs, fs', MashFile(SketchTarget(sketchDir, aliases, files[i])), MAX_SYMLINKS);
      }
    }
    NoJobsWhenAllSketched(fs', sketchDir, aliases, p, files);
  }

  /** The loop of `sketch_files` that collects one job per unsketched input. */
  method BuildJobs(fs: FileSystem, sketchDir: string, aliases: Aliases, p: SketchParams, files: seq<string>) returns (jobs: seq<SketchJob>)
    ensures jobs == PendingJobs(fs, sketchDir, aliases, p, files)
  {
    jobs := [];
    for i := 0 to |files|
      invariant jobs == PendingJobs(fs, sketchDir, aliases, p, files[..i])
    {
      var file := files[i];
      var outFile := PathJoin(sketchDir, BaseName(file, aliases));
      var mashFile := outFile + ".msh";
      assert files[..i + 1][..i] == files[..i];
      assert JobStep(fs, sketchDir, aliases, p)(file) == JobOf(fs, sketchDir, aliases, p, file);
      if !Exists(fs, mashFile) {
        jobs := jobs + [SketchJob(p.threads, outFile, p.sketchSize, p.kmerSize, file)];
      }
    }
    assert files[..|files|] == files;
  }

  /** Rust's `Display` of an unsigned integer. */
  function Decimal(n: nat): (s: string)
    ensures |s| >= 1
    ensures forall k :: 0 <= k < |s| ==> '0' <= s[k] <= '9'
    ensures s[0] == '0' <==> n == 0
    decreases n
  {
    if n < 10 then [(48 + n) as char] else Decimal(n / 10) + [(48 + n % 10) as char]
  }

  /** The number a string of decimal digits denotes. */
  function DecimalValue(s: string): nat
    decreases |s|
  {
    if |s| == 0 then 0
    else
      var d := s[|s| - 1] as int - 48;
      DecimalValue(s[..|s| - 1]) * 10 + (if 0 <= d then d else 0)
  }

  lemma {:induction false} DecimalRoundTrip(n: nat)
    ensures DecimalValue(Decimal(n)) == n
    decreases n
  {
    if n >= 10 {
      DecimalRoundTrip(n / 10);
      var s := Decimal(n);
      assert s[..|s| - 1] == Decimal(n / 10);
    }
  }

  /** The command line `sketch_files` formats for one job. */
  function Command(job: SketchJob): (c: string)
    ensures EndsWith(c, [' '] + job.input)
  {
    "mash sketch -p " + Decimal(job.threads) + " -o " + job.outFile + " -s " + Decimal(job.sketchSize)
      + " -k " + Decimal(job.kmerSize) + " " + job.input
  }

  /** `x`, a space, an option name, a space and a value: one option appended. */
  lemma AppendOption(x: string, flag: string, v: string)
    ensures x + [' '] + flag + [' '] + v == x + ([' '] + flag + [' ']) + v
  {
  }

  /** The command text with each separating space written out on its own. */
  lemma CommandSpaced(job: SketchJob)
    ensures Command(job) ==
      "mash" + [' '] + "sketch" + [' '] + "-p" + [' '] + Decimal(job.threads)
        + [' '] + "-o" + [' '] + job.outFile + [' '] + "-s" + [' '] + Decimal(job.sketchSize)
        + [' '] + "-k" + [' '] + Decimal(job.kmerSize) + [' '] + job.input
  {
    var head := "mash" + [' '] + "sketch" + [' '] + "-p" + [' '];
    assert head == "mash sketch -p ";
    assert [' '] + "-o" + [' '] == " -o ";
    assert [' '] + "-s" + [' '] == " -s ";
    assert [' '] + "-k" + [' '] == " -k ";
    var s3 := head + Decimal(job.threads);
    AppendOption(s3, "-o", job.outFile);
    var s5 := s3 + " -o " + job.outFile;
    AppendOption(s5, "-s", Decimal(job.sketchSize));
    var s7 := s5 + " -s " + Decimal(job.sketchSize);
    AppendOption(s7, "-k", Decimal(job.kmerSize));
  }

  /** Joining one more word appends a space and the word. */
  lemma JoinSnoc(words: seq<string>, w: string)
    requires |words| >= 1
    ensures Join(words + [w], ' ') == Join(words, ' ') + [' '] + w
  {
    var all := words + [w];
    assert all[..|all| - 1] == words;
  }

  /** The words of a sketch command, in order. */
  function CommandWordList(job: SketchJob): seq<string>
  {
    ["mash", "sketch", "-p", Decimal(job.threads), "-o", job.outFile,
     "-s", Decimal(job.sketchSize), "-k", Decimal(job.kmerSize), job.input]
  }

  /** The command is its words with single spaces between them. */
  lemma CommandJoined(job: SketchJob)
    ensures Command(job) == Join(CommandWordList(job), ' ')
  {
    var t, z, k := Decimal(job.threads), Decimal(job.sketchSize), Decimal(job.kmerSize);
    var w1 := ["mash"];
    assert Join(w1, ' ') == "mash";
    var w2 := w1 + ["sketch"];
    JoinSnoc(w1, "sketch");
    var w3 := w2 + ["-p"];
    JoinSnoc(w2, "-p");
    var w4 := w3 + [t];
    JoinSnoc(w3, t);
    var w5 := w4 + ["-o"];
    JoinSnoc(w4, "-o");
    var w6 := w5 + [job.outFile];
    JoinSnoc(w5, job.outFile);
    var w7 := w6 + ["-s"];
    JoinSnoc(w6, "-s");
    var w8 := w7 + [z];
    JoinSnoc(w7, z);
    var w9 := w8 + ["-k"];
    JoinSnoc(w8, "-k");
    var w10 := w9 + [k];
    JoinSnoc(w9, k);
    var w11 := w10 + [job.input];
    JoinSnoc(w10, job.input);
    assert w11 == CommandWordList(job);
    CommandSpaced(job);
  }

  /** No word of a command holds a space when neither path does. */
  lemma WordsSpaceFree(job: SketchJob)
    requires ' ' !in job.outFile && ' ' !in job.input
    ensures forall i :: 0 <= i < |CommandWordList(job)| ==> ' ' !in CommandWordList(job)[i]
  {
    var t, z, k := Decimal(job.threads), Decimal(job.sketchSize), Decimal(job.kmerSize);
    assert ' ' !in t && ' ' !in z && ' ' !in k;
  }

  /** The words of a sketch command as the shell reads them: with no space in
      either path, the command splits at spaces into the program, its
      subcommand, `-p`, `-o`, `-s` and `-k` each followed by the job's thread
      count, output file, sketch size and k-mer size, and then the input; the
      numbers read back as the job's own. */
  lemma CommandWords(job: SketchJob)
    requires ' ' !in job.outFile && ' ' !in job.input
    ensures var w := Split(Command(job), ' ');
      && w == ["mash", "sketch", "-p", Decimal(job.threads), "-o", job.outFile,
               "-s", Decimal(job.sketchSize), "-k", Decimal(job.kmerSize), job.input]
      && DecimalValue(w[3]) == job.threads
      && DecimalValue(w[7]) == job.sketchSize
      && DecimalValue(w[9]) == job.kmerSize
  {
    var words := CommandWordList(job);
    WordsSpaceFree(job);
    CommandJoined(job);
    SplitJoin(words, ' ');
    DecimalRoundTrip(job.threads);
    DecimalRoundTrip(job.sketchSize);
    DecimalRoundTrip(job.kmerSize);
  }

  function Commands(jobs: seq<SketchJob>): seq<string>
  {
    seq(|jobs|, k requires 0 <= k < |jobs| => Command(jobs[k]))
  }

  /** `run_jobs`.  `pool` stands for GNU `parallel` fed the commands one per
      line, with `numConcurrent` slots: it answers whether every job
      succeeded.  With no job nothing is started. */
  function RunJobs(jobs: seq<string>, numConcurrent: u32, pool: (string, u32) -> bool): (r: Result<(), Error>)
    ensures |jobs| == 0 ==> r == Ok(())
    ensures |jobs| > 0 ==> (r == Ok(()) <==> pool(Join(jobs, NEWLINE), numConcurrent))
    ensures r.Err? ==> r.error == JobsFailed
  {
    if |jobs| > 0 && !pool(Join(jobs, NEWLINE), numConcurrent) then Err(JobsFailed) else Ok(())
  }

  // ---------------------------------------------------------------------------
  // Alias table

  /** A record as the CSV reader yields it: its cells by column name, or a
      record it could not read. */
  datatype Record = Fields(row: Row) | Malformed

  /** The delimiter of the alias file: a comma exactly when its extension is `csv`. */
  function Delimiter(path: string): (d: char)
    ensures d == ',' <==> Extension(path) == Some("csv")
    ensures d == ',' || d == TAB
  {
    match Extension(path)
    case Some(ext) => if ext == "csv" then ',' else TAB
    case None => TAB
  }

  function RowOf(record: Record): Row
  {
    if record.Fields? then record.row else map[]
  }

  function Rows(records: seq<Record>): seq<Row>
  {
    seq(|records|, i requires 0 <= i < |records| => RowOf(records[i]))
  }

  /** The rows of a prefix one record longer. */
  lemma RowsPrefix(records: seq<Record>, i: nat)
    requires i < |records|
    ensures Rows(records[..i + 1]) == Rows(records[..i]) + [RowOf(records[i])]
  {
  }

  /** What the loop of `get_aliases` makes of the records of an opened file:
      the first unreadable record is an error; rows without `sample_name` or
      `alias` are skipped; an empty table is no table. */
  function AliasesOf(records: seq<Record>): (r: Result<Aliases, Error>)
  {
    if exists i :: 0 <= i < |records| && records[i].Malformed? then Err(RecordParseFailed)
    else
      var table := Collect(Rows(records), "sample_name", "alias");
      if |table| > 0 then Ok(Some(table)) else Ok(None)
  }

  /** Record `i` has both columns, names `name`, and no later record with
      both columns names it again. */
  predicate LastRecordFor(records: seq<Record>, i: nat, name: string)
  {
    && i < |records|
    && HasColumns(RowOf(records[i]), "sample_name", "alias")
    && RowOf(records[i])["sample_name"] == name
    && forall j :: i < j < |records| && HasColumns(RowOf(records[j]), "sample_name", "alias") ==> RowOf(records[j])["sample_name"] != name
  }

  /** For readable records: no table exactly when no row has both columns;
      otherwise a name is in the table exactly when some complete row carries it,
      bound to the alias of the last such row. */
  lemma AliasesOfReadable(records: seq<Record>, name: string)
    requires forall i :: 0 <= i < |records| ==> records[i].Fields?
    ensures AliasesOf(records) == Ok(None) <==>
      forall i :: 0 <= i < |records| ==> !HasColumns(records[i].row, "sample_name", "alias")
    ensures AliasesOf(records).Ok? && AliasesOf(records).value.Some? ==>
      (name in AliasesOf(records).value.value <==>
        exists i :: 0 <= i < |records| && HasColumns(records[i].row, "sample_name", "alias") && records[i].row["sample_name"] == name)
    ensures AliasesOf(records).Ok? && AliasesOf(records).value.Some? ==>
      forall i :: 0 <= i < |records| && LastRecordFor(records, i, name) ==> AliasesOf(records).value.value[name] == records[i].row["alias"]
  {
    var rows := Rows(records);
    assert forall i :: 0 <= i < |records| ==> rows[i] == records[i].row;
    CollectEmpty(rows, "sample_name", "alias");
    CollectKeys(rows, "sample_name", "alias", name);
    forall i | 0 <= i < |records| && LastRecordFor(records, i, name)
      ensures Collect(rows, "sample_name", "alias")[name] == records[i].row["alias"]
    {
      CollectLastWins(rows, "sample_name", "alias", i);
    }
  }

  /** The specification of `get_aliases`: no file, no table; a file that
      cannot be opened is an error; otherwise the records the reader yields
      with the delimiter the extension selects. */
  function LoadedAliases(aliasFile: Option<string>, fs: FileSystem, read: (string, char) -> seq<Record>): (r: Result<Aliases, Error>)
  {
    match aliasFile
    case None => Ok(None)
    case Some(file) => if !Exists(fs, file) then Err(AliasFileUnreadable(file)) else AliasesOf(read(file, Delimiter(file)))
  }

  /** `get_aliases`.  `read` stands for the CSV reader: given a path and a
      delimiter it yields the records of the file. */
  method GetAliases(aliasFile: Option<string>, fs: FileSystem, read: (string, char) -> seq<Record>) returns (r: Result<Aliases, Error>)
    ensures aliasFile.None? ==> r == Ok(None)
    ensures aliasFile.Some? && !Exists(fs, aliasFile.value) ==> r == Err(AliasFileUnreadable(aliasFile.value))
    ensures aliasFile.Some? && Exists(fs, aliasFile.value) ==> r == AliasesOf(read(aliasFile.value, Delimiter(aliasFile.value)))
    ensures r.Ok? && r.value.Some? ==> |r.value.value| > 0
  {
    if aliasFile.None? {
      return Ok(None);
    }
    var file := aliasFile.value;
    if !Exists(fs, file) {
      return Err(AliasFileUnreadable(file));
    }
    var delimiter := Delimiter(file);
    var records := read(file, delimiter);
    var aliases: map<string, string> := map[];
    for i := 0 to |records|
      invariant forall j :: 0 <= j < i ==> records[j].Fields?
      invariant aliases == Collect(Rows(records[..i]), "sample_name", "alias")
    {
      RowsPrefix(records, i);
      CollectAppend(Rows(records[..i]), RowOf(records[i]), "sample_name", "alias");
      match records[i]
      case Malformed =>
        return Err(RecordParseFailed);
      case Fields(record) =>
        if "sample_name" in record && "alias" in record {
          aliases := aliases[record["sample_name"] := record["alias"]];
        }
    }
    assert records[..|records|] == records;
    if |aliases| > 0 {
      r := Ok(Some(aliases));
    } else {
      r := Ok(None);
    }
  }

  // ---------------------------------------------------------------------------
  // Input discovery

  /** The regular-file entries of a directory listing, in listing order; an
      entry whose metadata cannot be read is an error.  An entry's metadata
      describes the entry itself, so a link, even to a regular file, is not one. */
  function RegularEntries(fs: FileSystem, entries: seq<string>): (r: Result<seq<string>, Error>)
    ensures r.Err? ==> r.error.MetadataFailed?
    decreases |entries|
  {
    if |entries| == 0 then Ok([])
    else match RegularEntries(fs, entries[..|entries| - 1])
      case Err(e) => Err(e)
      case Ok(found) =>
        var entry := entries[|entries| - 1];
        if entry !in fs then Err(MetadataFailed(entry))
        else if fs[entry] == File then Ok(found + [entry])
        else Ok(found)
  }

  /** What one query path contributes, links followed: itself when it is a
      regular file, its regular-file entries (not descending further) when it
      is a directory. */
  function Contribution(fs: FileSystem, path: string): Result<seq<string>, Error>
  {
    var node := Resolve(fs, path);
    if node.None? then Err(MetadataFailed(path))
    else if node.value.File? then Ok([path])
    else if node.value.Dir? then RegularEntries(fs, node.value.entries)
    else Err(ReadDirFailed(path))
  }

  /** The contributions of `paths` in argument order, or the first error. */
  function Gathered(fs: FileSystem, paths: seq<string>): (r: Result<seq<string>, Error>)
    ensures r.Err? ==> r.error != NoInputFiles
    decreases |paths|
  {
    if |paths| == 0 then Ok([])
    else match Gathered(fs, paths[..|paths| - 1])
      case Err(e) => Err(e)
      case Ok(files) =>
        match Contribution(fs, paths[|paths| - 1])
        case Err(e) => Err(e)
        case Ok(more) => Ok(files + more)
  }

  /** The specification of `find_files`. */
  function Discover(fs: FileSystem, paths: seq<string>): (r: Result<seq<string>, Error>)
    ensures r == Err(NoInputFiles) <==> Gathered(fs, paths) == Ok([])
    ensures r.Ok? ==> Gathered(fs, paths) == r && |r.value| > 0
  {
    match Gathered(fs, paths)
    case Err(e) => Err(e)
    case Ok(files) => if |files| == 0 then Err(NoInputFiles) else Ok(files)
  }

  /** Gathering a concatenation gathers its parts in order. */
  lemma {:induction false} GatheredAppend(fs: FileSystem, paths: seq<string>, more: seq<string>)
    ensures Gathered(fs, paths + more) ==
      match Gathered(fs, paths)
      case Err(e) => Err(e)
      case Ok(a) => match Gathered(fs, more) case Err(e) => Err(e) case Ok(b) => Ok(a + b)
    decreases |more|
  {
    if |more| > 0 {
      var all := paths + more;
      assert all[..|all| - 1] == paths + more[..|more| - 1];
      GatheredAppend(fs, paths, more[..|more| - 1]);
      assert all[|all| - 1] == more[|more| - 1];
      match Gathered(fs, paths)
      case Err(e) =>
      case Ok(a) =>
        match Gathered(fs, more[..|more| - 1])
        case Err(e) =>
        case Ok(b) =>
          match Contribution(fs, more[|more| - 1])
          case Err(e) =>
          case Ok(c) => assert a + b + c == a + (b + c);
    } else {
      assert paths + more == paths;
      assert Gathered(fs, more) == Ok([]);
      if Gathered(fs, paths).Ok? {
        assert Gathered(fs, paths).value + [] == Gathered(fs, paths).value;
      }
    }
  }

  lemma {:induction false} RegularEntriesAppend(fs: FileSystem, entries: seq<string>, more: seq<string>)
    ensures RegularEntries(fs, entries + more) ==
      match RegularEntries(fs, entries)
      case Err(e) => Err(e)
      case Ok(a) => match RegularEntries(fs, more) case Err(e) => Err(e) case Ok(b) => Ok(a + b)
    decreases |more|
  {
    if |more| > 0 {
      var all := entries + more;
      assert all[..|all| - 1] == entries + more[..|more| - 1];
      RegularEntriesAppend(fs, entries, more[..|more| - 1]);
      assert all[|all| - 1] == more[|more| - 1];
      match RegularEntries(fs, entries)
      case Err(e) =>
      case Ok(a) =>
        match RegularEntries(fs, more[..|more| - 1])
        case Err(e) =>
        case Ok(b) => assert a + (b + [all[|all| - 1]]) == a + b + [all[|all| - 1]];
    } else {
      assert entries + more == entries;
      assert RegularEntries(fs, more) == Ok([]);
      if RegularEntries(fs, entries).Ok? {
        assert RegularEntries(fs, entries).value + [] == RegularEntries(fs, entries).value;
      }
    }
  }

  /** The found entries are exactly the listed entries that are regular files. */
  lemma {:induction false} RegularEntriesExactly(fs: FileSystem, entries: seq<string>, x: string)
    requires RegularEntries(fs, entries).Ok?
    ensures x in RegularEntries(fs, entries).value <==> x in entries && IsPlainFile(fs, x)
    decreases |entries|
  {
    if |entries| > 0 {
      var init := entries[..|entries| - 1];
      RegularEntriesExactly(fs, init, x);
      assert entries == init + [entries[|entries| - 1]];
      forall e | e in entries ensures e == entries[|entries| - 1] || e in init { }
    }
  }

  /** `x` is found through the query path `path`: it is `path` itself and
      resolves to a regular file, or it is a plain regular file listed in the
      directory `path` resolves to. */
  predicate FoundThrough(fs: FileSystem, path: string, x: string)
  {
    || (path == x && IsFile(fs, x))
    || (Resolve(fs, path).Some? && Resolve(fs, path).value.Dir? && x in Resolve(fs, path).value.entries && IsPlainFile(fs, x))
  }

  /** A path is gathered exactly when it is found through one of the query
      paths: a query path that is (a link to) a regular file, or a plain
      regular file directly inside a query directory. */
  lemma {:induction false} GatheredExactly(fs: FileSystem, paths: seq<string>, x: string)
    requires Gathered(fs, paths).Ok?
    ensures x in Gathered(fs, paths).value <==> exists i :: 0 <= i < |paths| && FoundThrough(fs, paths[i], x)
    decreases |paths|
  {
    if |paths| > 0 {
      var init := paths[..|paths| - 1];
      var last := paths[|paths| - 1];
      GatheredExactly(fs, init, x);
      var node := Resolve(fs, last);
      assert node.Some?;
      if node.value.Dir? {
        RegularEntriesExactly(fs, node.value.entries, x);
      }
      if exists i :: 0 <= i < |paths| && FoundThrough(fs, paths[i], x) {
        var i :| 0 <= i < |paths| && FoundThrough(fs, paths[i], x);
        if i < |init| { assert init[i] == paths[i]; }
      }
      if exists i :: 0 <= i < |init| && FoundThrough(fs, init[i], x) {
        var i :| 0 <= i < |init| && FoundThrough(fs, init[i], x);
        assert paths[i] == init[i];
      }
    }
  }

  /** The inner loop of `find_files`: the regular-file entries of a directory
      pushed after `files`, or the error of the first entry whose metadata
      cannot be read. */
  method ScanDir(fs: FileSystem, entries: seq<string>, files: seq<string>) returns (r: Result<seq<string>, Error>)
    ensures var found := RegularEntries(fs, entries);
      && (found.Err? ==> r == Err(found.error))
      && (found.Ok? ==> r == Ok(files + found.value))
  {
    var acc := files;
    for j := 0 to |entries|
      invariant RegularEntries(fs, entries[..j]).Ok?
      invariant acc == files + RegularEntries(fs, entries[..j]).value
    {
      var entry := entries[j];
      PrefixOfPrefix(entries, j, j + 1);
      SplitAt(entries, j + 1);
      RegularEntriesAppend(fs, entries[..j + 1], entries[j + 1..]);
      if entry !in fs {
        return Err(MetadataFailed(entry));
      }
      if fs[entry] == File {
        acc := acc + [entry];
      }
    }
    assert entries[..|entries|] == entries;
    r := Ok(acc);
  }

  /** `find_files`. */
  method FindFiles(fs: FileSystem, paths: seq<string>) returns (r: Result<seq<string>, Error>)
    ensures r == Discover(fs, paths)
    ensures r.Ok? ==> forall k :: 0 <= k < |r.value| ==> IsFile(fs, r.value[k])
  {
    var files: seq<string> := [];
    for i := 0 to |paths|
      invariant Gathered(fs, paths[..i]) == Ok(files)
    {
      var path := paths[i];
      PrefixOfPrefix(paths, i, i + 1);
      SplitAt(paths, i + 1);
      GatheredAppend(fs, paths[..i + 1], paths[i + 1..]);
      var meta := Resolve(fs, path);
      if meta.None? {
        return Err(MetadataFailed(path));
      }
      if meta.value.File? {
        files := files + [path];
      } else if meta.value.Dir? {
        var scanned := ScanDir(fs, meta.value.entries, files);
        if scanned.Err? {
          return Err(scanned.error);
        }
        files := scanned.value;
      } else {
        return Err(ReadDirFailed(path));
      }
    }
    assert paths[..|paths|] == paths;
    if |files| == 0 {
      return Err(NoInputFiles);
    }
    forall k | 0 <= k < |files| ensures IsFile(fs, files[k]) {
      GatheredExactly(fs, paths, files[k]);
      var i :| 0 <= i < |paths| && FoundThrough(fs, paths[i], files[k]);
    }
    r := Ok(files);
  }

  // ---------------------------------------------------------------------------
  // sketch_files

  /** `sketch_files` after the sketch directory exists.  `read` is the CSV
      reader of the alias file, `pool` the job pool, and `listing` the
      non-directory paths the walk of the sketch directory finds once the pool
      has finished. */
  method SketchFiles(config: Config, files: seq<string>, fs: FileSystem, read: (string, char) -> seq<Record>,
                     pool: (string, u32) -> bool, listing: seq<string>) returns (r: Result<seq<string>, Error>)
    ensures var loaded := LoadedAliases(config.aliasFile, fs, read);
      loaded.Err? ==> r == Err(loaded.error)
    ensures var loaded := LoadedAliases(config.aliasFile, fs, read);
      loaded.Ok? ==>
        var jobs := PendingJobs(fs, SketchDir(config), loaded.value, Params(config), files);
        var ran := jobs == [] || pool(Join(Commands(jobs), NEWLINE), 8);
        && (!ran ==> r == Err(JobsFailed))
        && (ran && |listing| != |files| ==> r == Err(IncompleteSketches))
        && (ran && |listing| == |files| ==> r == Ok(Sort(listing)))
    ensures r.Ok? ==> Sorted(r.value) && multiset(r.value) == multiset(listing) && |r.value| == |files|
  {
    var sketchDir := PathJoin(config.outDir, "sketches");
    var p := Params(config);
    var loaded := GetAliases(config.aliasFile, fs, read);
    if loaded.Err? {
      return Err(loaded.error);
    }
    var jobs := BuildJobs(fs, sketchDir, loaded.value, p, files);
    var ran := RunJobs(Commands(jobs), 8, pool);
    if ran.Err? {
      return Err(ran.error);
    }
    var sketches := Sort(listing);
    if |files| != |sketches| {
      return Err(IncompleteSketches);
    }
    r := Ok(sketches);
  }
}
