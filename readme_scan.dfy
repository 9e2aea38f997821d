/** The project scan that feeds README generation: the `.gitignore` filter,
    the ignore test, the choice of files to read, the size gate, the TODO/FIXME
    harvest, and the context size picked from the machine's memory.

    The file system is not walked here: the scan receives, in walk order, each
    file's path relative to the project root and either the lines it read or
    `None` when opening or decoding the file failed. */
module ReadmeScan {
  import opened PyStr
  import Glob

  datatype Option<T> = None | Some(value: T)

  const OUTPUT_FILENAME: string := "README.md"
  const MAX_FILE_SIZE: nat := 25000

  /** Name endings that make a file worth reading (a set in the script; only
      membership matters). */
  const EXTENSIONS: seq<string> := [
    ".py", ".js", ".ts", ".tsx", ".jsx", ".html", ".css", ".scss",
    ".java", ".c", ".cpp", ".h", ".cs", ".php", ".rb", ".go", ".rs",
    ".vue", ".svelte", ".kt", ".swift", ".dart",
    ".json", ".xml", ".yaml", ".yml", ".toml", ".ini", ".sql", ".prisma", ".graphql",
    ".dockerfile", "Dockerfile", ".sh", ".bat", ".ps1", "Makefile"
  ]

  /** Names read whatever their ending. */
  const SPECIAL_NAMES: seq<string> := ["Dockerfile", "Makefile", "Gemfile"]

  /** The patterns every scan ignores, before any `.gitignore` line. */
  const DEFAULT_PATTERNS: seq<string> :=
    [".git", "node_modules", "venv", "__pycache__", "dist", "build", ".idea", ".vscode", ".next", "target"]

  // ---------------------------------------------------------------------------
  // Context size from total memory
  // ---------------------------------------------------------------------------

  const GIB: nat := 1073741824

  /** `get_optimal_ctx`: `totalRam` is the machine's memory in bytes, or `None`
      when `psutil` is not installed. */
  function OptimalCtx(totalRam: Option<nat>): (ctx: nat)
    ensures ctx == 4096 || ctx == 16384 || ctx == 32768
    ensures ctx == 4096 <==> totalRam.None? || totalRam.value < 10 * GIB
    ensures ctx == 16384 <==> totalRam.Some? && 10 * GIB <= totalRam.value < 20 * GIB
    ensures ctx == 32768 <==> totalRam.Some? && 20 * GIB <= totalRam.value
  {
    if totalRam.None? then 4096
    else if totalRam.value < 10 * GIB then 4096
    else if totalRam.value < 20 * GIB then 16384
    else 32768
  }

  /** More memory never yields a smaller context, and without `psutil` the
      context is the smallest one. */
  lemma OptimalCtxMonotone(a: nat, b: nat)
    requires a <= b
    ensures OptimalCtx(None) <= OptimalCtx(Some(a)) <= OptimalCtx(Some(b))
  {
  }

  // ---------------------------------------------------------------------------
  // Reading .gitignore
  // ---------------------------------------------------------------------------

  /** A `.gitignore` line becomes a pattern when, stripped, it is non-empty
      and not a comment. */
  predicate KeepLine(line: string)
  {
    var t := Strip(line);
    t != [] && !StartsWith(t, "#")
  }

  /** The patterns a `.gitignore` contributes, in line order. */
  function KeptPatterns(lines: seq<string>): (r: seq<string>)
    ensures |r| <= |lines|
  {
    if lines == [] then []
    else
      var last := lines[|lines| - 1];
      KeptPatterns(lines[..|lines| - 1]) + if KeepLine(last) then [Strip(last)] else []
  }

  /** `parse_gitignore`: `gitignore` is `None` when the project has no
      `.gitignore`. */
  method ParseGitignore(gitignore: Option<seq<string>>) returns (patterns: seq<string>)
    ensures patterns == DEFAULT_PATTERNS + if gitignore.Some? then KeptPatterns(gitignore.value) else []
  {
    patterns := DEFAULT_PATTERNS;
    if gitignore.Some? {
      var lines := gitignore.value;
      for i := 0 to |lines|
        invariant patterns == DEFAULT_PATTERNS + KeptPatterns(lines[..i])
      {
        KeptStep(lines, i);
        var line := Strip(lines[i]);
        if line != [] && !StartsWith(line, "#") {
          assert DEFAULT_PATTERNS + KeptPatterns(lines[..i]) + [line] == DEFAULT_PATTERNS + (KeptPatterns(lines[..i]) + [line]);
          patterns := patterns + [line];
        }
      }
      assert lines[..|lines|] == lines;
    }
  }

  lemma KeptStep(lines: seq<string>, i: nat)
    requires i < |lines|
    ensures KeptPatterns(lines[..i + 1]) ==
      KeptPatterns(lines[..i]) + if KeepLine(lines[i]) then [Strip(lines[i])] else []
  {
    assert lines[..i + 1][..i] == lines[..i];
  }

  /** Every added pattern is a stripped line of the file that is kept: the
      returned index names that line. */
  lemma {:induction false} KeptPatternSource(lines: seq<string>, p: string) returns (k: nat)
    requires p in KeptPatterns(lines)
    ensures k < |lines| && KeepLine(lines[k]) && Strip(lines[k]) == p
    decreases |lines|
  {
    var init := lines[..|lines| - 1];
    KeptStep(lines, |lines| - 1);
    assert lines[..|lines| - 1 + 1] == lines;
    if p in KeptPatterns(init) {
      k := KeptPatternSource(init, p);
      assert lines[k] == init[k];
    } else {
      k := |lines| - 1;
    }
  }

  /** Every kept line is added, stripped. */
  lemma {:induction false} KeptLineAdded(lines: seq<string>, k: nat)
    requires k < |lines| && KeepLine(lines[k])
    ensures Strip(lines[k]) in KeptPatterns(lines)
    decreases |lines|
  {
    var init, last, t := lines[..|lines| - 1], lines[|lines| - 1], Strip(lines[k]);
    assert KeptPatterns(lines) == KeptPatterns(init) + if KeepLine(last) then [Strip(last)] else [];
    if k < |init| {
      assert t in KeptPatterns(init) by {
        assert init[k] == lines[k];
        KeptLineAdded(init, k);
      }
    } else {
      assert t == Strip(last) && KeepLine(last);
    }
  }

  /** Added patterns are non-empty, do not open with `#` and carry no outer
      whitespace. */
  lemma KeptPatternsWellFormed(lines: seq<string>, p: string)
    requires p in KeptPatterns(lines)
    ensures p != [] && !StartsWith(p, "#")
    ensures p[0] !in WHITESPACE && p[|p| - 1] !in WHITESPACE
  {
    var k := KeptPatternSource(lines, p);
  }

  // ---------------------------------------------------------------------------
  // The ignore test
  // ---------------------------------------------------------------------------

  /** `os.path.basename`: what follows the last `/`. */
  function BaseName(path: string): (r: string)
    ensures EndsWith(path, r)
    ensures '/' !in r
    ensures |r| < |path| ==> path[|path| - |r| - 1] == '/'
  {
    if path == [] || path[|path| - 1] == '/' then []
    else BaseName(path[..|path| - 1]) + [path[|path| - 1]]
  }

  /** A pattern ending in `/` names a directory: it matches when, without its
      trailing slashes, it is one of the path's components. */
  predicate DirPatternMatches(relPath: string, pattern: string)
  {
    EndsWith(pattern, "/") && RStrip(pattern, {'/'}) in Split(relPath, '/')
  }

  predicate PatternMatches(relPath: string, pattern: string)
  {
    DirPatternMatches(relPath, pattern)
    || Glob.Match(relPath, pattern) || Glob.Match(BaseName(relPath), pattern)
  }

  predicate Ignored(relPath: string, patterns: seq<string>)
  {
    exists k :: 0 <= k < |patterns| && PatternMatches(relPath, patterns[k])
  }

  /** `is_ignored`, on the path relative to the project root. */
  method IsIgnored(relPath: string, patterns: seq<string>) returns (ignored: bool)
    ensures ignored <==> Ignored(relPath, patterns)
  {
    for i := 0 to |patterns|
      invariant forall k :: 0 <= k < i ==> !PatternMatches(relPath, patterns[k])
    {
      var pattern := patterns[i];
      if EndsWith(pattern, "/") {
        if RStrip(pattern, {'/'}) in Split(relPath, '/') {
          return true;
        }
      }
      if Glob.Match(relPath, pattern) || Glob.Match(BaseName(relPath), pattern) {
        return true;
      }
    }
    return false;
  }

  /** Only which patterns are present matters, not their order or repetition:
      a list whose patterns all occur in another ignores no more than it. */
  lemma IgnoredMonotone(relPath: string, ps: seq<string>, qs: seq<string>)
    requires forall k :: 0 <= k < |ps| ==> ps[k] in qs
    ensures Ignored(relPath, ps) ==> Ignored(relPath, qs)
  {
    if Ignored(relPath, ps) {
      var k :| 0 <= k < |ps| && PatternMatches(relPath, ps[k]);
      var j :| 0 <= j < |qs| && qs[j] == ps[k];
      assert PatternMatches(relPath, qs[j]);
    }
  }

  /** A plain name ignores the path equal to it and every file so named. */
  lemma LiteralPatternMatches(relPath: string, pattern: string)
    requires !Glob.HasWildcard(pattern) && !EndsWith(pattern, "/")
    ensures PatternMatches(relPath, pattern) <==> relPath == pattern || BaseName(relPath) == pattern
  {
    Glob.LiteralMatch(relPath, pattern);
    Glob.LiteralMatch(BaseName(relPath), pattern);
  }

  /** `*` followed by a plain ending ignores exactly the paths with that ending. */
  lemma StarPatternMatches(relPath: string, suffix: string)
    requires !Glob.HasWildcard(suffix) && !EndsWith(suffix, "/")
    ensures PatternMatches(relPath, "*" + suffix) <==> EndsWith(relPath, suffix)
  {
    var pattern := "*" + suffix;
    var base := BaseName(relPath);
    assert !EndsWith(pattern, "/") by {
      if suffix == [] {
        assert pattern == "*";
      } else {
        assert pattern[|pattern| - 1..] == suffix[|suffix| - 1..];
      }
    }
    Glob.StarSuffixMatch(relPath, suffix);
    Glob.StarSuffixMatch(base, suffix);
    if EndsWith(base, suffix) {
      assert relPath[|relPath| - |base|..][|base| - |suffix|..] == relPath[|relPath| - |suffix|..];
    }
  }

  /** `name/` ignores exactly the paths with a component `name`. */
  lemma DirPatternIff(relPath: string, name: string)
    requires name != [] && '/' !in name && !Glob.HasWildcard(name)
    requires relPath == [] || relPath[|relPath| - 1] != '/'
    ensures PatternMatches(relPath, name + "/") <==> name in Split(relPath, '/')
  {
    var pattern := name + "/";
    assert EndsWith(pattern, "/");
    var stripped := RStrip(pattern, {'/'});
    assert pattern[|name|] == '/';
    assert pattern[|name| - 1] == name[|name| - 1];
    assert |stripped| == |name|;
    assert stripped == name;
    assert !Glob.HasWildcard(pattern) by {
      assert forall k :: 0 <= k < |pattern| ==> pattern[k] == '/' || pattern[k] in name;
    }
    Glob.LiteralMatch(relPath, pattern);
    Glob.LiteralMatch(BaseName(relPath), pattern);
    assert pattern[|pattern| - 1] == '/';
  }

  // ---------------------------------------------------------------------------
  // Which files are read
  // ---------------------------------------------------------------------------

  /** `any(name.endswith(e) for e in endings)` */
  predicate EndsWithAny(name: string, endings: seq<string>)
  {
    endings != [] && (EndsWith(name, endings[0]) || EndsWithAny(name, endings[1..]))
  }

  predicate HasKnownExtension(name: string)
  {
    EndsWithAny(name, EXTENSIONS)
  }

  /** A name with one of the endings passes `any(...)`. */
  lemma {:induction false} EndsWithAnyAt(name: string, endings: seq<string>, k: nat)
    requires k < |endings| && EndsWith(name, endings[k])
    ensures EndsWithAny(name, endings)
    decreases k
  {
    if k > 0 {
      assert endings[1..][k - 1] == endings[k];
      EndsWithAnyAt(name, endings[1..], k - 1);
    }
  }

  /** The eligibility test: a known ending or a special name, and not the
      generated file itself. */
  predicate IsCandidate(name: string)
  {
    (HasKnownExtension(name) || name in SPECIAL_NAMES) && name != OUTPUT_FILENAME
  }

  /** Every special name is eligible, and `Dockerfile` and `Makefile` are
      endings as well, so only `Gemfile` depends on the list of special names. */
  lemma CandidateShape(name: string)
    ensures name in SPECIAL_NAMES ==> IsCandidate(name)
    ensures IsCandidate(name) ==> HasKnownExtension(name) || name == "Gemfile"
  {
    if name == "Dockerfile" {
      EndsWithAnyAt(name, EXTENSIONS, 32);
    } else if name == "Makefile" {
      EndsWithAnyAt(name, EXTENSIONS, 36);
    }
  }

  /** A name whose last character ends none of the endings ends with none of them. */
  lemma {:induction false} EndsWithNoneByLastChar(name: string, endings: seq<string>)
    requires name != []
    requires forall k :: 0 <= k < |endings| ==> endings[k] != [] && endings[k][|endings[k]| - 1] != name[|name| - 1]
    ensures !EndsWithAny(name, endings)
    decreases |endings|
  {
    if endings != [] {
      var e := endings[0];
      if |e| <= |name| {
        assert name[|name| - |e|..][|e| - 1] == name[|name| - 1];
      }
      EndsWithNoneByLastChar(name, endings[1..]);
    }
  }

  /** No known ending finishes with `d`, so a name ending in `d` (such as
      `README.md`) is never read for its ending: the explicit exclusion of the
      output file only doubles what the ending list already decides. */
  lemma NoExtensionEndsInD(name: string)
    requires name != [] && name[|name| - 1] == 'd'
    ensures !HasKnownExtension(name)
  {
    forall k | 0 <= k < |EXTENSIONS|
      ensures EXTENSIONS[k] != [] && EXTENSIONS[k][|EXTENSIONS[k]| - 1] != name[|name| - 1]
    {
    }
    EndsWithNoneByLastChar(name, EXTENSIONS);
  }

  lemma OutputFileNeverCandidate()
    ensures !HasKnownExtension(OUTPUT_FILENAME) && OUTPUT_FILENAME !in SPECIAL_NAMES
  {
    NoExtensionEndsInD(OUTPUT_FILENAME);
  }

  // ---------------------------------------------------------------------------
  // The scan
  // ---------------------------------------------------------------------------

  /** A file met by the walk: its path relative to the project root, its own
      name as the walk reports it, and its lines as `readlines` returns them,
      or `None` when opening or decoding it failed. */
  datatype SourceFile = SourceFile(relPath: string, name: string, lines: Option<seq<string>>)

  /** The walk reports as a file's name the last component of its path, so
      the ignore test's base name and the name used for eligibility, TODO
      entries and the truncated list are one and the same. */
  predicate FromWalk(f: SourceFile)
  {
    f.name == BaseName(f.relPath)
  }

  /** The lines of a file that was read; files that could not be read never
      reach the scan's accumulators. */
  function Lines(f: SourceFile): seq<string>
  {
    if f.lines.Some? then f.lines.value else []
  }

  /** The files of `files` that `keep` accepts, in order. */
  function Keep(files: seq<SourceFile>, keep: SourceFile -> bool): seq<SourceFile>
  {
    if files == [] then []
    else
      var f := files[|files| - 1];
      Keep(files[..|files| - 1], keep) + if keep(f) then [f] else []
  }

  /** A file is kept exactly when it is one of the files and is accepted. */
  lemma {:induction false} KeepIff(files: seq<SourceFile>, keep: SourceFile -> bool, f: SourceFile)
    ensures f in Keep(files, keep) <==> f in files && keep(f)
    decreases |files|
  {
    if files != [] {
      var init := files[..|files| - 1];
      KeepIff(init, keep, f);
      assert files == init + [files[|files| - 1]];
    }
  }

  /** A file contributes when it passes the ignore test and the eligibility
      test and could be read. */
  predicate Selected(f: SourceFile, patterns: seq<string>)
  {
    !Ignored(f.relPath, patterns) && IsCandidate(f.name) && f.lines.Some?
  }

  /** The files that contribute to the scan, in walk order. */
  function Processed(files: seq<SourceFile>, patterns: seq<string>): seq<SourceFile>
  {
    Keep(files, f => Selected(f, patterns))
  }

  /** `"".join(lines)` */
  function Content(lines: seq<string>): string
  {
    Join(lines, "")
  }

  function Header(relPath: string): string
  {
    "\n\n--- FICHIER: " + relPath + " ---\n"
  }

  function Placeholder(size: nat): string
  {
    "// [INFO] Fichier ignor\U{E9} car trop volumineux (" + NatToString(size) + " car.)."
  }

  predicate Small(f: SourceFile)
  {
    |Content(Lines(f))| < MAX_FILE_SIZE
  }

  /** What one read file adds to the code text: its header, then its content
      when it is under the size limit and a note giving its size otherwise. */
  function FileCode(f: SourceFile): (r: string)
    ensures StartsWith(r, Header(f.relPath))
    ensures Small(f) ==> |r| < |Header(f.relPath)| + MAX_FILE_SIZE
  {
    var content := Content(Lines(f));
    Header(f.relPath) + if Small(f) then content else Placeholder(|content|)
  }

  function CodeOf(ps: seq<SourceFile>): string
  {
    if ps == [] then "" else CodeOf(ps[..|ps| - 1]) + FileCode(ps[|ps| - 1])
  }

  /** `files_scanned`: the read files whose content was included. */
  function ScannedCount(ps: seq<SourceFile>): nat
  {
    if ps == [] then 0 else ScannedCount(ps[..|ps| - 1]) + if Small(ps[|ps| - 1]) then 1 else 0
  }

  /** `ignored_files`: the names of the read files left out for their size. */
  function Truncated(ps: seq<SourceFile>): seq<string>
  {
    if ps == [] then []
    else
      var f := ps[|ps| - 1];
      Truncated(ps[..|ps| - 1]) + if Small(f) then [] else [f.name]
  }

  // ---------------------------------------------------------------------------
  // TODO / FIXME harvest
  // ---------------------------------------------------------------------------

  predicate IsTodoLine(line: string)
  {
    Contains(line, "TODO") || Contains(line, "FIXME")
  }

  /** The line with every `//` and then every `#` removed, trimmed: only
      whitespace, `/` and `#` can be dropped, and the rest keeps its order. */
  function TodoText(line: string): (r: string)
    ensures '#' !in r
    ensures r != [] ==> r[0] !in WHITESPACE && r[|r| - 1] !in WHITESPACE
    ensures forall c :: c !in WHITESPACE && c != '/' && c != '#' ==> multiset(r)[c] == multiset(line)[c]
    ensures IsSubsequence(r, line)
  {
    var s := RemoveAll(RemoveAll(Strip(line), "//"), "#");
    var r := Strip(s);
    CleaningDropsHash(s);
    CleaningKeepsOrder(line);
    forall c | c !in WHITESPACE && c != '/' && c != '#'
      ensures multiset(r)[c] == multiset(line)[c]
    {
      CleaningKeeps(line, c);
    }
    r
  }

  lemma CleaningDropsHash(s: string)
    requires '#' !in s
    ensures '#' !in Strip(s)
  {
    var r := Strip(s);
    CharContainedIff(s, '#');
    NotContainsInherited(s, r, "#");
    CharContainedIff(r, '#');
  }

  /** A line with no `/` and no `#` is only trimmed. */
  lemma TodoTextPlain(line: string)
    requires '/' !in line && '#' !in line
    ensures TodoText(line) == Strip(line)
  {
    var t := Strip(line);
    CharContainedIff(line, '/');
    NotContainsInherited(line, t, "/");
    CharContainedIff(line, '#');
    NotContainsInherited(line, t, "#");
    assert !Contains(t, "//") by {
      if Contains(t, "//") {
        assert OccursAt("//", "/", 0);
        ContainsTrans(t, "//", "/");
      }
    }
    RemoveAllAbsent(t, "//");
    RemoveAllAbsent(t, "#");
    StripFixed(t);
  }

  lemma CleaningKeepsOrder(line: string)
    ensures IsSubsequence(Strip(RemoveAll(RemoveAll(Strip(line), "//"), "#")), line)
  {
    var t := Strip(line);
    var u := RemoveAll(t, "//");
    var s := RemoveAll(u, "#");
    StripSubsequence(line);
    RemoveAllSubsequence(t, "//");
    SubsequenceTrans(u, t, line);
    RemoveAllSubsequence(u, "#");
    SubsequenceTrans(s, u, line);
    StripSubsequence(s);
    SubsequenceTrans(Strip(s), s, line);
  }

  lemma CleaningKeeps(line: string, c: char)
    requires c !in WHITESPACE && c != '/' && c != '#'
    ensures multiset(Strip(RemoveAll(RemoveAll(Strip(line), "//"), "#")))[c] == multiset(line)[c]
  {
    var t := Strip(line);
    var u := RemoveAll(t, "//");
    var s := RemoveAll(u, "#");
    StripKeepsText(line, c);
    assert c !in "//" && c !in "#";
    RemoveAllKeeps(t, "//");
    RemoveAllKeeps(u, "#");
    assert multiset(u)[c] == multiset(t)[c];
    assert multiset(s)[c] == multiset(u)[c];
    StripKeepsText(s, c);
  }

  function TodoEntry(name: string, line: string): string
  {
    "- [" + name + "] " + TodoText(line)
  }

  /** The matching lines, in order. */
  function TodoLines(lines: seq<string>): seq<string>
  {
    if lines == [] then []
    else
      var last := lines[|lines| - 1];
      TodoLines(lines[..|lines| - 1]) + if IsTodoLine(last) then [last] else []
  }

  /** A line is kept exactly when it is one of the lines and mentions TODO or FIXME. */
  lemma {:induction false} TodoLinesIff(lines: seq<string>, line: string)
    ensures line in TodoLines(lines) <==> line in lines && IsTodoLine(line)
    decreases |lines|
  {
    if lines != [] {
      var init := lines[..|lines| - 1];
      TodoLinesIff(init, line);
      assert lines == init + [lines[|lines| - 1]];
    }
  }

  /** The entries one file adds: one per matching line, in line order. */
  function LineTodos(name: string, lines: seq<string>): (r: seq<string>)
    ensures |r| == |TodoLines(lines)|
    ensures forall k :: 0 <= k < |r| ==> r[k] == TodoEntry(name, TodoLines(lines)[k])
  {
    if lines == [] then []
    else
      var init, last := lines[..|lines| - 1], lines[|lines| - 1];
      var r0 := LineTodos(name, init);
      var r := r0 + if IsTodoLine(last) then [TodoEntry(name, last)] else [];
      assert TodoLines(lines) == TodoLines(init) + if IsTodoLine(last) then [last] else [];
      r
  }

  lemma TodoStep(name: string, lines: seq<string>, j: nat)
    requires j < |lines|
    ensures LineTodos(name, lines[..j + 1]) ==
      LineTodos(name, lines[..j]) + if IsTodoLine(lines[j]) then [TodoEntry(name, lines[j])] else []
  {
    assert lines[..j + 1][..j] == lines[..j];
  }

  /** The entries of all read files, whatever their size. */
  function TodoEntries(ps: seq<SourceFile>): seq<string>
  {
    if ps == [] then []
    else
      var f := ps[|ps| - 1];
      TodoEntries(ps[..|ps| - 1]) + LineTodos(f.name, Lines(f))
  }

  // ---------------------------------------------------------------------------
  // get_project_code_and_todos
  // ---------------------------------------------------------------------------

  /** Each accumulator after one more read file. */
  lemma AppendCode(ps: seq<SourceFile>, f: SourceFile)
    ensures CodeOf(ps + [f]) == CodeOf(ps) + FileCode(f)
  {
    assert (ps + [f])[..|ps|] == ps;
  }

  lemma AppendCounts(ps: seq<SourceFile>, f: SourceFile)
    ensures ScannedCount(ps + [f]) == ScannedCount(ps) + if Small(f) then 1 else 0
    ensures Truncated(ps + [f]) == Truncated(ps) + if Small(f) then [] else [f.name]
  {
    assert (ps + [f])[..|ps|] == ps;
  }

  lemma AppendTodos(ps: seq<SourceFile>, f: SourceFile)
    ensures TodoEntries(ps + [f]) == TodoEntries(ps) + LineTodos(f.name, Lines(f))
  {
    assert (ps + [f])[..|ps|] == ps;
  }

  /** The contributing files after the walk reaches one more file. */
  lemma ProcessedStep(files: seq<SourceFile>, i: nat, patterns: seq<string>)
    requires i < |files|
    ensures Processed(files[..i + 1], patterns) ==
      Processed(files[..i], patterns) + if Selected(files[i], patterns) then [files[i]] else []
  {
    assert files[..i + 1][..i] == files[..i];
  }

  method ScanProject(files: seq<SourceFile>, patterns: seq<string>)
    returns (code: string, todos: string, filesScanned: nat, ignoredFiles: seq<string>)
    requires forall i :: 0 <= i < |files| ==> FromWalk(files[i])
    ensures code == CodeOf(Processed(files, patterns))
    ensures todos == Join(TodoEntries(Processed(files, patterns)), "\n")
    ensures filesScanned == ScannedCount(Processed(files, patterns))
    ensures ignoredFiles == Truncated(Processed(files, patterns))
  {
    code := "";
    var todoList: seq<string> := [];
    filesScanned := 0;
    ignoredFiles := [];
    for i := 0 to |files|
      invariant code == CodeOf(Processed(files[..i], patterns))
      invariant todoList == TodoEntries(Processed(files[..i], patterns))
      invariant filesScanned == ScannedCount(Processed(files[..i], patterns))
      invariant ignoredFiles == Truncated(Processed(files[..i], patterns))
    {
      var file := files[i];
      ghost var before := Processed(files[..i], patterns);
      ProcessedStep(files, i, patterns);
      var ignored := IsIgnored(file.relPath, patterns);
      if !ignored {
        var isValid := HasKnownExtension(file.name) || file.name in SPECIAL_NAMES;
        if isValid && file.name != OUTPUT_FILENAME && file.lines.Some? {
          assert Processed(files[..i + 1], patterns) == before + [file];
          code, todoList, filesScanned, ignoredFiles := ReadOne(file, code, todoList, filesScanned, ignoredFiles);
          AppendCode(before, file);
          AppendCounts(before, file);
          AppendTodos(before, file);
        } else {
          assert Processed(files[..i + 1], patterns) == before;
        }
      } else {
        assert Processed(files[..i + 1], patterns) == before;
      }
    }
    assert files[..|files|] == files;
    todos := Join(todoList, "\n");
  }

  /** The body of the walk for a file that passed the filters and was read. */
  method ReadOne(file: SourceFile, code0: string, todoList0: seq<string>, filesScanned0: nat, ignoredFiles0: seq<string>)
    returns (code: string, todoList: seq<string>, filesScanned: nat, ignoredFiles: seq<string>)
    requires file.lines.Some?
    ensures code == code0 + FileCode(file)
    ensures todoList == todoList0 + LineTodos(file.name, Lines(file))
    ensures filesScanned == filesScanned0 + if Small(file) then 1 else 0
    ensures ignoredFiles == ignoredFiles0 + if Small(file) then [] else [file.name]
  {
    var lines := file.lines.value;
    var content := Content(lines);
    var size := |content|;
    code, filesScanned, ignoredFiles := code0, filesScanned0, ignoredFiles0;
    var header := Header(file.relPath);
    code := code + header;
    if size < MAX_FILE_SIZE {
      code := code + content;
      filesScanned := filesScanned + 1;
      assert code == code0 + (header + content);
    } else {
      code := code + Placeholder(size);
      ignoredFiles := ignoredFiles + [file.name];
      assert code == code0 + (header + Placeholder(size));
    }
    todoList := HarvestTodos(todoList0, file.name, lines);
  }

  lemma HarvestStep(todoList0: seq<string>, name: string, lines: seq<string>, j: nat)
    requires j < |lines|
    ensures todoList0 + LineTodos(name, lines[..j + 1]) ==
      todoList0 + LineTodos(name, lines[..j]) + if IsTodoLine(lines[j]) then [TodoEntry(name, lines[j])] else []
  {
    TodoStep(name, lines, j);
  }

  /** The inner loop over one file's lines. */
  method HarvestTodos(todoList0: seq<string>, name: string, lines: seq<string>) returns (todoList: seq<string>)
    ensures todoList == todoList0 + LineTodos(name, lines)
  {
    todoList := todoList0;
    for j := 0 to |lines|
      invariant todoList == todoList0 + LineTodos(name, lines[..j])
    {
      HarvestStep(todoList0, name, lines, j);
      var line := lines[j];
      if IsTodoLine(line) {
        todoList := todoList + [TodoEntry(name, line)];
      }
    }
    assert lines[..|lines|] == lines;
  }

  // ---------------------------------------------------------------------------
  // Properties of the scan
  // ---------------------------------------------------------------------------

  /** A file contributes exactly when it is met by the walk, passes the ignore
      test and the eligibility test, and could be read. */
  lemma ProcessedIff(files: seq<SourceFile>, patterns: seq<string>, f: SourceFile)
    ensures f in Processed(files, patterns) <==> f in files && Selected(f, patterns)
  {
    KeepIff(files, g => Selected(g, patterns), f);
  }

  /** Every read file is either counted as scanned or named as truncated. */
  lemma {:induction false} ScannedPlusTruncated(ps: seq<SourceFile>)
    ensures ScannedCount(ps) + |Truncated(ps)| == |ps|
    decreases |ps|
  {
    if ps != [] {
      ScannedPlusTruncated(ps[..|ps| - 1]);
    }
  }

  /** A matching line yields its entry. */
  lemma TodoLineYieldsEntry(name: string, lines: seq<string>, j: nat)
    requires j < |lines| && IsTodoLine(lines[j])
    ensures TodoEntry(name, lines[j]) in LineTodos(name, lines)
  {
    TodoLinesIff(lines, lines[j]);
    var todo := TodoLines(lines);
    var i :| 0 <= i < |todo| && todo[i] == lines[j];
    assert LineTodos(name, lines)[i] == TodoEntry(name, lines[j]);
  }

  /** Each entry comes from a matching line: the returned index names it. */
  lemma EntryFromTodoLine(name: string, lines: seq<string>, i: nat) returns (j: nat)
    requires i < |LineTodos(name, lines)|
    ensures j < |lines| && IsTodoLine(lines[j])
    ensures LineTodos(name, lines)[i] == TodoEntry(name, lines[j])
  {
    var line := TodoLines(lines)[i];
    TodoLinesIff(lines, line);
    j :| 0 <= j < |lines| && lines[j] == line;
  }

  /** Every matching line of every read file yields its entry, whatever the
      file's size. */
  lemma {:induction false} TodoFound(ps: seq<SourceFile>, k: nat, j: nat)
    requires k < |ps| && j < |Lines(ps[k])| && IsTodoLine(Lines(ps[k])[j])
    ensures TodoEntry(ps[k].name, Lines(ps[k])[j]) in TodoEntries(ps)
    decreases |ps|
  {
    var init, f := ps[..|ps| - 1], ps[|ps| - 1];
    assert ps == init + [f];
    AppendTodos(init, f);
    var e := TodoEntry(ps[k].name, Lines(ps[k])[j]);
    if k < |init| {
      assert e in TodoEntries(init) by {
        assert init[k] == ps[k];
        TodoFound(init, k, j);
      }
    } else {
      assert e in LineTodos(f.name, Lines(f)) by {
        assert f == ps[k];
        TodoLineYieldsEntry(f.name, Lines(f), j);
      }
    }
  }

  /** Every entry of the harvest comes from a matching line: the returned
      indexes name the read file and the line it was built from. */
  lemma {:induction false} TodoSource(ps: seq<SourceFile>, i: nat) returns (k: nat, j: nat)
    requires i < |TodoEntries(ps)|
    ensures k < |ps| && j < |Lines(ps[k])| && IsTodoLine(Lines(ps[k])[j])
    ensures TodoEntries(ps)[i] == TodoEntry(ps[k].name, Lines(ps[k])[j])
    decreases |ps|
  {
    var init, f := ps[..|ps| - 1], ps[|ps| - 1];
    var before, here := TodoEntries(init), LineTodos(f.name, Lines(f));
    assert TodoEntries(ps) == before + here;
    if i < |before| {
      k, j := TodoSource(init, i);
      assert Lines(ps[k])[j] == Lines(init[k])[j] && ps[k].name == init[k].name by {
        assert ps[k] == init[k];
      }
      assert TodoEntries(ps)[i] == before[i];
    } else {
      j := EntryFromTodoLine(f.name, Lines(f), i - |before|);
      k := |ps| - 1;
      assert TodoEntries(ps)[i] == here[i - |before|];
    }
  }

  lemma {:induction false} EntriesNonEmpty(ps: seq<SourceFile>)
    ensures forall k :: 0 <= k < |TodoEntries(ps)| ==> TodoEntries(ps)[k] != []
    decreases |ps|
  {
    if ps != [] {
      EntriesNonEmpty(ps[..|ps| - 1]);
    }
  }

  /** The harvested TODO text is empty exactly when no line of any read file
      mentions TODO or FIXME. */
  lemma TodosEmptyIff(ps: seq<SourceFile>)
    ensures Join(TodoEntries(ps), "\n") == [] <==>
      forall k, j :: 0 <= k < |ps| && 0 <= j < |Lines(ps[k])| ==> !IsTodoLine(Lines(ps[k])[j])
  {
    EntriesNonEmpty(ps);
    JoinEmptyIff(TodoEntries(ps), "\n");
    if TodoEntries(ps) != [] {
      var k, j := TodoSource(ps, 0);
    }
    forall k, j | 0 <= k < |ps| && 0 <= j < |Lines(ps[k])| && IsTodoLine(Lines(ps[k])[j])
      ensures TodoEntries(ps) != []
    {
      TodoFound(ps, k, j);
    }
  }

  /** Each read file's header, followed by its content when small and by the
      size note otherwise, appears in the code text. */
  lemma {:induction false} FileCodeIncluded(ps: seq<SourceFile>, k: nat)
    requires k < |ps|
    ensures Contains(CodeOf(ps), FileCode(ps[k]))
    decreases |ps|
  {
    var init := ps[..|ps| - 1];
    var code := CodeOf(ps);
    if k == |ps| - 1 {
      SliceContained(code, |CodeOf(init)|, |code|);
      assert code[|CodeOf(init)|..|code|] == FileCode(ps[k]);
    } else {
      FileCodeIncluded(init, k);
      SliceContained(code, 0, |CodeOf(init)|);
      assert code[0..|CodeOf(init)|] == CodeOf(init);
      ContainsTrans(code, CodeOf(init), FileCode(ps[k]));
    }
  }
}
