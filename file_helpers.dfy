/** The FileHelperAliases of Cake.FileHelpers over a model of the disk: the
    whole-file helpers FileReadText, FileWriteText and FileAppendText, and the
    four scan aliases that take the files a glob pattern matched, read each one,
    test it against a literal text or a regular expression, rewrite it when
    replacing, and report the files that matched. */
module FileHelpers {
  import opened Text

  /** An absolute path, as FilePath.MakeAbsolute(environment).FullPath gives
      it. Paths are opaque: the model never resolves or compares them beyond
      equality. */
  type Path = string

  datatype Error =
    | FileNotFound(path: Path)        // File.ReadAllText on a missing file
    | InvalidRegex(pattern: string, options: RegexOptions)
      // new Regex(pattern, options) threw: ArgumentException for a malformed
      // pattern, ArgumentOutOfRangeException for a combination of options it refuses

  datatype Result<T> = Ok(value: T) | Err(error: Error)

  /** No element of `s` appears twice. */
  predicate Distinct<T(==)>(s: seq<T>)
  {
    forall i, j :: 0 <= i < j < |s| ==> s[i] != s[j]
  }

  /** The disk as the host context sees it: the text content of every file. */
  class FileSystem {
    var files: map<Path, string>

    constructor (files: map<Path, string>)
      ensures this.files == files
    {
      this.files := files;
    }
  }

  // ---------------------------------------------------------------------------
  // Regular expressions (System.Text.RegularExpressions), kept abstract

  /** The flags of RegexOptions; a RegexOptions value is a set of them. */
  datatype RegexOption =
    | IgnoreCase | Multiline | ExplicitCapture | Compiled | Singleline
    | IgnorePatternWhitespace | RightToLeft | ECMAScript | CultureInvariant

  type RegexOptions = set<RegexOption>

  /** RegexOptions.None */
  const NoOptions: RegexOptions := {}

  /** A Regex object: the pattern and options it was constructed with. */
  datatype Regex = Regex(pattern: string, options: RegexOptions)

  /** The regular-expression engine as three uninterpreted operations:
      whether `new Regex(pattern, options)` succeeds, `rx.IsMatch(input)`, and
      `rx.Replace(input, replacement)`. */
  datatype RegexEngine = RegexEngine(
    accepts: (string, RegexOptions) -> bool,
    isMatch: (Regex, string) -> bool,
    replace: (Regex, string, string) -> string)

  // ---------------------------------------------------------------------------
  // What the scan aliases report and write

  /** `results` names, once each, exactly the files of `glob` whose content in
      `files` contains `findText`. */
  ghost predicate TextFound(files: map<Path, string>, glob: seq<Path>, findText: string, results: seq<Path>)
    requires forall p :: p in glob ==> p in files
  {
    && Distinct(results)
    && forall p :: p in results <==> p in glob && Contains(files[p], findText)
  }

  /** `results` is what TextFound requires of `before`, every reported file
      holds its old content with `findText` replaced by `replaceText`, and
      every other file is as it was. */
  ghost predicate TextReplaced(before: map<Path, string>, after: map<Path, string>, glob: seq<Path>,
                               findText: string, replaceText: string, results: seq<Path>)
    requires forall p :: p in glob ==> p in before
    requires findText != []
  {
    && TextFound(before, glob, findText, results)
    && after.Keys == before.Keys
    && forall p :: p in after ==>
         after[p] == if p in results then Replace(before[p], findText, replaceText) else before[p]
  }

  /** `results` names, once each, exactly the files of `glob` whose content in
      `files` `rx` matches. */
  ghost predicate RegexFound(files: map<Path, string>, glob: seq<Path>, engine: RegexEngine, rx: Regex,
                             results: seq<Path>)
    requires forall p :: p in glob ==> p in files
  {
    && Distinct(results)
    && forall p :: p in results <==> p in glob && engine.isMatch(rx, files[p])
  }

  /** `results` is what RegexFound requires of `before`, every reported file
      holds `rx.Replace` of its old content, and every other file is as it was. */
  ghost predicate RegexReplaced(before: map<Path, string>, after: map<Path, string>, glob: seq<Path>,
                                engine: RegexEngine, rx: Regex, replaceText: string, results: seq<Path>)
    requires forall p :: p in glob ==> p in before
  {
    && RegexFound(before, glob, engine, rx, results)
    && after.Keys == before.Keys
    && forall p :: p in after ==>
         after[p] == if p in results then engine.replace(rx, before[p], replaceText) else before[p]
  }

  // ---------------------------------------------------------------------------
  // Whole-file helpers

  /** File.ReadAllText: the file's content, or an error for a missing file. */
  method FileReadText(fs: FileSystem, file: Path) returns (r: Result<string>)
    ensures file in fs.files ==> r == Ok(fs.files[file])
    ensures file !in fs.files ==> r == Err(FileNotFound(file))
  {
    if file in fs.files {
      r := Ok(fs.files[file]);
    } else {
      r := Err(FileNotFound(file));
    }
  }

  /** File.WriteAllText: creates the file or overwrites all of its content. */
  method FileWriteText(fs: FileSystem, file: Path, text: string)
    modifies fs
    ensures fs.files == old(fs.files)[file := text]
  {
    fs.files := fs.files[file := text];
  }

  /** File.AppendAllText: creates the file if needed and adds `text` at its end. */
  method FileAppendText(fs: FileSystem, file: Path, text: string)
    modifies fs
    ensures fs.files == old(fs.files)[file := (if file in old(fs.files) then old(fs.files)[file] else []) + text]
  {
    var prev := if file in fs.files then fs.files[file] else [];
    fs.files := fs.files[file := prev + text];
  }

  /** Writing a file and reading it back gives the text written. */
  method WriteThenRead(fs: FileSystem, file: Path, text: string) returns (r: Result<string>)
    modifies fs
    ensures r == Ok(text)
    ensures fs.files == old(fs.files)[file := text]
  {
    FileWriteText(fs, file, text);
    r := FileReadText(fs, file);
  }

  /** Appending and reading back gives the old content (empty if there was no
      file) followed by the text appended. */
  method AppendThenRead(fs: FileSystem, file: Path, text: string) returns (r: Result<string>)
    modifies fs
    ensures r == Ok((if file in old(fs.files) then old(fs.files)[file] else []) + text)
    ensures fs.files == old(fs.files)[file := (if file in old(fs.files) then old(fs.files)[file] else []) + text]
  {
    FileAppendText(fs, file, text);
    r := FileReadText(fs, file);
  }

  // ---------------------------------------------------------------------------
  // Scan aliases. FileHelperAliases runs one task per file in parallel and collects
  // the hits in a concurrent bag; over distinct files the loop below has the
  // same effect, and no postcondition promises an order of the results.

  /** The task ReplaceTextInFiles runs for one file: read it and, if it
      contains `findText`, overwrite it with every occurrence replaced. */
  method ReplaceTextInFile(fs: FileSystem, f: Path, findText: string, replaceText: string) returns (hit: bool)
    requires findText != []
    requires f in fs.files
    modifies fs
    ensures hit == Contains(old(fs.files)[f], findText)
    ensures fs.files == if hit then old(fs.files)[f := Replace(old(fs.files)[f], findText, replaceText)]
                        else old(fs.files)
  {
    var read := FileReadText(fs, f);
    var contents := read.value;
    hit := Contains(contents, findText);
    if hit {
      contents := Replace(contents, findText, replaceText);
      FileWriteText(fs, f, contents);
    }
  }

  /** The task FindTextInFiles runs for one file: read it and test it. */
  method FindTextInFile(fs: FileSystem, f: Path, findText: string) returns (hit: bool)
    requires f in fs.files
    ensures hit == Contains(fs.files[f], findText)
  {
    var read := FileReadText(fs, f);
    hit := Contains(read.value, findText);
  }

  /** The task ReplaceRegexInFiles runs for one file: read it and, if `rx`
      matches, overwrite it with `rx.Replace` of its content. */
  method ReplaceRegexInFile(fs: FileSystem, f: Path, rx: Regex, replaceText: string, engine: RegexEngine)
    returns (hit: bool)
    requires f in fs.files
    modifies fs
    ensures hit == engine.isMatch(rx, old(fs.files)[f])
    ensures fs.files == if hit then old(fs.files)[f := engine.replace(rx, old(fs.files)[f], replaceText)]
                        else old(fs.files)
  {
    var read := FileReadText(fs, f);
    var contents := read.value;
    hit := engine.isMatch(rx, contents);
    if hit {
      contents := engine.replace(rx, contents, replaceText);
      FileWriteText(fs, f, contents);
    }
  }

  /** The task FindRegexInFiles runs for one file: read it and test it. */
  method FindRegexInFile(fs: FileSystem, f: Path, rx: Regex, engine: RegexEngine) returns (hit: bool)
    requires f in fs.files
    ensures hit == engine.isMatch(rx, fs.files[f])
  {
    var read := FileReadText(fs, f);
    hit := engine.isMatch(rx, read.value);
  }

  /** ReplaceTextInFiles: in every globbed file that contains `findText`,
      replace each occurrence by `replaceText`, and report those files. */
  method ReplaceTextInFiles(fs: FileSystem, glob: seq<Path>, findText: string, replaceText: string)
    returns (results: seq<Path>)
    requires findText != []
    requires Distinct(glob)
    requires forall p :: p in glob ==> p in fs.files
    modifies fs
    ensures TextReplaced(old(fs.files), fs.files, glob, findText, replaceText, results)
  {
    results := [];
    var i := 0;
    while i < |glob|
      invariant 0 <= i <= |glob|
      invariant TextReplaced(old(fs.files), fs.files, glob[..i], findText, replaceText, results)
    {
      var f := glob[i];
      assert glob[..i + 1] == glob[..i] + [f];
      ghost var (files0, results0) := (fs.files, results);
      var hit := ReplaceTextInFile(fs, f, findText, replaceText);
      if hit {
        results := results + [f];
      }
      TextReplacedStep(old(fs.files), files0, glob[..i], f, findText, replaceText, results0);
      i := i + 1;
    }
    assert glob[..i] == glob;
  }

  /** FindTextInFiles: report the globbed files that contain `findText`,
      writing nothing. */
  method FindTextInFiles(fs: FileSystem, glob: seq<Path>, findPattern: string) returns (results: seq<Path>)
    requires Distinct(glob)
    requires forall p :: p in glob ==> p in fs.files
    ensures TextFound(fs.files, glob, findPattern, results)
  {
    results := [];
    var i := 0;
    while i < |glob|
      invariant 0 <= i <= |glob|
      invariant TextFound(fs.files, glob[..i], findPattern, results)
    {
      var f := glob[i];
      assert glob[..i + 1] == glob[..i] + [f];
      var hit := FindTextInFile(fs, f, findPattern);
      TextFoundStep(fs.files, glob[..i], f, findPattern, results);
      if hit {
        results := results + [f];
      }
      i := i + 1;
    }
    assert glob[..i] == glob;
  }

  /** ReplaceRegexInFiles with options: the regular expression is constructed
      first, so an invalid pattern fails before any file is read; then every
      globbed file that it matches is rewritten with `rx.Replace` and reported. */
  method ReplaceRegexInFilesWithOptions(fs: FileSystem, glob: seq<Path>, rxFindPattern: string,
                                        replaceText: string, rxOptions: RegexOptions, engine: RegexEngine)
    returns (outcome: Result<seq<Path>>)
    requires Distinct(glob)
    requires forall p :: p in glob ==> p in fs.files
    modifies fs
    ensures outcome.Err? <==> !engine.accepts(rxFindPattern, rxOptions)
    ensures outcome.Err? ==> outcome.error == InvalidRegex(rxFindPattern, rxOptions) && fs.files == old(fs.files)
    ensures outcome.Ok? ==>
      RegexReplaced(old(fs.files), fs.files, glob, engine, Regex(rxFindPattern, rxOptions), replaceText, outcome.value)
  {
    if !engine.accepts(rxFindPattern, rxOptions) {
      return Err(InvalidRegex(rxFindPattern, rxOptions));
    }
    var rx := Regex(rxFindPattern, rxOptions);
    var results := [];
    var i := 0;
    while i < |glob|
      invariant 0 <= i <= |glob|
      invariant RegexReplaced(old(fs.files), fs.files, glob[..i], engine, rx, replaceText, results)
    {
      var f := glob[i];
      assert glob[..i + 1] == glob[..i] + [f];
      ghost var (files0, results0) := (fs.files, results);
      var hit := ReplaceRegexInFile(fs, f, rx, replaceText, engine);
      if hit {
        results := results + [f];
      }
      RegexReplacedStep(old(fs.files), files0, glob[..i], f, engine, rx, replaceText, results0);
      i := i + 1;
    }
    assert glob[..i] == glob;
    outcome := Ok(results);
  }

  /** ReplaceRegexInFiles without options: the same as passing RegexOptions.None. */
  method ReplaceRegexInFiles(fs: FileSystem, glob: seq<Path>, rxFindPattern: string, replaceText: string,
                             engine: RegexEngine)
    returns (outcome: Result<seq<Path>>)
    requires Distinct(glob)
    requires forall p :: p in glob ==> p in fs.files
    modifies fs
    ensures outcome.Err? <==> !engine.accepts(rxFindPattern, NoOptions)
    ensures outcome.Err? ==> outcome.error == InvalidRegex(rxFindPattern, NoOptions) && fs.files == old(fs.files)
    ensures outcome.Ok? ==>
      RegexReplaced(old(fs.files), fs.files, glob, engine, Regex(rxFindPattern, NoOptions), replaceText, outcome.value)
  {
    outcome := ReplaceRegexInFilesWithOptions(fs, glob, rxFindPattern, replaceText, NoOptions, engine);
  }

  /** FindRegexInFiles with options: construct the regular expression (an
      invalid pattern fails before any file is read), then report the globbed
      files it matches, writing nothing. */
  method FindRegexInFilesWithOptions(fs: FileSystem, glob: seq<Path>, rxFindPattern: string,
                                     rxOptions: RegexOptions, engine: RegexEngine)
    returns (outcome: Result<seq<Path>>)
    requires Distinct(glob)
    requires forall p :: p in glob ==> p in fs.files
    ensures outcome.Err? <==> !engine.accepts(rxFindPattern, rxOptions)
    ensures outcome.Err? ==> outcome.error == InvalidRegex(rxFindPattern, rxOptions)
    ensures outcome.Ok? ==> RegexFound(fs.files, glob, engine, Regex(rxFindPattern, rxOptions), outcome.value)
  {
    if !engine.accepts(rxFindPattern, rxOptions) {
      return Err(InvalidRegex(rxFindPattern, rxOptions));
    }
    var rx := Regex(rxFindPattern, rxOptions);
    var results := [];
    var i := 0;
    while i < |glob|
      invariant 0 <= i <= |glob|
      invariant RegexFound(fs.files, glob[..i], engine, rx, results)
    {
      var f := glob[i];
      assert glob[..i + 1] == glob[..i] + [f];
      var hit := FindRegexInFile(fs, f, rx, engine);
      RegexFoundStep(fs.files, glob[..i], f, engine, rx, results);
      if hit {
        results := results + [f];
      }
      i := i + 1;
    }
    assert glob[..i] == glob;
    outcome := Ok(results);
  }

  /** FindRegexInFiles without options: the same as passing RegexOptions.None. */
  method FindRegexInFiles(fs: FileSystem, glob: seq<Path>, rxFindPattern: string, engine: RegexEngine)
    returns (outcome: Result<seq<Path>>)
    requires Distinct(glob)
    requires forall p :: p in glob ==> p in fs.files
    ensures outcome.Err? <==> !engine.accepts(rxFindPattern, NoOptions)
    ensures outcome.Err? ==> outcome.error == InvalidRegex(rxFindPattern, NoOptions)
    ensures outcome.Ok? ==> RegexFound(fs.files, glob, engine, Regex(rxFindPattern, NoOptions), outcome.value)
  {
    outcome := FindRegexInFilesWithOptions(fs, glob, rxFindPattern, NoOptions, engine);
  }

  // ---------------------------------------------------------------------------
  // One more file scanned

  /** Scanning one more file, not scanned before, extends a literal replace
      by that file's task. */
  lemma TextReplacedStep(before: map<Path, string>, after: map<Path, string>, done: seq<Path>, f: Path,
                         findText: string, replaceText: string, results: seq<Path>)
    requires forall p :: p in done ==> p in before
    requires findText != [] && f in before && f !in done
    requires TextReplaced(before, after, done, findText, replaceText, results)
    ensures var hit := Contains(before[f], findText);
      TextReplaced(before, if hit then after[f := Replace(before[f], findText, replaceText)] else after,
                   done + [f], findText, replaceText, if hit then results + [f] else results)
  {
  }

  /** Scanning one more file, not scanned before, extends a literal find by
      that file's task. */
  lemma TextFoundStep(files: map<Path, string>, done: seq<Path>, f: Path, findText: string, results: seq<Path>)
    requires forall p :: p in done ==> p in files
    requires f in files && f !in done
    requires TextFound(files, done, findText, results)
    ensures TextFound(files, done + [f], findText,
                      if Contains(files[f], findText) then results + [f] else results)
  {
  }

  /** Scanning one more file, not scanned before, extends a regex replace by
      that file's task. */
  lemma RegexReplacedStep(before: map<Path, string>, after: map<Path, string>, done: seq<Path>, f: Path,
                          engine: RegexEngine, rx: Regex, replaceText: string, results: seq<Path>)
    requires forall p :: p in done ==> p in before
    requires f in before && f !in done
    requires RegexReplaced(before, after, done, engine, rx, replaceText, results)
    ensures var hit := engine.isMatch(rx, before[f]);
      RegexReplaced(before, if hit then after[f := engine.replace(rx, before[f], replaceText)] else after,
                    done + [f], engine, rx, replaceText, if hit then results + [f] else results)
  {
  }

  /** Scanning one more file, not scanned before, extends a regex find by
      that file's task. */
  lemma RegexFoundStep(files: map<Path, string>, done: seq<Path>, f: Path, engine: RegexEngine, rx: Regex,
                       results: seq<Path>)
    requires forall p :: p in done ==> p in files
    requires f in files && f !in done
    requires RegexFound(files, done, engine, rx, results)
    ensures RegexFound(files, done + [f], engine, rx,
                       if engine.isMatch(rx, files[f]) then results + [f] else results)
  {
  }

  // ---------------------------------------------------------------------------
  // Properties of the reports

  lemma {:induction false} DistinctCount<T>(s: seq<T>, x: T)
    requires Distinct(s)
    ensures multiset(s)[x] == if x in s then 1 else 0
  {
    if s != [] {
      assert s == [s[0]] + s[1..];
      assert Distinct(s[1..]);
      DistinctCount(s[1..], x);
    }
  }

  /** Two lists without repetitions that hold the same paths are the same
      multiset: whatever order the parallel scan produces, its report is
      determined up to order. */
  lemma ReportDeterminedUpToOrder(r1: seq<Path>, r2: seq<Path>)
    requires Distinct(r1) && Distinct(r2)
    requires forall p :: p in r1 <==> p in r2
    ensures multiset(r1) == multiset(r2) && |r1| == |r2|
  {
    forall p ensures multiset(r1)[p] == multiset(r2)[p] {
      DistinctCount(r1, p);
      DistinctCount(r2, p);
    }
    assert multiset(r1) == multiset(r2);
    assert |multiset(r1)| == |multiset(r2)|;
  }

  /** After a literal replace, a file is changed only if it is reported, and a
      reported file is changed unless the replacement equals the text found.
      (That the report is what a literal find would have given beforehand is
      the first conjunct of TextReplaced itself.) */
  lemma ReplaceChangesExactlyReported(before: map<Path, string>, after: map<Path, string>, glob: seq<Path>,
                                      findText: string, replaceText: string, results: seq<Path>)
    requires forall p :: p in glob ==> p in before
    requires findText != []
    requires TextReplaced(before, after, glob, findText, replaceText, results)
    ensures forall p :: p in before ==>
              (after[p] != before[p] <==> p in results && replaceText != findText)
  {
    forall p | p in before ensures after[p] != before[p] <==> p in results && replaceText != findText {
      ReplaceUnchangedIff(before[p], findText, replaceText);
    }
  }

  /** An empty glob list reports nothing and changes nothing. */
  method ReplaceTextInNoFiles(fs: FileSystem, findText: string, replaceText: string) returns (results: seq<Path>)
    requires findText != []
    modifies fs
    ensures results == []
    ensures fs.files == old(fs.files)
  {
    results := ReplaceTextInFiles(fs, [], findText, replaceText);
    ReportDeterminedUpToOrder(results, []);
    assert forall p :: p in fs.files ==> fs.files[p] == old(fs.files)[p];
  }
}
