# Cake.FileHelpers in Dafny

A model of `FileHelperAliases`, the Cake build-script aliases that search and
rewrite files matched by a glob pattern, together with the whole-file helpers
they are built on.

- `text.dfy`, module `Text`: the two ordinal `System.String` operations the
  literal aliases use. `Contains` is substring containment (the empty string
  is contained in everything). `Replace` is left-to-right, non-overlapping
  replace-all with a non-empty old value. `Split` and `Join` give an
  independent reading of `Replace`: the string is cut at the occurrences a
  greedy leftmost scan finds (`SplitLeftmost`), the cut loses nothing
  (`JoinSplit`), and `Replace` glues the pieces back with the replacement
  (`ReplaceIsJoinSplit`).
- `file_helpers.dfy`, module `FileHelpers`: the disk is a `FileSystem` object
  whose field `files: map<Path, string>` holds every file's text. The aliases
  are methods that take it, as the static extension methods of `FileHelperAliases` take the
  Cake context. `FileReadText`, `FileWriteText` and `FileAppendText` read,
  overwrite and append. The four scan aliases take the glob result as a
  sequence of distinct paths. Each loops over it: read the file, test it,
  rewrite it in the replace variants, and record it. The report is a sequence
  without repetitions whose elements are exactly the matching files. No
  postcondition promises an order, because `FileHelperAliases` collects into a
  `ConcurrentBag`. `ReportDeterminedUpToOrder` shows the report is fixed up to
  order. The find variants have no `modifies` clause, so they provably write
  nothing.
- Regular expressions are kept abstract. A `RegexEngine` value carries three
  uninterpreted operations: whether `new Regex(pattern, options)` accepts the
  pattern, `IsMatch` and `Replace`. The regex aliases construct the regex
  before touching any file. A pattern or option combination that `new Regex` refuses gives
  `Err(InvalidRegex)`
  and leaves every file untouched. The overloads without options are proved
  to have the same postcondition as the ones with options, with
  `RegexOptions.None` (`NoOptions`) filled in.

A second literal replace run can still find text to rewrite, even when the
replacement does not contain the text found. `ReplaceNotIdempotent` shows this
with a concrete input: find `"ab"`, replacement `""`, and `"aabb"` becomes
`"ab"`.

## Model

| member | source | states |
|---|---|---|
| `Text.ContainsIffOccurs` | Cake.FileHelpers/FileHelpers.cs:117 | `Contains(s, find)` holds exactly when `find` occurs in `s` at some index |
| `Text.SplitLeftmost` | Cake.FileHelpers/FileHelpers.cs:118 | the occurrences `Replace` acts on are found by a greedy leftmost scan: none starts inside the first piece; the next one starts right after it; the scan resumes after that occurrence |
| `Text.JoinSplit` | Cake.FileHelpers/FileHelpers.cs:118 | cutting a string at those occurrences loses nothing: joining the pieces with the text found gives the original string |
| `Text.ReplaceIsJoinSplit` | Cake.FileHelpers/FileHelpers.cs:118 | `String.Replace` puts the replacement where each found occurrence was and keeps every other character in place |
| `Text.SplitCountContains` | Cake.FileHelpers/FileHelpers.cs:117-118 | the scan finds at least one occurrence exactly when `Contains` holds |
| `Text.ReplaceAbsent` | Cake.FileHelpers/FileHelpers.cs:117-118 | a string that does not contain the text is returned unchanged |
| `Text.ReplaceBySelf` | Cake.FileHelpers/FileHelpers.cs:118 | replacing a text by itself returns the string unchanged |
| `Text.ReplaceUnchangedIff` | Cake.FileHelpers/FileHelpers.cs:117-119 | `Replace` changes a string exactly when the string contains the text and the replacement differs from it |
| `Text.ReplaceNotIdempotent` | Cake.FileHelpers/FileHelpers.cs:118 | a concrete input where a second replace still finds and rewrites text, although the replacement does not contain the text |
| `FileHelpers.FileReadText` | Cake.FileHelpers/FileHelpers.cs:22-27 | returns the file's full content and changes nothing; a missing file gives `FileNotFound` |
| `FileHelpers.FileWriteText` | Cake.FileHelpers/FileHelpers.cs:50-55 | the file's content becomes `text`, created if absent; no other file changes |
| `FileHelpers.FileAppendText` | Cake.FileHelpers/FileHelpers.cs:78-83 | the file's content becomes its old content (empty if absent) followed by `text`; no other file changes |
| `FileHelpers.WriteThenRead` | Cake.FileHelpers/FileHelpers.cs:50-55 | reading a file right after `FileWriteText` returns the text written |
| `FileHelpers.AppendThenRead` | Cake.FileHelpers/FileHelpers.cs:78-83 | reading a file right after `FileAppendText` returns the old content followed by the text appended; only that file changes |
| `FileHelpers.ReplaceTextInFile` | Cake.FileHelpers/FileHelpers.cs:114-122 | the per-file task of the literal replace: it reports a hit exactly when the file contains `findText`; on a hit only that file changes, to `Replace` of its content; otherwise nothing changes |
| `FileHelpers.FindTextInFile` | Cake.FileHelpers/FileHelpers.cs:223-227 | the per-file task of the literal find: reports whether the file contains the text and writes nothing |
| `FileHelpers.ReplaceRegexInFile` | Cake.FileHelpers/FileHelpers.cs:159-165 | the per-file task of the regex replace: it reports a hit exactly when `IsMatch` holds; on a hit only that file changes, to the engine's `Replace` of its content; otherwise nothing changes |
| `FileHelpers.FindRegexInFile` | Cake.FileHelpers/FileHelpers.cs:200-204 | the per-file task of the regex find: reports whether `IsMatch` holds and writes nothing |
| `FileHelpers.ReplaceTextInFiles` | Cake.FileHelpers/FileHelpers.cs:108-126 | reports, once each, exactly the globbed files whose original content contains `findText`. Each reported file is overwritten with `Replace` of its old content. Every other file, globbed or not, keeps its content, and no file is created or removed |
| `FileHelpers.ReplaceTextInNoFiles` | Cake.FileHelpers/FileHelpers.cs:110-125 | an empty glob list reports nothing and leaves every file as it was |
| `FileHelpers.FindTextInFiles` | Cake.FileHelpers/FileHelpers.cs:217-230 | reports, once each, exactly the globbed files that contain the text; writes nothing |
| `FileHelpers.ReplaceRegexInFilesWithOptions` | Cake.FileHelpers/FileHelpers.cs:152-169 | a pattern or option combination that `new Regex` refuses fails with `InvalidRegex` and changes no file. Otherwise it reports, once each, exactly the globbed files where `IsMatch` holds, and overwrites each with the engine's `Replace` of its old content. All other files are untouched |
| `FileHelpers.ReplaceRegexInFiles` | Cake.FileHelpers/FileHelpers.cs:137-140 | the same outcome and new file contents as the overload with options, called with `RegexOptions.None` |
| `FileHelpers.FindRegexInFilesWithOptions` | Cake.FileHelpers/FileHelpers.cs:193-207 | a pattern or option combination that `new Regex` refuses fails with `InvalidRegex`. Otherwise it reports, once each, exactly the globbed files where `IsMatch` holds; writes nothing |
| `FileHelpers.FindRegexInFiles` | Cake.FileHelpers/FileHelpers.cs:179-182 | the same outcome as the overload with options, called with `RegexOptions.None` |
| `FileHelpers.ReportDeterminedUpToOrder` | Cake.FileHelpers/FileHelpers.cs:112-125 | two reports without repetitions that name the same files are equal as multisets, so the result is fixed up to order |
| `FileHelpers.ReplaceChangesExactlyReported` | Cake.FileHelpers/FileHelpers.cs:114-122 | after a literal replace, a file's content differs exactly when it was reported and the replacement differs from the text found |

## Left out

- Parallelism: `Parallel.ForEach` and the thread-safe `ConcurrentBag` are not modelled. Over distinct files, the model's sequential loop has the same observable effect. Result order is left unspecified.
- Duplicate glob entries: every scan alias requires distinct paths. For the replace aliases, two parallel tasks on one path would race. The find aliases only read, so they would report a duplicated path once per entry; the model does not represent that.
- Glob expansion and path resolution (`context.Globber.GetFiles`, `FilePath.MakeAbsolute`) are host services. The glob result is an input sequence, and paths are opaque strings.
- Regular-expression semantics (matching, group substitution, option flags) belong to `System.Text.RegularExpressions`. They are uninterpreted parameters of the model.
- `FileReadLines`, `FileWriteLines` and `FileAppendLines` are not modelled. They depend on platform newlines, line splitting and `System.IO.File` encoding.
- Text encoding: file content is modelled as the string `File.ReadAllText` decodes, and every write or append is taken to add that string's own characters. .NET writes and appends UTF-8 bytes, so this differs from .NET in the byte-order-mark case below and when appending to a file stored in another encoding.
- FileWriteText: a text that starts with U+FEFF is stored as written, but `File.WriteAllText` writes it as the UTF-8 bytes EF BB BF, which `File.ReadAllText` then drops as a byte-order mark.
- WriteThenRead: proves the text read back equals the text written, which .NET does not give for a text starting with U+FEFF (see FileWriteText).
- FileAppendText: the same U+FEFF case when appending to a missing or empty file: the stored content keeps the leading U+FEFF that a later read drops.
- AppendThenRead: proves the read-back value with the leading U+FEFF kept in that same case.
- FileAppendText: appending to an existing file stored as UTF-16 or UTF-32 with a byte-order mark is not modelled. `File.AppendAllText` adds UTF-8 bytes after the old ones, and `File.ReadAllText` still decodes the whole file by the old mark, so the file does not read back as the old text followed by `text`. The model treats the existing bytes as UTF-8.
- AppendThenRead: proves `Ok` of the old text followed by `text`, which .NET does not give for an existing UTF-16 or UTF-32 file with a byte-order mark (see FileAppendText).
- ReplaceTextInFiles: a rewritten content that starts with U+FEFF has the same byte-order-mark gap as FileWriteText; so does ReplaceRegexInFilesWithOptions.
- Lone surrogates: a Dafny `char` is a Unicode scalar value, so a `findText` or `replaceText` holding an unpaired UTF-16 surrogate, legal in C#, cannot be written, and a match that splits a surrogate pair is not represented. On well-formed text the code-unit scan of .NET and the model's scan find the same occurrences.
- I/O failures during a scan: every scan alias requires each globbed path to exist, as the globber only returns existing files. A read or write failure mid-scan, and the partial rewrite it leaves behind, are not modelled. Write and append failures (permissions, missing directory) are not modelled either.
- ReplaceTextInFiles: requires `findText` to be non-empty. `String.Replace` throws `ArgumentException` for an empty old value, so ReplaceTextInFiles fails as soon as it reads a file; with an empty glob list it returns an empty result.
- ReplaceTextInNoFiles: inherits the requirement that `findText` be non-empty. With an empty glob list the source accepts an empty `findText` as well and returns an empty result, so the model does not cover that call.
